/**
 * The editor's undo stack: a stack of labelled steps, each holding at most one snapshot of
 * the pixels of every material painted while the step was open. Undoing copies the
 * snapshots of the top step back into their materials and pops that step.
 */
module UndoStack {
  import opened Common

  /**
   * A material's texture: width*height RGBA words, owned by the material and cleared when
   * allocated. The program replaces a material's pixel array when a skin is loaded; here the
   * array is fixed, which changes nothing for the undo operations, since a snapshot is
   * restored into whatever array the material holds when undo runs.
   */
  class Material {
    const pixels: array<bv32>

    constructor (width: nat, height: nat)
      ensures fresh(pixels) && pixels.Length == width * height
      ensures forall i :: 0 <= i < pixels.Length ==> pixels[i] == 0
    {
      pixels := new bv32[width * height](_ => 0);
    }
  }

  /** One saved material (struct UndoOperation): the material and its pixels when saved. */
  datatype Op = Op(material: Material, snapshot: seq<bv32>)

  /** One undo step (struct UndoStep); `ops` is newest first, as the C list is prepended. */
  datatype Step = Step(title: string, ops: seq<Op>)

  /** Whether the operations already hold a snapshot of material m. */
  predicate Saved(ops: seq<Op>, m: Material) {
    exists i :: 0 <= i < |ops| && ops[i].material == m
  }

  /** The snapshot the operations hold for m, the first in list order. */
  function SnapshotOf(ops: seq<Op>, m: Material): (r: Option<seq<bv32>>)
    ensures r.Some? <==> Saved(ops, m)
    ensures r.Some? ==> exists i :: 0 <= i < |ops| && ops[i] == Op(m, r.value)
  {
    if ops == [] then None
    else if ops[0].material == m then Some(ops[0].snapshot)
    else
      var rest := SnapshotOf(ops[1..], m);
      assert Saved(ops[1..], m) ==> Saved(ops, m);
      assert Saved(ops, m) ==> Saved(ops[1..], m) by {
        if Saved(ops, m) {
          var i :| 0 <= i < |ops| && ops[i].material == m;
          assert ops[1..][i - 1].material == m;
        }
      }
      if rest.Some? then
        assert exists i :: 0 <= i < |ops[1..]| && ops[1..][i] == Op(m, rest.value);
        var i :| 0 <= i < |ops[1..]| && ops[1..][i] == Op(m, rest.value);
        assert ops[i + 1] == Op(m, rest.value);
        rest
      else rest
  }

  /**
   * A step's snapshots are restorable one after the other: their pixel buffers are pairwise
   * distinct (so no two snapshots are of the same material) and each snapshot has its
   * buffer's length.
   */
  predicate StepOk(ops: seq<Op>) {
    (forall i, j :: 0 <= i < j < |ops| ==> ops[i].material.pixels != ops[j].material.pixels) &&
    (forall i :: 0 <= i < |ops| ==> |ops[i].snapshot| == ops[i].material.pixels.Length)
  }

  /** Material m owns its pixel buffer with respect to the other materials of the step. */
  predicate OwnsPixels(ops: seq<Op>, m: Material) {
    forall i :: 0 <= i < |ops| && ops[i].material != m ==> ops[i].material.pixels != m.pixels
  }

  /** undo_save_material_pixels on the stack value, given the material's current pixels. */
  function SaveSpec(steps: seq<Step>, m: Material, pixels: seq<bv32>): seq<Step> {
    if steps == [] || Saved(steps[0].ops, m) then steps
    else [steps[0].(ops := [Op(m, pixels)] + steps[0].ops)] + steps[1..]
  }

  /**
   * Saving twice in the same step keeps the first snapshot: the second save changes nothing,
   * whatever the pixels are by then.
   */
  lemma SaveIdempotent(steps: seq<Step>, m: Material, first: seq<bv32>, later: seq<bv32>)
    ensures SaveSpec(SaveSpec(steps, m, first), m, later) == SaveSpec(steps, m, first)
  {
    var once := SaveSpec(steps, m, first);
    if steps != [] && !Saved(steps[0].ops, m) {
      assert once[0].ops[0].material == m;
    }
  }

  /**
   * After a save in an open step, the step holds a snapshot of m: the one taken at the first
   * save of m in that step. Every other step is unchanged, and with no open step nothing is.
   */
  lemma SaveRecordsFirst(steps: seq<Step>, m: Material, pixels: seq<bv32>)
    ensures steps == [] ==> SaveSpec(steps, m, pixels) == []
    ensures steps != [] ==> (
      |SaveSpec(steps, m, pixels)| == |steps| &&
      SaveSpec(steps, m, pixels)[1..] == steps[1..] &&
      SaveSpec(steps, m, pixels)[0].title == steps[0].title &&
      SnapshotOf(SaveSpec(steps, m, pixels)[0].ops, m) ==
        (if Saved(steps[0].ops, m) then SnapshotOf(steps[0].ops, m) else Some(pixels)))
  {
  }

  /** A save keeps the step restorable when the material owns its pixels. */
  lemma SaveKeepsStepOk(ops: seq<Op>, m: Material, pixels: seq<bv32>)
    requires StepOk(ops) && OwnsPixels(ops, m) && !Saved(ops, m) && |pixels| == m.pixels.Length
    ensures StepOk([Op(m, pixels)] + ops)
  {
    var grown := [Op(m, pixels)] + ops;
    forall i, j | 0 <= i < j < |grown|
      ensures grown[i].material.pixels != grown[j].material.pixels
    {
      if i == 0 {
        assert grown[j] == ops[j - 1];
        assert ops[j - 1].material != m;
      }
    }
  }

  /** Whether material m has a snapshot in the operations, by walking the list. */
  method Recorded(ops: seq<Op>, m: Material) returns (found: bool)
    ensures found == Saved(ops, m)
  {
    var i := 0;
    while i < |ops|
      invariant i <= |ops|
      invariant forall j :: 0 <= j < i ==> ops[j].material != m
    {
      if ops[i].material == m {
        return true;
      }
      i := i + 1;
    }
    return false;
  }

  /** memcpy of a snapshot back into a pixel buffer of the same length. */
  method CopyInto(dst: array<bv32>, src: seq<bv32>)
    requires |src| == dst.Length
    modifies dst
    ensures dst[..] == src
  {
    var k := 0;
    while k < dst.Length
      invariant k <= dst.Length
      invariant dst[..k] == src[..k]
    {
      dst[k] := src[k];
      k := k + 1;
    }
  }

  /** The pixel buffers a step's snapshots restore. */
  function Buffers(ops: seq<Op>): set<array<bv32>> {
    set i | 0 <= i < |ops| :: ops[i].material.pixels
  }

  /** struct Undo: the stack of steps, top first. */
  class Undo {
    var steps: seq<Step>

    predicate Valid()
      reads this
    {
      forall k :: 0 <= k < |steps| ==> StepOk(steps[k].ops)
    }

    constructor ()
      ensures Valid() && steps == []
    {
      steps := [];
    }

    /** The buffers the top step would restore. */
    function TopBuffers(): set<array<bv32>>
      reads this
    {
      if steps == [] then {} else Buffers(steps[0].ops)
    }

    /** undo_push: opens a new, empty step on top of the stack. */
    method Push(title: string)
      requires Valid()
      modifies this
      ensures Valid() && steps == [Step(title, [])] + old(steps)
    {
      steps := [Step(title, [])] + steps;
    }

    /**
     * undo_save_material_pixels: with a step open, records the material's current pixels
     * unless the step already holds a snapshot of it; with no step open, does nothing.
     */
    method SaveMaterialPixels(m: Material)
      requires Valid()
      requires steps != [] ==> OwnsPixels(steps[0].ops, m)
      modifies this
      ensures Valid() && steps == SaveSpec(old(steps), m, m.pixels[..])
    {
      if steps == [] {
        return;
      }
      var ops := steps[0].ops;
      var found := Recorded(ops, m);
      if found {
        return;
      }
      var snapshot := m.pixels[..];
      SaveKeepsStepOk(ops, m, snapshot);
      steps := [steps[0].(ops := [Op(m, snapshot)] + ops)] + steps[1..];
    }

    /**
     * undo_undo: copies every snapshot of the top step back into its material and pops
     * exactly that step. On an empty stack nothing changes.
     */
    method UndoLast()
      requires Valid()
      modifies this, TopBuffers()
      ensures Valid()
      ensures old(steps) == [] ==> steps == []
      ensures old(steps) != [] ==> steps == old(steps)[1..]
      ensures old(steps) != [] ==> forall i :: 0 <= i < |old(steps)[0].ops| ==>
        old(steps)[0].ops[i].material.pixels[..] == old(steps)[0].ops[i].snapshot
    {
      if steps == [] {
        return;
      }
      var ops := steps[0].ops;
      assert StepOk(ops);
      var i := 0;
      while i < |ops|
        invariant i <= |ops| && steps == old(steps) && ops == old(steps)[0].ops
        invariant forall j :: 0 <= j < i ==> ops[j].material.pixels[..] == ops[j].snapshot
      {
        var dst := ops[i].material.pixels;
        assert dst in Buffers(ops);
        CopyInto(dst, ops[i].snapshot);
        i := i + 1;
      }
      steps := steps[1..];
    }

    /** undo_clear: discards every step. */
    method Clear()
      modifies this
      ensures Valid() && steps == []
    {
      steps := [];
    }
  }
}
