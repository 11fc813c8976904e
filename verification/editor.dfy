/**
 * The editor's small pieces of logic: team-name matching, hit testing of layout rectangles,
 * the vertical flip of RGBA images, the colour-coded picking of material texels, the
 * parsing of one line of the ships list, and the save-slot arithmetic.
 */
module Editor {
  import opened Common

  // ---------------------------------------------------------------- team names

  /** C strcmp on two NUL-free strings: the difference of the first differing bytes. */
  function StrCmp(a: Bytes, b: Bytes): int
    decreases |a|
  {
    if a == [] && b == [] then 0
    else if a == [] then 0 - ByteValue(b[0]) as int
    else if b == [] then ByteValue(a[0])
    else if a[0] != b[0] then ByteValue(a[0]) - ByteValue(b[0])
    else StrCmp(a[1..], b[1..])
  }

  /** strcmp reports equality exactly for equal strings. */
  lemma {:induction false} StrCmpZeroIff(a: Bytes, b: Bytes)
    requires NoNul(a) && NoNul(b)
    ensures StrCmp(a, b) == 0 <==> a == b
    decreases |a|
  {
    if a != [] && b != [] && a[0] != b[0] {
      ByteValueInjective(a[0], b[0]);
    } else if a != [] && b != [] {
      StrCmpZeroIff(a[1..], b[1..]);
      assert a == [a[0]] + a[1..] && b == [b[0]] + b[1..];
    } else if a == [] && b != [] {
      assert b[0] != 0;
    } else if b == [] && a != [] {
      assert a[0] != 0;
    }
  }

  lemma ByteValueInjective(x: bv8, y: bv8)
    requires x != y
    ensures ByteValue(x) != ByteValue(y)
  {
  }

  const MIRAGE: Bytes := [0x4D, 0x69, 0x72, 0x61, 0x67, 0x65]
  const MANTIS: Bytes := [0x4D, 0x61, 0x6E, 0x74, 0x69, 0x73]

  /**
   * match_team_name: a saved team name selects a team when the names are equal, and the
   * old misspelling "Mirage" also selects the team "Mantis".
   */
  function MatchTeamName(name: Bytes, team: Bytes): (r: bool)
    requires NoNul(name) && NoNul(team)
    ensures r <==> name == team || (name == MIRAGE && team == MANTIS)
  {
    StrCmpZeroIff(name, team);
    StrCmpZeroIff(name, MIRAGE);
    StrCmpZeroIff(team, MANTIS);
    StrCmp(name, team) == 0 || (StrCmp(name, MIRAGE) == 0 && StrCmp(team, MANTIS) == 0)
  }

  // ---------------------------------------------------------------- layout rectangles

  datatype Rect = Rect(x: int, y: int, w: int, h: int)

  /** rect_contains: both the left/top and the right/bottom edges belong to the rectangle. */
  function RectContains(r: Rect, x: int, y: int): bool {
    r.x <= x && r.x + r.w >= x && r.y <= y && r.y + r.h >= y
  }

  /**
   * A rectangle of width w and height h holds exactly the points whose offsets from its
   * corner lie in 0..w and 0..h, inclusive: w + 1 columns and h + 1 rows.
   */
  lemma RectSpan(r: Rect, dx: int, dy: int)
    ensures RectContains(r, r.x + dx, r.y + dy) <==> 0 <= dx <= r.w && 0 <= dy <= r.h
  {
  }

  // ---------------------------------------------------------------- vertical flip

  lemma MulMono(a: nat, b: nat, w: nat)
    requires a <= b
    ensures a * w <= b * w
  {
  }

  /** An index below row r lies in a row before r. */
  lemma DivBelow(i: nat, r: nat, w: nat)
    requires w > 0 && i < r * w
    ensures i / w < r
  {
    var q := i / w;
    assert q * w <= i;
    if q >= r {
      MulMono(r, q, w);
      assert false;
    }
  }

  /** An index past row r lies in a row after r. */
  lemma DivAbove(i: nat, r: nat, w: nat)
    requires w > 0 && i >= r * w + w
    ensures i / w > r
  {
    var q := i / w;
    assert i < q * w + w;
    if q <= r {
      MulMono(q, r, w);
      assert false;
    }
  }

  /** An index inside row r has row r and column i - r*w. */
  lemma DivIn(i: nat, r: nat, w: nat)
    requires w > 0 && r * w <= i < r * w + w
    ensures i / w == r && i % w == i - r * w
  {
    var q := i / w;
    assert (r + 1) * w == r * w + w;
    DivBelow(i, r + 1, w);
    if q < r {
      assert (q + 1) * w == q * w + w;
      MulMono(q + 1, r, w);
      assert false;
    }
    assert i == q * w + i % w;
  }

  /** The index that row-flipping an image w wide and h high moves to index i. */
  function Mirror(i: nat, w: nat, h: nat): (r: nat)
    requires i < w * h
    ensures r < w * h
  {
    var q := i / w;
    DivBelow(i, h, w);
    MulMono(h - q, h, w);
    assert (h - 1 - q) * w + w == (h - q) * w;
    (h - 1 - q) * w + i % w
  }

  /** Mirror sends row q to row h-1-q and keeps the column. */
  lemma MirrorRow(i: nat, w: nat, h: nat)
    requires i < w * h
    ensures i / w < h && Mirror(i, w, h) / w == h - 1 - i / w && Mirror(i, w, h) % w == i % w
  {
    DivBelow(i, h, w);
    DivIn(Mirror(i, w, h), h - 1 - i / w, w);
  }

  /** Mirroring twice gives back the index. */
  lemma MirrorInvolution(i: nat, w: nat, h: nat)
    requires i < w * h
    ensures Mirror(Mirror(i, w, h), w, h) == i
  {
    MirrorRow(i, w, h);
  }

  /** The image with row y holding what row h-1-y held. */
  function Flipped(s: seq<bv32>, w: nat, h: nat): (r: seq<bv32>)
    requires |s| == w * h
    ensures |r| == |s|
  {
    seq(|s|, i requires 0 <= i < |s| => s[Mirror(i, w, h)])
  }

  /** Flipping twice gives back the image. */
  lemma FlipInvolution(s: seq<bv32>, w: nat, h: nat)
    requires |s| == w * h
    ensures Flipped(Flipped(s, w, h), w, h) == s
  {
    var f := Flipped(s, w, h);
    forall i | 0 <= i < |s|
      ensures Flipped(f, w, h)[i] == s[i]
    {
      MirrorInvolution(i, w, h);
    }
  }

  /** With an odd height the middle row stays where it is. */
  lemma FlipKeepsMiddleRow(s: seq<bv32>, w: nat, h: nat, i: nat)
    requires |s| == w * h && h % 2 == 1 && i < |s| && i / w == h / 2
    ensures Flipped(s, w, h)[i] == s[i]
  {
    assert Mirror(i, w, h) == i / w * w + i % w;
  }

  /** Whether rgba32_flip_y has swapped the row of index i once it has done rows 0..y-1. */
  predicate Swapped(i: nat, w: nat, h: nat, y: nat)
    requires w > 0
  {
    i / w < y || i / w > h - 1 - y
  }

  /** The image once rows 0..y-1 have changed places with rows h-1 .. h-y. */
  function Stage(s: seq<bv32>, w: nat, h: nat, y: nat): (r: seq<bv32>)
    requires |s| == w * h
    ensures |r| == |s|
  {
    seq(|s|, i requires 0 <= i < |s| => if Swapped(i, w, h, y) then s[Mirror(i, w, h)] else s[i])
  }

  /** The words of `before` with the n words at src and the n words at dst exchanged. */
  function RangesSwapped(before: seq<bv32>, src: nat, dst: nat, n: nat): (r: seq<bv32>)
    requires src + n <= dst && dst + n <= |before|
    ensures |r| == |before|
  {
    seq(|before|, i requires 0 <= i < |before| =>
      if src <= i < src + n then before[i - src + dst]
      else if dst <= i < dst + n then before[i - dst + src]
      else before[i])
  }

  /** Before any swap the image is as it was. */
  lemma StageStart(s: seq<bv32>, w: nat, h: nat)
    requires |s| == w * h
    ensures Stage(s, w, h, 0) == s
  {
    forall i | 0 <= i < |s|
      ensures Stage(s, w, h, 0)[i] == s[i]
    {
      NoneSwapped(i, w, h);
    }
  }

  /** No index is swapped before the first swap. */
  lemma NoneSwapped(i: nat, w: nat, h: nat)
    requires i < w * h
    ensures w > 0 && !Swapped(i, w, h, 0)
  {
    DivBelow(i, h, w);
  }

  /** After height/2 swaps the image is flipped. */
  lemma StageDone(s: seq<bv32>, w: nat, h: nat)
    requires |s| == w * h
    ensures Stage(s, w, h, h / 2) == Flipped(s, w, h)
  {
    forall i | 0 <= i < |s|
      ensures Stage(s, w, h, h / 2)[i] == Flipped(s, w, h)[i]
    {
      if !Swapped(i, w, h, h / 2) {
        FlipKeepsMiddleRow(s, w, h, i);
      }
    }
  }

  /** Exchanging rows y and h-1-y takes stage y to stage y+1. */
  lemma StageStep(s: seq<bv32>, w: nat, h: nat, y: nat)
    requires |s| == w * h && y < h / 2
    ensures y * w + w <= (h - 1 - y) * w && (h - 1 - y) * w + w <= |s|
    ensures RangesSwapped(Stage(s, w, h, y), y * w, (h - 1 - y) * w, w) == Stage(s, w, h, y + 1)
  {
    RowsApart(w, h, y);
    var src, dst := y * w, (h - 1 - y) * w;
    var before := Stage(s, w, h, y);
    forall i | 0 <= i < |s|
      ensures RangesSwapped(before, src, dst, w)[i] == Stage(s, w, h, y + 1)[i]
    {
      SwapRowsAt(i, w, h, y, src, dst);
      if src <= i < src + w {
        SwapRowsAt(i - src + dst, w, h, y, src, dst);
        MirrorInvolution(i, w, h);
      } else if dst <= i < dst + w {
        SwapRowsAt(i - dst + src, w, h, y, src, dst);
        MirrorInvolution(i, w, h);
      }
    }
  }

  /**
   * rgba32_flip_y: swaps row y with row height-1-y for every y below height/2, through a
   * one-row buffer.
   */
  method FlipY(pixels: array<bv32>, width: nat, height: nat)
    requires pixels.Length == width * height
    modifies pixels
    ensures pixels[..] == Flipped(old(pixels[..]), width, height)
  {
    ghost var s := pixels[..];
    StageStart(s, width, height);
    var y := 0;
    while y < height / 2
      invariant y <= height / 2 && pixels[..] == Stage(s, width, height, y)
    {
      StageStep(s, width, height, y);
      SwapRanges(pixels, y * width, (height - 1 - y) * width, width);
      y := y + 1;
    }
    StageDone(s, width, height);
  }

  /** Rows y and h-1-y, for y below h/2, are disjoint and inside the image. */
  lemma RowsApart(w: nat, h: nat, y: nat)
    requires y < h / 2
    ensures y * w + w <= (h - 1 - y) * w && (h - 1 - y) * w + w <= w * h
  {
    MulMono(y + 1, h - 1 - y, w);
    MulMono(h - y, h, w);
    assert (y + 1) * w == y * w + w;
    assert (h - 1 - y) * w + w == (h - y) * w;
  }

  /** One swap of rgba32_flip_y: the n words at src and at dst change places. */
  method SwapRanges(pixels: array<bv32>, src: nat, dst: nat, n: nat)
    requires src + n <= dst && dst + n <= pixels.Length
    modifies pixels
    ensures pixels[..] == RangesSwapped(old(pixels[..]), src, dst, n)
  {
    var buf := pixels[src..src + n];
    var x := 0;
    while x < n
      invariant x <= n
      invariant forall i :: 0 <= i < pixels.Length ==>
        pixels[i] == (if src <= i < src + x then old(pixels[i - src + dst])
                      else if dst <= i < dst + x then old(pixels[i - dst + src])
                      else old(pixels[i]))
    {
      pixels[src + x], pixels[dst + x] := pixels[dst + x], buf[x];
      x := x + 1;
    }
  }

  /** Where index i lies with respect to rows y and h-1-y, and where Mirror sends it. */
  lemma SwapRowsAt(i: nat, w: nat, h: nat, y: nat, src: nat, dst: nat)
    requires i < w * h && y < h / 2 && src == y * w && dst == (h - 1 - y) * w
    requires src + w <= dst
    ensures src <= i < src + w ==> Mirror(i, w, h) == i - src + dst && !Swapped(i, w, h, y) && Swapped(i, w, h, y + 1)
    ensures dst <= i < dst + w ==> Mirror(i, w, h) == i - dst + src && !Swapped(i, w, h, y) && Swapped(i, w, h, y + 1)
    ensures !(src <= i < src + w) && !(dst <= i < dst + w) ==> (Swapped(i, w, h, y) <==> Swapped(i, w, h, y + 1))
  {
    if src <= i < src + w {
      DivIn(i, y, w);
    } else if dst <= i < dst + w {
      DivIn(i, h - 1 - y, w);
    } else {
      if i < src {
        DivBelow(i, y, w);
      } else {
        DivAbove(i, y, w);
      }
      if i < dst {
        DivBelow(i, h - 1 - y, w);
      } else {
        DivAbove(i, h - 1 - y, w);
      }
    }
  }

  // ---------------------------------------------------------------- picking colours

  /** The picking index of a material: its index plus one, or 7 for the cockpit (-1). */
  function PickIndex(materialIndex: int): bv32
    requires -1 <= materialIndex < 7
  {
    if materialIndex == -1 then 7 else (materialIndex + 1) as bv32
  }

  /** The colour of texel (x, y) in a material's picking texture. */
  function PickColour(x: bv32, y: bv32, index: bv32): bv32 {
    0xFF00_0000 | ((x << 1) << 16) | ((y << 1) << 8) | (index << 5)
  }

  /** What the picker reads from a picked pixel: the material index from red, u from green, v from blue. */
  datatype Pick = Pick(index: bv32, u: bv32, v: bv32)

  function PickOf(pixel: bv32): Pick {
    var r := pixel & 0xFF;
    var g := (pixel >> 8) & 0xFF;
    var b := (pixel >> 16) & 0xFF;
    Pick(r >> 5, g >> 1, b >> 1)
  }

  /**
   * Decoding a picking colour gives back the index and the texel, with u the row and v the
   * column, for every texel of a 128x128 material.
   */
  lemma PickRoundTrip(x: bv32, y: bv32, index: bv32)
    requires x < 128 && y < 128 && index < 8
    ensures PickOf(PickColour(x, y, index)) == Pick(index, y, x)
  {
    RedChannel(x, y, index);
    GreenChannel(x, y, index);
    BlueChannel(x, y, index);
  }

  lemma RedChannel(x: bv32, y: bv32, index: bv32)
    requires x < 128 && y < 128 && index < 8
    ensures (PickColour(x, y, index) & 0xFF) >> 5 == index
  {
  }

  lemma GreenChannel(x: bv32, y: bv32, index: bv32)
    requires x < 128 && y < 128 && index < 8
    ensures ((PickColour(x, y, index) >> 8) & 0xFF) >> 1 == y
  {
  }

  lemma BlueChannel(x: bv32, y: bv32, index: bv32)
    requires x < 128 && y < 128 && index < 8
    ensures ((PickColour(x, y, index) >> 16) & 0xFF) >> 1 == x
  {
  }

  /** The material a picked index selects: indices 1..4 select materials 0..3, others none. */
  function PickedMaterial(index: bv32): (r: Option<bv32>)
    ensures r.Some? <==> 0 < index < 5
    ensures r.Some? ==> r.value < 4 && r.value + 1 == index
  {
    if 0 < index && index < 5 then Some(index - 1) else None
  }

  /**
   * A texel picked from a material's picking texture selects that material exactly when its
   * index is 0..3; the cockpit (-1) and materials 4..6 are never painted.
   */
  lemma PickSelectsMaterial(x: bv32, y: bv32, materialIndex: int)
    requires x < 128 && y < 128 && -1 <= materialIndex < 7
    ensures PickedMaterial(PickOf(PickColour(x, y, PickIndex(materialIndex))).index) ==
      if 0 <= materialIndex < 4 then Some(materialIndex as bv32) else None
  {
    PickRoundTrip(x, y, PickIndex(materialIndex));
  }

  /**
   * Picking through the 256x256 texture preview at (tx, ty): four 128x128 quadrants,
   * indices 1..4, with the row counted from the bottom.
   */
  function PreviewPick(tx: bv32, ty: bv32): Pick
    requires tx < 256 && ty < 256
  {
    Pick(1 + (ty / 128) * 2 + tx / 128, 127 - ty % 128, tx % 128)
  }

  /**
   * Every point of the preview picks a material index 1..4 and a texel inside it, and each
   * material texel is picked by exactly one point: the one this inverse gives.
   */
  lemma PreviewPickInverse(tx: bv32, ty: bv32)
    requires tx < 256 && ty < 256
    ensures var p := PreviewPick(tx, ty);
      0 < p.index < 5 && p.u < 128 && p.v < 128 &&
      tx == ((p.index - 1) % 2) * 128 + p.v &&
      ty == ((p.index - 1) / 2) * 128 + 127 - p.u
  {
    Quadrant(tx);
    Quadrant(ty);
    IndexParts(tx / 128, ty / 128);
  }

  /** A preview coordinate splits into its quadrant and its offset inside it. */
  lemma Quadrant(t: bv32)
    requires t < 256
    ensures t / 128 < 2 && t % 128 < 128 && t == (t / 128) * 128 + t % 128
  {
  }

  /** The index of quadrant (qx, qy) is 1..4 and gives back qx and qy. */
  lemma IndexParts(qx: bv32, qy: bv32)
    requires qx < 2 && qy < 2
    ensures var i := 1 + qy * 2 + qx; 0 < i < 5 && (i - 1) % 2 == qx && (i - 1) / 2 == qy
  {
  }

  // ---------------------------------------------------------------- save slots

  const MAX_SLOTS: nat := 40

  /** The save-slot button, left click. */
  function NextSlot(slot: nat): (r: nat)
    ensures r < MAX_SLOTS
  {
    (slot + 1) % MAX_SLOTS
  }

  /** The save-slot button, right click. */
  function PreviousSlot(slot: nat): (r: nat)
    ensures r < MAX_SLOTS
  {
    (slot + MAX_SLOTS - 1) % MAX_SLOTS
  }

  /** Left and right clicks undo each other on every valid slot, and cycle through all 40. */
  lemma SlotCycle(slot: nat)
    requires slot < MAX_SLOTS
    ensures PreviousSlot(NextSlot(slot)) == slot && NextSlot(PreviousSlot(slot)) == slot
    ensures NextSlot(slot) == if slot == MAX_SLOTS - 1 then 0 else slot + 1
  {
  }

  /** The --slot option as written: a slot number at or past the last is clamped to MAX_SLOTS. */
  function ClampSlotAsWritten(want: int): int
    requires want >= 0
  {
    if want < MAX_SLOTS then want else MAX_SLOTS
  }

  /** The clamp lets slot 40 through, one past the 40 slots 0..39 the button cycles through. */
  lemma ClampSlotEscapes()
    ensures ClampSlotAsWritten(40) == MAX_SLOTS && ClampSlotAsWritten(1000) == MAX_SLOTS
  {
  }

  /** The --slot option clamped to the last slot. */
  function ClampSlot(want: int): (r: nat)
    requires want >= 0
    ensures r < MAX_SLOTS
    ensures want < MAX_SLOTS ==> r == want
    ensures want >= MAX_SLOTS ==> r == MAX_SLOTS - 1
  {
    if want < MAX_SLOTS then want else MAX_SLOTS - 1
  }

  // ---------------------------------------------------------------- the ships list

  const COMMA: bv8 := 0x2C
  const SPACE: bv8 := 0x20
  const HASH: bv8 := 0x23

  /** A line of the ships list: skipped (comment or empty), a team, or malformed (fatal). */
  datatype ShipsLine = Skipped | Team(name: Bytes, title: Bytes, slug: Bytes) | Malformed

  /** The comma-separated fields of a line; n commas give n + 1 fields. */
  function Split(s: Bytes): (r: seq<Bytes>)
    ensures |r| >= 1
  {
    if s == [] then [[]]
    else if s[0] == COMMA then [[]] + Split(s[1..])
    else var rest := Split(s[1..]); [[s[0]] + rest[0]] + rest[1..]
  }

  /** The fields the parser starts: all but an empty one after a final comma. */
  function Fields(s: Bytes): seq<Bytes> {
    if s != [] && s[|s| - 1] == COMMA then Split(s)[..|Split(s)| - 1] else Split(s)
  }

  /** A field without its leading spaces. */
  function StripSpaces(s: Bytes): (r: Bytes)
    ensures r == [] || r[0] != SPACE
  {
    if s != [] && s[0] == SPACE then StripSpaces(s[1..]) else s
  }

  /**
   * parse_ships_line: comments and empty lines are skipped; otherwise the first three fields,
   * each without its leading spaces, are the team's name, title and slug, and a line with
   * fewer than three fields is fatal.
   */
  function ShipsLineOf(s: Bytes): ShipsLine {
    if s == [] || s[0] == HASH then Skipped
    else
      var f := Fields(s);
      if |f| < 3 then Malformed else Team(StripSpaces(f[0]), StripSpaces(f[1]), StripSpaces(f[2]))
  }

  /** Three comma-free fields written with commas between them parse back as a team. */
  lemma ShipsLineRoundTrip(name: Bytes, title: Bytes, slug: Bytes)
    requires COMMA !in name && COMMA !in title && COMMA !in slug
    requires name != [] && name[0] != HASH && name[0] != SPACE
    requires (title == [] || title[0] != SPACE) && (slug == [] || slug[0] != SPACE)
    requires slug != []
    ensures ShipsLineOf(name + [COMMA] + title + [COMMA] + slug) == Team(name, title, slug)
  {
    var s := name + [COMMA] + title + [COMMA] + slug;
    SplitNoComma(slug);
    SplitJoin(title, slug, [slug]);
    SplitJoin(name, title + [COMMA] + slug, [title, slug]);
    assert s == name + [COMMA] + (title + [COMMA] + slug);
    assert Split(s) == [name, title, slug];
    assert s[|s| - 1] == slug[|slug| - 1];
    assert slug[|slug| - 1] in slug;
    assert Fields(s) == [name, title, slug];
    assert StripSpaces(name) == name && StripSpaces(title) == title && StripSpaces(slug) == slug;
  }

  lemma {:induction false} SplitNoComma(s: Bytes)
    requires COMMA !in s
    ensures Split(s) == [s]
  {
    if s != [] {
      assert COMMA !in s[1..] by { assert forall i :: 0 <= i < |s| - 1 ==> s[1..][i] == s[i + 1]; }
      SplitNoComma(s[1..]);
      assert s == [s[0]] + s[1..];
    }
  }

  /** A comma-free field followed by a comma and more text. */
  lemma {:induction false} SplitJoin(a: Bytes, b: Bytes, rest: seq<Bytes>)
    requires COMMA !in a && Split(b) == rest
    ensures Split(a + [COMMA] + b) == [a] + rest
  {
    if a == [] {
      assert a + [COMMA] + b == [COMMA] + b;
      assert ([COMMA] + b)[1..] == b;
    } else {
      var t := a + [COMMA] + b;
      assert COMMA !in a[1..] by { assert forall i :: 0 <= i < |a| - 1 ==> a[1..][i] == a[i + 1]; }
      SplitJoin(a[1..], b, rest);
      assert t[0] == a[0] && t[1..] == a[1..] + [COMMA] + b;
      assert [a[0]] + a[1..] == a;
    }
  }

  /** The field of `s` that starts at `start` ends at `e`: the next comma or the end of the line. */
  lemma {:induction false} SplitFrom(s: Bytes, start: nat, e: nat)
    requires start <= e <= |s| && (e == |s| || s[e] == COMMA)
    requires forall i :: start <= i < e ==> s[i] != COMMA
    ensures Split(s[start..]) == [s[start..e]] + (if e == |s| then [] else Split(s[e + 1..]))
    decreases e - start
  {
    if start == e {
      if e < |s| {
        assert s[start..][1..] == s[e + 1..];
      }
    } else {
      SplitFrom(s, start + 1, e);
      assert s[start..][1..] == s[start + 1..];
      assert [s[start]] + s[start + 1..e] == s[start..e];
    }
  }

  /** Skipping the spaces at the start of a field strips them. */
  lemma {:induction false} SkipSpaces(s: Bytes, start: nat, p: nat, e: nat)
    requires start <= p <= e <= |s|
    requires forall i :: start <= i < p ==> s[i] == SPACE
    requires p == e || s[p] != SPACE
    ensures StripSpaces(s[start..e]) == s[p..e]
    decreases p - start
  {
    if start < p {
      SkipSpaces(s, start + 1, p, e);
      assert s[start..e][1..] == s[start + 1..e];
    }
  }

  /**
   * The field at `start` runs to `cur`, the next comma or the end of the line, and its
   * text after the leading spaces starts at p.
   */
  predicate FieldAt(line: Bytes, start: nat, p: nat, cur: nat) {
    start <= p <= cur <= |line| && (cur == |line| || line[cur] == COMMA) &&
    (forall i :: start <= i < p ==> line[i] == SPACE) &&
    (p == cur || line[p] != SPACE) &&
    (forall i :: start <= i < cur ==> line[i] != COMMA)
  }

  /**
   * One field of parse_ships_line from `start`: p is past its leading spaces and cur at the
   * comma that ends it, or at the end of the line.
   */
  method ScanField(line: Bytes, start: nat) returns (p: nat, cur: nat)
    requires start < |line|
    ensures FieldAt(line, start, p, cur)
  {
    cur := start;
    while cur < |line| && line[cur] == SPACE
      invariant start <= cur <= |line|
      invariant forall i :: start <= i < cur ==> line[i] == SPACE
    {
      cur := cur + 1;
    }
    p := cur;
    while cur < |line| && line[cur] != COMMA
      invariant p <= cur <= |line|
      invariant forall i :: start <= i < cur ==> line[i] != COMMA
    {
      cur := cur + 1;
    }
  }

  /** The field ScanField finds is the next field of the split, without its leading spaces. */
  lemma NextField(line: Bytes, start: nat, p: nat, cur: nat)
    requires FieldAt(line, start, p, cur)
    ensures Split(line[start..]) == [line[start..cur]] + Rest(line, cur + 1)
    ensures StripSpaces(line[start..cur]) == line[p..cur]
    ensures start < cur == |line| ==> line[|line| - 1] != COMMA
    ensures cur + 1 == |line| ==> line[|line| - 1] == COMMA
  {
    SplitFrom(line, start, cur);
    SkipSpaces(line, start, p, cur);
  }

  /** The fields still to split from `start`: none once the scan has passed the end. */
  function Rest(line: Bytes, start: nat): seq<Bytes> {
    if start <= |line| then Split(line[start..]) else []
  }

  /** One step of parse_ships_line's loop: the field found joins the fields before it. */
  lemma FieldStep(line: Bytes, raw: seq<Bytes>, start: nat, cur: nat)
    requires start <= cur <= |line| && Split(line) == raw + Rest(line, start)
    requires Split(line[start..]) == [line[start..cur]] + Rest(line, cur + 1)
    ensures Split(line) == (raw + [line[start..cur]]) + Rest(line, cur + 1)
  {
  }

  /**
   * parse_ships_line as the C code runs it on its copy of the line: comments and empty lines
   * are skipped, the fields are split, and fewer than three of them is fatal.
   */
  method ParseShipsLine(line: Bytes) returns (r: ShipsLine)
    requires NoNul(line)
    ensures r == ShipsLineOf(line)
  {
    if line == [] || line[0] == HASH {
      return Skipped;
    }
    var parts := SplitParts(line);
    if |parts| < 3 {
      return Malformed;
    }
    return Team(parts[0], parts[1], parts[2]);
  }

  /**
   * The loop of parse_ships_line: from each field start, skip spaces, scan to the next comma
   * or the end, and continue after it, until three fields are found or the line is used up.
   */
  method SplitParts(line: Bytes) returns (parts: seq<Bytes>)
    requires line != []
    ensures |parts| <= 3
    ensures |parts| < 3 ==> |Fields(line)| == |parts|
    ensures |parts| == 3 ==> |Fields(line)| >= 3
    ensures forall k :: 0 <= k < |parts| ==> parts[k] == StripSpaces(Fields(line)[k])
  {
    var n := |line|;
    parts := [];
    ghost var raw: seq<Bytes> := [];
    var start := 0;
    while start < n && |parts| < 3
      invariant start <= n + 1 && |parts| == |raw| <= 3
      invariant forall k :: 0 <= k < |raw| ==> parts[k] == StripSpaces(raw[k])
      invariant Split(line) == raw + Rest(line, start)
      invariant start == n + 1 ==> line[n - 1] != COMMA
      invariant start == n && raw != [] ==> line[n - 1] == COMMA
      invariant raw == [] ==> start == 0
      decreases n + 1 - start
    {
      var part, next, field := NextPart(line, start, raw);
      parts := parts + [part];
      raw := raw + [field];
      start := next;
    }
    LoopExit(line, raw, start);
  }

  /** One pass of parse_ships_line's loop: the field at `start`, without its leading spaces. */
  method NextPart(line: Bytes, start: nat, ghost raw: seq<Bytes>) returns (part: Bytes, next: nat, ghost field: Bytes)
    requires start < |line| && Split(line) == raw + Rest(line, start)
    ensures start < next <= |line| + 1 && part == StripSpaces(field)
    ensures Split(line) == (raw + [field]) + Rest(line, next)
    ensures next == |line| + 1 ==> line[|line| - 1] != COMMA
    ensures next == |line| ==> line[|line| - 1] == COMMA
  {
    var p, cur := ScanField(line, start);
    NextField(line, start, p, cur);
    FieldStep(line, raw, start, cur);
    part, next, field := line[p..cur], cur + 1, line[start..cur];
  }

  /** When parse_ships_line's loop stops, the fields it split are the line's first fields. */
  lemma LoopExit(line: Bytes, raw: seq<Bytes>, start: nat)
    requires line != [] && start <= |line| + 1 && |raw| <= 3 && (start < |line| ==> |raw| == 3)
    requires Split(line) == raw + Rest(line, start)
    requires start == |line| + 1 ==> line[|line| - 1] != COMMA
    requires start == |line| && raw != [] ==> line[|line| - 1] == COMMA
    requires raw == [] ==> start == 0
    ensures |raw| < 3 ==> |Fields(line)| == |raw|
    ensures |raw| == 3 ==> |Fields(line)| >= 3
    ensures forall k :: 0 <= k < |raw| ==> raw[k] == Fields(line)[k]
  {
    if start == |line| {
      assert line[start..] == [];
    }
  }
}
