/**
 * meta_png_io: the 48-byte metadata record is built in a buffer, its words 1..10 are XOR-ed
 * in place with the xtea8 keystream, and its bits are painted into the rgba image or read
 * back from it; reading ends with the crc check and the team lookup that update the scene.
 */
module SceneMeta {
  import opened Common
  import opened Xtea
  import opened SceneMetaSpec
  import ShipDat
  import Editor

  /** The fields of struct Scene that meta_png_io writes out and restores. */
  class Scene {
    var currentShip: int
    var saveSlot: int
    var targetLongitude: bv32
    var targetLatitude: bv32
    var zoom: bv32
    var targetDx: bv32
    var targetDy: bv32
    var ortho: bool

    function Meta(): SceneMeta
      reads this
    {
      SceneMeta(currentShip, targetLongitude, targetLatitude, zoom, targetDx, targetDy, ortho, saveSlot)
    }
  }

  /** The record bytes after words 1..n-1 are XOR-ed with the keystream of `crc`. */
  ghost predicate KeyedUpTo(now: seq<bv8>, s: Bytes, ks: Keystream, crc: bv32, n: nat)
    requires |now| == |s| == META_BYTES
  {
    forall k :: 0 <= k < META_BYTES ==>
      now[k] == if NAME_AT <= k < 4 * n && k < CRC_AT then s[k] ^ KeyByte(ks, crc, k) else s[k]
  }

  /** The record with word i XOR-ed with `key`, byte by byte. */
  ghost function XoredWord(s: Bytes, i: nat, key: bv32): (r: Bytes)
    ensures |r| == |s|
  {
    XoredAt(s, 4 * i, WordBytes(key))
  }

  /** The record with the bytes from `at` on XOR-ed with those of `b`. */
  ghost function XoredAt(s: Bytes, at: nat, b: Bytes): (r: Bytes)
    ensures |r| == |s|
  {
    seq(|s|, k requires 0 <= k < |s| => if at <= k < at + |b| then s[k] ^ b[k - at] else s[k])
  }

  /** *read ^= genkey[0] on record word i, as the XOR of its four little-endian bytes. */
  method XorWord(meta: array<bv8>, i: nat, key: bv32)
    requires meta.Length == META_BYTES && 1 <= i < 11
    modifies meta
    ensures meta[..] == XoredWord(old(meta[..]), i, key)
  {
    XorBytes(meta, 4 * i, WordBytes(key));
  }

  method XorBytes(meta: array<bv8>, at: nat, b: Bytes)
    requires |b| == 4 && at + 4 <= meta.Length
    modifies meta
    ensures meta[..] == XoredAt(old(meta[..]), at, b)
  {
    XorByte(meta, at, b[0]);
    XorByte(meta, at + 1, b[1]);
    XorByte(meta, at + 2, b[2]);
    XorByte(meta, at + 3, b[3]);
  }

  method XorByte(meta: array<bv8>, k: nat, b: bv8)
    requires k < meta.Length
    modifies meta
    ensures meta[k] == old(meta[k]) ^ b
    ensures forall j :: 0 <= j < meta.Length && j != k ==> meta[j] == old(meta[j])
  {
    meta[k] := meta[k] ^ b;
  }

  /** The keystream word for record word i: xtea8 of (crc, i) through genkey[2]. */
  method KeyWordFor(crc: bv32, i: nat) returns (key: bv32)
    requires i < 11
    ensures key == XteaKeyWord(crc, i)
  {
    var genkey := new Word[2];
    genkey[0] := WordOf(crc);
    genkey[1] := i;
    Xtea8InPlace(genkey, META_KEY);
    key := BitsOf(genkey[0]);
  }

  /** One pass of the keystream loop: record word i XOR-ed with its key word. */
  method KeyStep(meta: array<bv8>, i: nat, ghost s: Bytes, ghost crc: bv32)
    requires meta.Length == META_BYTES == |s| && 1 <= i < 11
    requires crc == WordAt(meta[..], CRC_AT) && KeyedUpTo(meta[..], s, MetaStream(), crc, i)
    modifies meta
    ensures crc == WordAt(meta[..], CRC_AT) && KeyedUpTo(meta[..], s, MetaStream(), crc, i + 1)
  {
    ghost var before := meta[..];
    var stored := ShipDat.ReadWord(meta, CRC_AT);
    var key := KeyWordFor(stored, i);
    XorWord(meta, i, key);
    assert key == MetaStream()(crc, i);
    KeyedStep(before, meta[..], s, MetaStream(), crc, i, key);
  }

  /** XOR-ing word i with its key word extends the keyed prefix and keeps the crc word. */
  lemma KeyedStep(before: Bytes, after: Bytes, s: Bytes, ks: Keystream, crc: bv32, i: nat, key: bv32)
    requires |before| == |s| == META_BYTES && 1 <= i < 11
    requires crc == WordAt(before, CRC_AT) && KeyedUpTo(before, s, ks, crc, i) && key == ks(crc, i)
    requires after == XoredWord(before, i, key)
    ensures crc == WordAt(after, CRC_AT) && KeyedUpTo(after, s, ks, crc, i + 1)
  {
    assert after[CRC_AT..CRC_AT + 4] == before[CRC_AT..CRC_AT + 4];
    WordAtUnchanged(after, before, CRC_AT);
    forall k | 0 <= k < META_BYTES
      ensures after[k] == if NAME_AT <= k < 4 * (i + 1) && k < CRC_AT then s[k] ^ KeyByte(ks, crc, k) else s[k]
    {
      if 4 * i <= k < 4 * i + 4 {
        KeyByteAt(ks, crc, i, k - 4 * i, key);
      }
    }
  }

  /** Keystream byte 4i+j is byte j of word i's key word. */
  lemma KeyByteAt(ks: Keystream, crc: bv32, i: nat, j: nat, key: bv32)
    requires 1 <= i < 11 && j < 4 && key == ks(crc, i)
    ensures KeyByte(ks, crc, 4 * i + j) == WordBytes(key)[j]
  {
    WordOfByte(i, j);
  }

  lemma WordOfByte(i: nat, j: nat)
    requires j < 4
    ensures (4 * i + j) / 4 == i && (4 * i + j) % 4 == j
  {
  }

  /** The keystream loop of meta_png_io over words 1..10, in place. */
  method ApplyKeystream(meta: array<bv8>)
    requires meta.Length == META_BYTES
    modifies meta
    ensures meta[..] == XorLayer(MetaStream(), old(meta[..]))
  {
    ghost var s := meta[..];
    ghost var crc := WordAt(s, CRC_AT);
    var i := 1;
    while i < 11
      invariant 1 <= i <= 11
      invariant crc == WordAt(meta[..], CRC_AT) && KeyedUpTo(meta[..], s, MetaStream(), crc, i)
    {
      KeyStep(meta, i, s, crc);
      i := i + 1;
    }
    assert forall k :: 0 <= k < META_BYTES ==> meta[..][k] == XorLayer(MetaStream(), s)[k];
  }

  /** rgba_offset of bit k: two columns per bit, 108 columns per row, from (138, 152). */
  method PixelOf(k: nat, w: nat) returns (at: nat)
    ensures at == Pos(k, w)
  {
    var off := k * 2;
    at := (TOP + off / COLUMNS) * w + LEFT + off % COLUMNS;
  }

  /** Bits 8i..8i+7 painted: byte i of the record, from its top bit down. */
  method PaintByte(bytes: Bytes, rgba: array<bv32>, w: nat, i: nat, ghost s: seq<bv32>)
    requires |bytes| == META_BYTES && i < META_BYTES && Canvas(s, w) && |s| == rgba.Length
    requires rgba[..] == PaintedUpTo(s, w, bytes, 8 * i)
    modifies rgba
    ensures rgba[..] == PaintedUpTo(s, w, bytes, 8 * i + 8)
  {
    var j := 0;
    while j < 8
      invariant j <= 8 && rgba[..] == PaintedUpTo(s, w, bytes, 8 * i + j)
    {
      PaintBit(bytes, rgba, w, i, j, s);
      j := j + 1;
    }
  }

  /** Bit j of byte i painted at its pixel: value_one when set, value_zero when clear. */
  method PaintBit(bytes: Bytes, rgba: array<bv32>, w: nat, i: nat, j: nat, ghost s: seq<bv32>)
    requires |bytes| == META_BYTES && i < META_BYTES && j < 8 && Canvas(s, w) && |s| == rgba.Length
    requires rgba[..] == PaintedUpTo(s, w, bytes, 8 * i + j)
    modifies rgba
    ensures rgba[..] == PaintedUpTo(s, w, bytes, 8 * i + j + 1)
  {
    var at := PixelOf(i * 8 + j, w);
    PosInside(8 * i + j, w);
    var ch: bv32 := if bytes[i] & MASKS[j] != 0 then 0x0F else 0xFF;
    var colour := 0xFF00_0000 | ch | (ch << 8) | (ch << 16);
    assert colour == Colour(Bit(bytes, 8 * i + j)) by {
      WordOfBit(i, j);
    }
    PaintStep(s, w, bytes, 8 * i + j);
    rgba[at] := colour;
  }

  /** Write mode of the bit loop: every bit of the record painted at its pixel. */
  method PaintBits(bytes: Bytes, rgba: array<bv32>, w: nat)
    requires |bytes| == META_BYTES && Canvas(rgba[..], w)
    modifies rgba
    ensures rgba[..] == Painted(old(rgba[..]), w, bytes)
  {
    ghost var s := rgba[..];
    PaintStart(s, w, bytes);
    var i := 0;
    while i < META_BYTES
      invariant i <= META_BYTES && rgba[..] == PaintedUpTo(s, w, bytes, 8 * i)
    {
      PaintByte(bytes, rgba, w, i, s);
      i := i + 1;
    }
  }

  /**
   * Bits 8i..8i+7 read into the zero byte meta[i]. value_one is taken from the pixel of
   * bit 4 of byte 0 just before that bit is compared.
   */
  method ReadByte(meta: array<bv8>, rgba: array<bv32>, w: nat, i: nat, valueOne: bv8) returns (valueOne': bv8)
    requires meta.Length == META_BYTES && i < META_BYTES && Canvas(rgba[..], w) && meta[i] == 0
    requires valueOne == One(rgba[..], w, if i == 0 then 0 else 8)
    modifies meta
    ensures valueOne' == One(rgba[..], w, 8)
    ensures meta[i] == ByteRead(rgba[..], w, i, 8)
    ensures forall k :: 0 <= k < META_BYTES && k != i ==> meta[k] == old(meta[k])
  {
    ghost var pixels := rgba[..];
    valueOne' := valueOne;
    var j := 0;
    while j < 8
      invariant j <= 8 && meta[i] == ByteRead(pixels, w, i, j)
      invariant valueOne' == One(pixels, w, if 8 * i + j <= 4 then 0 else 8)
      invariant forall k :: 0 <= k < META_BYTES && k != i ==> meta[k] == old(meta[k])
    {
      valueOne' := ReadBit(meta, rgba, w, i, j, valueOne');
      j := j + 1;
    }
  }

  /** Bit j of byte i: set in meta[i] when its pixel's low byte equals value_one. */
  method ReadBit(meta: array<bv8>, rgba: array<bv32>, w: nat, i: nat, j: nat, valueOne: bv8)
    returns (valueOne': bv8)
    requires meta.Length == META_BYTES && i < META_BYTES && j < 8 && Canvas(rgba[..], w)
    requires meta[i] == ByteRead(rgba[..], w, i, j)
    requires valueOne == One(rgba[..], w, if 8 * i + j <= 4 then 0 else 8)
    modifies meta
    ensures meta[i] == ByteRead(rgba[..], w, i, j + 1)
    ensures valueOne' == One(rgba[..], w, if 8 * i + j + 1 <= 4 then 0 else 8)
    ensures forall k :: 0 <= k < META_BYTES && k != i ==> meta[k] == old(meta[k])
  {
    ghost var pixels := rgba[..];
    var k := 8 * i + j;
    var at := PixelOf(k, w);
    PosInside(k, w);
    var colour := rgba[at];
    valueOne' := valueOne;
    if i == 0 && j == 4 {
      valueOne' := Low(colour);
    }
    assert valueOne' == One(pixels, w, k);
    assert BitRead(pixels, w, k) == (Low(colour) == valueOne');
    ByteReadStep(pixels, w, i, j);
    if Low(colour) == valueOne' {
      meta[i] := meta[i] | MASKS[j];
    }
  }

  lemma ByteReadStep(pixels: seq<bv32>, w: nat, i: nat, j: nat)
    requires Canvas(pixels, w) && i < META_BYTES && j < 8
    ensures ByteRead(pixels, w, i, j + 1) == OrBit(ByteRead(pixels, w, i, j), BitRead(pixels, w, 8 * i + j), j)
  {
  }

  /** Read mode of the bit loop: the record assembled from the canvas into a zeroed buffer. */
  method ReadBits(rgba: array<bv32>, w: nat) returns (meta: array<bv8>)
    requires Canvas(rgba[..], w)
    ensures fresh(meta) && meta[..] == Decoded(rgba[..], w)
  {
    meta := new bv8[META_BYTES](_ => 0);
    var valueOne: bv8 := 0x0F;
    var i := 0;
    while i < META_BYTES
      invariant i <= META_BYTES && fresh(meta) && meta.Length == META_BYTES
      invariant valueOne == One(rgba[..], w, if i == 0 then 0 else 8)
      invariant forall k :: 0 <= k < i ==> meta[k] == ByteRead(rgba[..], w, k, 8)
      invariant forall k :: i <= k < META_BYTES ==> meta[k] == 0
    {
      valueOne := ReadByte(meta, rgba, w, i, valueOne);
      i := i + 1;
    }
    assert forall k :: 0 <= k < META_BYTES ==> meta[..][k] == Decoded(rgba[..], w)[k];
  }

  /** The team loop: the index of the first team whose name matches, or |teams|. */
  method FindTeam(name: Bytes, teams: seq<Bytes>) returns (t: nat)
    requires NoNul(name) && TeamNames(teams)
    ensures t <= |teams|
    ensures FirstTeam(name, teams) == if t < |teams| then Some(t) else None
  {
    t := 0;
    while t < |teams|
      invariant t <= |teams|
      invariant forall u :: 0 <= u < t ==> !Editor.MatchTeamName(name, teams[u])
    {
      if Editor.MatchTeamName(name, teams[t]) {
        break;
      }
      t := t + 1;
    }
  }

  /**
   * Write mode: the record is packed from the scene with its crc, keyed in place and painted
   * into the canvas. The scene is left as it was.
   */
  method MetaWrite(scene: Scene, rgba: array<bv32>, w: nat, teams: seq<Bytes>, crc32: Crc32)
    requires Canvas(rgba[..], w) && 0 <= scene.currentShip < |teams|
    modifies rgba
    ensures rgba[..] == Painted(old(rgba[..]), w, MetaBytes(MetaStream(), scene.Meta(), teams, crc32))
  {
    var plain := Plain(scene.Meta(), teams[scene.currentShip]);
    var crc := crc32(CRC_KEY, plain);
    var meta := new bv8[META_BYTES](k requires 0 <= k < META_BYTES =>
      if k < CRC_AT then plain[k] else WordBytes(crc)[k - CRC_AT]);
    assert meta[..] == Packed(scene.Meta(), teams[scene.currentShip], crc32);
    ApplyKeystream(meta);
    PaintBits(meta[..], rgba, w);
  }

  /**
   * Read mode: the record is read from the canvas, the keystream taken off, the crc checked
   * and the team looked up. Only a record that passes both updates the scene, and then every
   * field it carries.
   */
  method MetaRead(scene: Scene, rgba: array<bv32>, w: nat, teams: seq<Bytes>, crc32: Crc32) returns (ok: bool)
    requires Canvas(rgba[..], w) && TeamNames(teams)
    modifies scene
    ensures ok == ReadMeta(MetaStream(), rgba[..], w, teams, crc32).Restored?
    ensures ok ==> scene.Meta() == ReadMeta(MetaStream(), rgba[..], w, teams, crc32).meta
    ensures !ok ==> unchanged(scene)
  {
    var meta := Unlayered(rgba, w);
    var check := crc32(CRC_KEY, meta[..CRC_AT]);
    var stored := ShipDat.ReadWord(meta, CRC_AT);
    if check != stored {
      return false;
    }
    var t := FindTeam(CStringAt(meta[..], NAME_AT), teams);
    if t == |teams| {
      return false;
    }
    RestoreFields(scene, meta, t);
    return true;
  }

  /** The bit loop in read mode followed by the keystream: the decrypted record. */
  method Unlayered(rgba: array<bv32>, w: nat) returns (meta: array<bv8>)
    requires Canvas(rgba[..], w)
    ensures fresh(meta) && meta[..] == XorLayer(MetaStream(), Decoded(rgba[..], w))
  {
    meta := ReadBits(rgba, w);
    ApplyKeystream(meta);
  }

  /** The field assignments of a successful read. */
  method RestoreFields(scene: Scene, meta: array<bv8>, t: nat)
    requires meta.Length == META_BYTES
    modifies scene
    ensures scene.Meta() == Restore(meta[..], t)
  {
    scene.currentShip := t;
    scene.targetLongitude := ShipDat.ReadWord(meta, LONGITUDE_AT);
    scene.targetLatitude := ShipDat.ReadWord(meta, LATITUDE_AT);
    scene.zoom := ShipDat.ReadWord(meta, ZOOM_AT);
    scene.targetDx := ShipDat.ReadWord(meta, DX_AT);
    scene.targetDy := ShipDat.ReadWord(meta, DY_AT);
    scene.ortho := meta[ORTHO_AT] != 0;
    scene.saveSlot := ByteValue(meta[SLOT_AT]);
  }

  /**
   * meta_png_io: writes the scene's record into the canvas, or restores the scene from the
   * canvas; the result says whether a write happened or a read succeeded.
   */
  method MetaPngIo(scene: Scene, rgba: array<bv32>, w: nat, writemode: bool, teams: seq<Bytes>, crc32: Crc32)
    returns (ok: bool)
    requires Canvas(rgba[..], w) && TeamNames(teams)
    requires writemode ==> 0 <= scene.currentShip < |teams|
    modifies scene, rgba
    ensures writemode ==> ok && unchanged(scene)
    ensures writemode ==>
      rgba[..] == Painted(old(rgba[..]), w, MetaBytes(MetaStream(), old(scene.Meta()), teams, crc32))
    ensures !writemode ==> unchanged(rgba)
    ensures !writemode ==> ok == ReadMeta(MetaStream(), old(rgba[..]), w, teams, crc32).Restored?
    ensures !writemode && ok ==> scene.Meta() == ReadMeta(MetaStream(), old(rgba[..]), w, teams, crc32).meta
    ensures !writemode && !ok ==> unchanged(scene)
  {
    if writemode {
      MetaWrite(scene, rgba, w, teams, crc32);
      ok := true;
    } else {
      ok := MetaRead(scene, rgba, w, teams, crc32);
    }
  }

  /**
   * Saving a screenshot and loading it back with the same team table restores the scene: the
   * ship becomes the first team with the same name, and the save slot its low byte.
   */
  method SaveThenLoad(scene: Scene, rgba: array<bv32>, w: nat, teams: seq<Bytes>, crc32: Crc32)
    returns (ok: bool)
    requires Canvas(rgba[..], w) && TeamNames(teams)
    requires 0 <= scene.currentShip < |teams| && |teams[scene.currentShip]| < NAME_BYTES
    modifies scene, rgba
    ensures ok && FirstTeam(old(teams[scene.currentShip]), teams).Some?
    ensures scene.Meta() == old(scene.Meta()).(ship := FirstTeam(old(teams[scene.currentShip]), teams).value,
                                               saveSlot := old(scene.saveSlot) % 256)
  {
    ghost var m := scene.Meta();
    ghost var s := rgba[..];
    var written := MetaPngIo(scene, rgba, w, true, teams, crc32);
    WriteThenRead(MetaStream(), s, w, m, teams, crc32);
    ok := MetaPngIo(scene, rgba, w, false, teams, crc32);
  }
}
