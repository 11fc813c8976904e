/**
 * The scene metadata that meta_png_io hides in a saved screenshot, as values: the 48-byte
 * struct PackedMeta, the keystream layer laid over its words 1..10, the pixels that carry
 * its 384 bits, and what reading those pixels back restores. The floats of the scene are
 * kept as their 32-bit patterns; zlib's crc32 is a parameter.
 */
module SceneMetaSpec {
  import opened Common
  import opened Xtea
  import Editor

  /** sizeof(struct PackedMeta) and the offsets of its fields. */
  const META_BYTES: nat := 48
  const NAME_AT: nat := 4
  const NAME_BYTES: nat := 16
  const LONGITUDE_AT: nat := 20
  const LATITUDE_AT: nat := 24
  const ZOOM_AT: nat := 28
  const DX_AT: nat := 32
  const DY_AT: nat := 36
  const ORTHO_AT: nat := 40
  const SLOT_AT: nat := 41
  const CRC_AT: nat := 44

  const SYNC: bv32 := 0xb4cc_f00f
  const CRC_KEY: bv32 := 0x3F70_6874

  /** The key "SceneMetaPixels!" as the four little-endian words xtea8 reads. */
  const META_KEY: Key := Key(0x6E65_6353, 0x7465_4D65, 0x7869_5061, 0x2173_6C65)

  /** zlib's crc32(seed, bytes). */
  type Crc32 = (bv32, Bytes) -> bv32

  /** The fields of struct Scene the metadata carries; floats as their bits. */
  datatype SceneMeta = SceneMeta(ship: int, longitude: bv32, latitude: bv32, zoom: bv32,
                                 dx: bv32, dy: bv32, ortho: bool, saveSlot: int)

  /** Team names are C strings. */
  predicate TeamNames(teams: seq<Bytes>) {
    forall t :: 0 <= t < |teams| ==> NoNul(teams[t])
  }

  // ---------------------------------------------------------------------------------------
  // Packing

  /** strncpy(team_name, name, 16) into a zeroed field. */
  function NameField(name: Bytes): (r: Bytes)
    ensures |r| == NAME_BYTES
  {
    if |name| >= NAME_BYTES then name[..NAME_BYTES] else name + seq(NAME_BYTES - |name|, _ => 0)
  }

  /** The uint8_t a save slot is stored as: its value modulo 256. */
  function SlotByte(slot: int): (r: bv8)
    ensures ByteValue(r) == slot % 256
  {
    var v: nat := slot % 256;
    ByteOfValue(v);
    v as bv8
  }

  /** The first 44 bytes of the record, over which the crc is taken. */
  function Plain(m: SceneMeta, name: Bytes): (r: Bytes)
    ensures |r| == CRC_AT
  {
    WordBytes(SYNC) + NameField(name) + Floats(m) + [if m.ortho then 1 else 0, SlotByte(m.saveSlot), 0, 0]
  }

  /** The whole record before the keystream: the plain part and its crc. */
  function Packed(m: SceneMeta, name: Bytes, crc32: Crc32): (r: Bytes)
    ensures |r| == META_BYTES
  {
    var p := Plain(m, name);
    p + WordBytes(crc32(CRC_KEY, p))
  }

  // ---------------------------------------------------------------------------------------
  // The keystream layer

  /**
   * A keystream gives the key word for record word i under a crc. The layer below is its own
   * inverse for any keystream; meta_png_io uses MetaStream.
   */
  type Keystream = (bv32, Word) -> bv32

  /** The key word for record word i: xtea8 of (crc, i) under META_KEY, first half. */
  function XteaKeyWord(crc: bv32, i: Word): bv32 {
    BitsOf(Xtea8(META_KEY, Block(WordOf(crc), i)).v0)
  }

  function MetaStream(): Keystream {
    (crc: bv32, i: Word) => XteaKeyWord(crc, i)
  }

  /** The keystream byte laid over record byte k (4 <= k < 44): a byte of its word's key. */
  function KeyByte(ks: Keystream, crc: bv32, k: nat): bv8
    requires k < CRC_AT
  {
    WordBytes(ks(crc, k / 4))[k % 4]
  }

  /**
   * Words 1..10 XOR-ed with the keystream of the crc the record carries in word 11. The
   * sync word and the crc word are left as they are.
   */
  function XorLayer(ks: Keystream, s: Bytes): (r: Bytes)
    requires |s| == META_BYTES
    ensures |r| == META_BYTES && r[..NAME_AT] == s[..NAME_AT] && r[CRC_AT..] == s[CRC_AT..]
  {
    var crc := WordAt(s, CRC_AT);
    seq(META_BYTES, k requires 0 <= k < META_BYTES =>
      if NAME_AT <= k < CRC_AT then s[k] ^ KeyByte(ks, crc, k) else s[k])
  }

  /** The layer is its own inverse: it does not change the crc that keys it. */
  lemma XorLayerInvolution(ks: Keystream, s: Bytes)
    requires |s| == META_BYTES
    ensures XorLayer(ks, XorLayer(ks, s)) == s
  {
    var once := XorLayer(ks, s);
    assert once[CRC_AT..CRC_AT + 4] == s[CRC_AT..CRC_AT + 4];
    WordAtUnchanged(once, s, CRC_AT);
    forall k | 0 <= k < META_BYTES
      ensures XorLayer(ks, once)[k] == s[k]
    {
      if NAME_AT <= k < CRC_AT {
        XorTwice(s[k], KeyByte(ks, WordAt(s, CRC_AT), k));
      }
    }
  }

  lemma XorTwice(x: bv8, y: bv8)
    ensures (x ^ y) ^ y == x
  {
  }

  // ---------------------------------------------------------------------------------------
  // The pixels that carry the bits

  /** 1 << (7 - j): bits are taken from the most significant down. */
  const MASKS: seq<bv8> := [0x80, 0x40, 0x20, 0x10, 0x08, 0x04, 0x02, 0x01]

  const BITS: nat := 384
  const COLUMNS: nat := 108

  /** The first row (128 + 6 + 12 + 6) and first column (128 + 10) of the bit area. */
  const TOP: nat := 152
  const LEFT: nat := 138

  /** Bit k of the record: bit j = k % 8, counted from the top, of byte k / 8. */
  function Bit(bytes: Bytes, k: nat): bool
    requires k < 8 * |bytes|
  {
    HasBit(bytes[k / 8], k % 8)
  }

  /** buf[i] & (1 << (7 - j)). */
  predicate HasBit(x: bv8, j: nat)
    requires j < 8
  {
    x & MASKS[j] != 0
  }

  /** acc |= (1 << (7 - j)) when the bit is set. */
  function OrBit(acc: bv8, bit: bool, j: nat): bv8
    requires j < 8
  {
    if bit then acc | MASKS[j] else acc
  }

  /** The pixel of bit k: offset 2k into rows of 108 columns at (TOP, LEFT). */
  function Pos(k: nat, w: nat): nat {
    (TOP + (2 * k) / COLUMNS) * w + LEFT + (2 * k) % COLUMNS
  }

  /** A canvas of width w wide and tall enough for the bit area. */
  predicate Canvas(pixels: seq<bv32>, w: nat) {
    LEFT + COLUMNS <= w && (TOP + 8) * w <= |pixels|
  }

  /** The bit area lies inside the canvas, in rows TOP..TOP+7 and columns LEFT..LEFT+107. */
  lemma PosInside(k: nat, w: nat)
    requires k < BITS && LEFT + COLUMNS <= w
    ensures Pos(k, w) / w == TOP + (2 * k) / COLUMNS < TOP + 8
    ensures Pos(k, w) % w == LEFT + (2 * k) % COLUMNS
    ensures Pos(k, w) < (TOP + 8) * w
  {
    var row := TOP + (2 * k) / COLUMNS;
    Editor.DivIn(Pos(k, w), row, w);
    Editor.MulMono(row + 1, TOP + 8, w);
  }

  /** Which bit, if any, pixel p carries. */
  function SlotOf(p: nat, w: nat): (r: Option<nat>)
    requires LEFT + COLUMNS <= w
    ensures r.Some? ==> r.value < BITS && Pos(r.value, w) == p
  {
    var row := p / w;
    var col := p % w;
    if TOP <= row < TOP + 8 && LEFT <= col < LEFT + COLUMNS then
      var off := (row - TOP) * COLUMNS + (col - LEFT);
      if off % 2 == 0 && off < 2 * BITS then
        assert off / COLUMNS == row - TOP && off % COLUMNS == col - LEFT;
        Some(off / 2)
      else None
    else None
  }

  /** Every bit has its own pixel: SlotOf inverts Pos. */
  lemma SlotOfPos(k: nat, w: nat)
    requires k < BITS && LEFT + COLUMNS <= w
    ensures SlotOf(Pos(k, w), w) == Some(k)
  {
    PosInside(k, w);
    var off := 2 * k;
    assert off == (off / COLUMNS) * COLUMNS + off % COLUMNS;
  }

  /** The 384 bit positions are pairwise distinct. */
  lemma PositionsDistinct(k1: nat, k2: nat, w: nat)
    requires k1 < BITS && k2 < BITS && LEFT + COLUMNS <= w && k1 != k2
    ensures Pos(k1, w) != Pos(k2, w)
  {
    SlotOfPos(k1, w);
    SlotOfPos(k2, w);
  }

  /** On the 256x256 screenshot every bit position is inside the image. */
  lemma PositionsInScreenshot(k: nat)
    requires k < BITS
    ensures Pos(k, 256) < 256 * 256
  {
    PosInside(k, 256);
  }

  /** The opaque grey a bit is painted as: channel 0x0F for a 1, 0xFF for a 0. */
  function Colour(bit: bool): bv32 {
    var ch: bv32 := if bit then 0x0F else 0xFF;
    0xFF00_0000 | ch | (ch << 8) | (ch << 16)
  }

  /** color & 0xFF: the channel the reader compares. */
  function Low(c: bv32): bv8 {
    (c & 0xFF) as bv8
  }

  lemma LowColour(bit: bool)
    ensures Low(Colour(bit)) == if bit then 0x0F else 0xFF
  {
  }

  /** The canvas after bits 0..n-1 of the record are painted. */
  function PaintedUpTo(s: seq<bv32>, w: nat, bytes: Bytes, n: nat): (r: seq<bv32>)
    requires LEFT + COLUMNS <= w && |bytes| == META_BYTES
    ensures |r| == |s|
  {
    seq(|s|, p requires 0 <= p < |s| =>
      var k := SlotOf(p, w);
      if k.Some? && k.value < n then Colour(Bit(bytes, k.value)) else s[p])
  }

  /** The canvas with every bit of the record painted. */
  function Painted(s: seq<bv32>, w: nat, bytes: Bytes): (r: seq<bv32>)
    requires LEFT + COLUMNS <= w && |bytes| == META_BYTES
    ensures |r| == |s|
  {
    PaintedUpTo(s, w, bytes, BITS)
  }

  /** Painting bit n is one pixel update. */
  lemma PaintStep(s: seq<bv32>, w: nat, bytes: Bytes, n: nat)
    requires LEFT + COLUMNS <= w && |bytes| == META_BYTES && n < BITS && Pos(n, w) < |s|
    ensures PaintedUpTo(s, w, bytes, n + 1) == PaintedUpTo(s, w, bytes, n)[Pos(n, w) := Colour(Bit(bytes, n))]
  {
    SlotOfPos(n, w);
  }

  lemma PaintStart(s: seq<bv32>, w: nat, bytes: Bytes)
    requires LEFT + COLUMNS <= w && |bytes| == META_BYTES
    ensures PaintedUpTo(s, w, bytes, 0) == s
  {
  }

  /**
   * The painted canvas carries bit k of the record at Pos(k) and keeps every pixel that
   * is not a bit position.
   */
  lemma PaintedCarries(s: seq<bv32>, w: nat, bytes: Bytes)
    requires Canvas(s, w) && |bytes| == META_BYTES
    ensures Carries(Painted(s, w, bytes), w, bytes)
    ensures forall p :: 0 <= p < |s| && SlotOf(p, w).None? ==> Painted(s, w, bytes)[p] == s[p]
  {
    forall k | 0 <= k < BITS
      ensures Pos(k, w) < |s| && Painted(s, w, bytes)[Pos(k, w)] == Colour(Bit(bytes, k))
    {
      PosInside(k, w);
      SlotOfPos(k, w);
    }
  }

  // ---------------------------------------------------------------------------------------
  // Reading the bits back

  /**
   * value_one when bit k is compared: 0x0F until the reader meets bit 4 of byte 0, then the
   * channel found there (so bit 4 itself always reads as set).
   */
  function One(pixels: seq<bv32>, w: nat, k: nat): bv8
    requires Canvas(pixels, w)
  {
    if k < 4 then 0x0F
    else
      PosInside(4, w);
      Low(pixels[Pos(4, w)])
  }

  /** Bit k as read: the pixel's channel equals value_one. */
  function BitRead(pixels: seq<bv32>, w: nat, k: nat): bool
    requires Canvas(pixels, w) && k < BITS
  {
    PosInside(k, w);
    Low(pixels[Pos(k, w)]) == One(pixels, w, k)
  }

  /** Byte i of the record after bits 0..j-1 of it are read into a zero byte. */
  function ByteRead(pixels: seq<bv32>, w: nat, i: nat, j: nat): bv8
    requires Canvas(pixels, w) && i < META_BYTES && j <= 8
  {
    if j == 0 then 0
    else OrBit(ByteRead(pixels, w, i, j - 1), BitRead(pixels, w, 8 * i + j - 1), j - 1)
  }

  /** The record the reader assembles from the canvas. */
  function Decoded(pixels: seq<bv32>, w: nat): (r: Bytes)
    requires Canvas(pixels, w)
    ensures |r| == META_BYTES
  {
    seq(META_BYTES, i requires 0 <= i < META_BYTES => ByteRead(pixels, w, i, 8))
  }

  /** The bits of x above position j, by the prefix of MASKS. */
  const PREFIXES: seq<bv8> := [0x00, 0x80, 0xC0, 0xE0, 0xF0, 0xF8, 0xFC, 0xFE, 0xFF]

  /** The bits of x above position j. */
  function Prefix(x: bv8, j: nat): bv8
    requires j <= 8
  {
    x & PREFIXES[j]
  }

  lemma PrefixAll(x: bv8)
    ensures Prefix(x, 8) == x
  {
  }

  lemma PrefixStep(x: bv8, j: nat)
    requires 0 < j <= 8
    ensures Prefix(x, j) == OrBit(Prefix(x, j - 1), HasBit(x, j - 1), j - 1)
  {
    MaskStep(x, MASKS[j - 1], PREFIXES[j - 1]);
  }

  /** Adding the next bit m below the prefix p of x. */
  lemma MaskStep(x: bv8, m: bv8, p: bv8)
    requires m != 0 && m & (m - 1) == 0 && p & m == 0
    ensures (if x & m != 0 then (x & p) | m else x & p) == x & (p | m)
  {
  }

  /** A canvas that carries the record's bits at their positions. */
  predicate Carries(pixels: seq<bv32>, w: nat, bytes: Bytes)
    requires Canvas(pixels, w) && |bytes| == META_BYTES
  {
    forall k :: 0 <= k < BITS ==> Pos(k, w) < |pixels| && pixels[Pos(k, w)] == Colour(Bit(bytes, k))
  }

  /** With bit 4 of byte 0 set, every bit is read as it was painted. */
  lemma BitReadCarried(pixels: seq<bv32>, w: nat, bytes: Bytes, k: nat)
    requires Canvas(pixels, w) && |bytes| == META_BYTES && Carries(pixels, w, bytes)
    requires Bit(bytes, 4) && k < BITS
    ensures BitRead(pixels, w, k) == Bit(bytes, k)
  {
    LowColour(Bit(bytes, k));
    LowColour(Bit(bytes, 4));
  }

  lemma {:induction false} ByteReadCarried(pixels: seq<bv32>, w: nat, bytes: Bytes, i: nat, j: nat)
    requires Canvas(pixels, w) && |bytes| == META_BYTES && Carries(pixels, w, bytes)
    requires Bit(bytes, 4) && i < META_BYTES && j <= 8
    ensures ByteRead(pixels, w, i, j) == Prefix(bytes[i], j)
  {
    if j > 0 {
      var k := 8 * i + j - 1;
      WordOfBit(i, j - 1);
      ByteReadCarried(pixels, w, bytes, i, j - 1);
      BitReadCarried(pixels, w, bytes, k);
      assert BitRead(pixels, w, k) == HasBit(bytes[i], j - 1);
      PrefixStep(bytes[i], j);
    }
  }

  lemma WordOfBit(i: nat, j: nat)
    requires j < 8
    ensures (8 * i + j) / 8 == i && (8 * i + j) % 8 == j
  {
  }

  /** Reading a canvas that carries a record whose bit 4 of byte 0 is set gives the record back. */
  lemma ReadCarried(pixels: seq<bv32>, w: nat, bytes: Bytes)
    requires Canvas(pixels, w) && |bytes| == META_BYTES && Carries(pixels, w, bytes)
    requires Bit(bytes, 4)
    ensures Decoded(pixels, w) == bytes
  {
    forall i | 0 <= i < META_BYTES
      ensures Decoded(pixels, w)[i] == bytes[i]
    {
      ByteReadCarried(pixels, w, bytes, i, 8);
      PrefixAll(bytes[i]);
    }
  }

  // ---------------------------------------------------------------------------------------
  // The record as written and as read

  /** The first team, in table order, whose name matches the stored name. */
  function FirstTeam(name: Bytes, teams: seq<Bytes>): (r: Option<nat>)
    requires NoNul(name) && TeamNames(teams)
    ensures r.Some? ==> r.value < |teams| && Editor.MatchTeamName(name, teams[r.value])
    ensures r.Some? ==> forall t :: 0 <= t < r.value ==> !Editor.MatchTeamName(name, teams[t])
    ensures r.None? ==> forall t :: 0 <= t < |teams| ==> !Editor.MatchTeamName(name, teams[t])
  {
    if teams == [] then None
    else if Editor.MatchTeamName(name, teams[0]) then Some(0)
    else
      var rest := FirstTeam(name, teams[1..]);
      if rest.Some? then Some(rest.value + 1) else None
  }

  /** The bytes meta_png_io paints for a scene whose ship is teams[m.ship]. */
  function MetaBytes(ks: Keystream, m: SceneMeta, teams: seq<Bytes>, crc32: Crc32): (r: Bytes)
    requires 0 <= m.ship < |teams|
    ensures |r| == META_BYTES
  {
    XorLayer(ks, Packed(m, teams[m.ship], crc32))
  }

  /** What reading the canvas gives: refused, a team not found, or the restored fields. */
  datatype Outcome = Rejected | UnknownTeam | Restored(meta: SceneMeta)

  /** The scene fields of a decrypted record, with the ship found for its team name. */
  function Restore(plain: Bytes, ship: nat): SceneMeta
    requires |plain| == META_BYTES
  {
    SceneMeta(ship, WordAt(plain, LONGITUDE_AT), WordAt(plain, LATITUDE_AT), WordAt(plain, ZOOM_AT),
              WordAt(plain, DX_AT), WordAt(plain, DY_AT), plain[ORTHO_AT] != 0, ByteValue(plain[SLOT_AT]))
  }

  /**
   * meta_png_io in read mode: decode the record, undo the keystream, check the crc of the
   * first 44 bytes against the stored one, then look the team name up.
   */
  function ReadMeta(ks: Keystream, pixels: seq<bv32>, w: nat, teams: seq<Bytes>, crc32: Crc32): Outcome
    requires Canvas(pixels, w) && TeamNames(teams)
  {
    var plain := XorLayer(ks, Decoded(pixels, w));
    if crc32(CRC_KEY, plain[..CRC_AT]) != WordAt(plain, CRC_AT) then Rejected
    else
      var t := FirstTeam(CStringAt(plain, NAME_AT), teams);
      if t.None? then UnknownTeam else Restored(Restore(plain, t.value))
  }

  /** A name shorter than the field reads back as itself from the packed record. */
  lemma NameReadsBack(s: Bytes, name: Bytes)
    requires NoNul(name) && |name| < NAME_BYTES
    requires NAME_AT + NAME_BYTES <= |s| && s[NAME_AT..NAME_AT + NAME_BYTES] == NameField(name)
    ensures CStringAt(s, NAME_AT) == name
  {
    var end := NAME_AT + |name|;
    assert s[end] == NameField(name)[|name|] == 0;
    forall i | NAME_AT <= i < end
      ensures s[i] == name[i - NAME_AT] && s[i] != 0
    {
      assert s[i] == NameField(name)[i - NAME_AT] == name[i - NAME_AT];
    }
    NulFromIs(s, NAME_AT, end);
    assert s[NAME_AT..end] == name;
  }

  /** Four bytes inside a part of s that hold the encoding of w read back as w. */
  lemma WordInPart(s: Bytes, off: nat, part: Bytes, at: nat, w: bv32)
    requires off + |part| <= |s| && s[off..off + |part|] == part
    requires at + 4 <= |part| && part[at..at + 4] == WordBytes(w)
    ensures WordAt(s, off + at) == w
  {
    var t := s[off..off + |part|];
    assert s[off + at] == t[at] && s[off + at + 1] == t[at + 1];
    assert s[off + at + 2] == t[at + 2] && s[off + at + 3] == t[at + 3];
    assert s[off + at..off + at + 4] == part[at..at + 4];
    WordAtBytes(s, off + at, w);
  }

  /** The five float words, in the order of the struct. */
  function Floats(m: SceneMeta): (r: Bytes)
    ensures |r| == 20
  {
    WordBytes(m.longitude) + WordBytes(m.latitude) + WordBytes(m.zoom) + WordBytes(m.dx) + WordBytes(m.dy)
  }

  lemma FloatsHold(m: SceneMeta)
    ensures Floats(m)[0..4] == WordBytes(m.longitude) && Floats(m)[4..8] == WordBytes(m.latitude)
    ensures Floats(m)[8..12] == WordBytes(m.zoom) && Floats(m)[12..16] == WordBytes(m.dx)
    ensures Floats(m)[16..20] == WordBytes(m.dy)
  {
  }

  /** The packed record in its three parts, then the crc. */
  lemma PackedParts(m: SceneMeta, name: Bytes, crc32: Crc32)
    ensures var s := Packed(m, name, crc32);
      s[..CRC_AT] == Plain(m, name) && s[CRC_AT..] == WordBytes(crc32(CRC_KEY, Plain(m, name))) &&
      s[..4] == WordBytes(SYNC) && s[NAME_AT..NAME_AT + NAME_BYTES] == NameField(name) &&
      s[LONGITUDE_AT..LONGITUDE_AT + 20] == Floats(m) &&
      s[ORTHO_AT] == (if m.ortho then 1 else 0) && s[SLOT_AT] == SlotByte(m.saveSlot)
  {
    var p := Plain(m, name);
    assert p == WordBytes(SYNC) + NameField(name) + Floats(m) + [if m.ortho then 1 else 0, SlotByte(m.saveSlot), 0, 0];
  }

  /** The fields of the packed record are where Restore reads them, and the crc is that of the rest. */
  lemma PackedFields(m: SceneMeta, name: Bytes, crc32: Crc32)
    ensures var s := Packed(m, name, crc32);
      s[..CRC_AT] == Plain(m, name) &&
      WordAt(s, CRC_AT) == crc32(CRC_KEY, Plain(m, name)) &&
      s[0] == 0x0F && s[NAME_AT..NAME_AT + NAME_BYTES] == NameField(name) &&
      Restore(s, 0) == SceneMeta(0, m.longitude, m.latitude, m.zoom, m.dx, m.dy, m.ortho, m.saveSlot % 256)
  {
    var s := Packed(m, name, crc32);
    PackedParts(m, name, crc32);
    WordAtBytes(s, CRC_AT, crc32(CRC_KEY, Plain(m, name)));
    PackedRestores(m, s);
    assert s[0] == WordBytes(SYNC)[0];
  }

  /** Restore reads every field of the scene back from the packed record. */
  lemma PackedRestores(m: SceneMeta, s: Bytes)
    requires |s| == META_BYTES && s[LONGITUDE_AT..LONGITUDE_AT + 20] == Floats(m)
    requires s[ORTHO_AT] == (if m.ortho then 1 else 0) && s[SLOT_AT] == SlotByte(m.saveSlot)
    ensures Restore(s, 0) == SceneMeta(0, m.longitude, m.latitude, m.zoom, m.dx, m.dy, m.ortho, m.saveSlot % 256)
  {
    FloatsHold(m);
    WordInPart(s, LONGITUDE_AT, Floats(m), 0, m.longitude);
    WordInPart(s, LONGITUDE_AT, Floats(m), 4, m.latitude);
    WordInPart(s, LONGITUDE_AT, Floats(m), 8, m.zoom);
    WordInPart(s, LONGITUDE_AT, Floats(m), 12, m.dx);
    WordInPart(s, LONGITUDE_AT, Floats(m), 16, m.dy);
  }

  /**
   * Writing then reading restores the scene: the crc check passes, every field comes back
   * (the save slot modulo 256), and the ship is the first team whose name matches the
   * written one, which is never after the written ship. The team name must fit the
   * 16-byte field with its NUL.
   */
  lemma WriteThenRead(ks: Keystream, s: seq<bv32>, w: nat, m: SceneMeta, teams: seq<Bytes>, crc32: Crc32)
    requires Canvas(s, w) && TeamNames(teams) && 0 <= m.ship < |teams| && |teams[m.ship]| < NAME_BYTES
    ensures var t := FirstTeam(teams[m.ship], teams);
      t.Some? && t.value <= m.ship &&
      ReadMeta(ks, Painted(s, w, MetaBytes(ks, m, teams, crc32)), w, teams, crc32) ==
        Restored(m.(ship := t.value, saveSlot := m.saveSlot % 256))
  {
    var name := teams[m.ship];
    var bytes := MetaBytes(ks, m, teams, crc32);
    WrittenSyncBit(ks, m, teams, crc32);
    UnlayerWritten(ks, m, teams, crc32);
    DecodesPainted(s, w, bytes);
    ReadPacked(m, teams, crc32);
  }

  /** The written record starts with the sync byte 0x0F, whose bit 4 is set. */
  lemma WrittenSyncBit(ks: Keystream, m: SceneMeta, teams: seq<Bytes>, crc32: Crc32)
    requires 0 <= m.ship < |teams|
    ensures Bit(MetaBytes(ks, m, teams, crc32), 4)
  {
    var bytes := MetaBytes(ks, m, teams, crc32);
    PackedFields(m, teams[m.ship], crc32);
    assert bytes[0] == 0x0F;
    SyncHasBit(bytes[0]);
  }

  lemma SyncHasBit(b: bv8)
    requires b == 0x0F
    ensures HasBit(b, 4)
  {
    assert MASKS[4] == 0x08;
  }

  /** Undoing the keystream of the written record gives the packed record. */
  lemma UnlayerWritten(ks: Keystream, m: SceneMeta, teams: seq<Bytes>, crc32: Crc32)
    requires 0 <= m.ship < |teams|
    ensures XorLayer(ks, MetaBytes(ks, m, teams, crc32)) == Packed(m, teams[m.ship], crc32)
  {
    XorLayerInvolution(ks, Packed(m, teams[m.ship], crc32));
  }

  /** Reading a canvas painted with a record whose bit 4 of byte 0 is set gives the record. */
  lemma DecodesPainted(s: seq<bv32>, w: nat, bytes: Bytes)
    requires Canvas(s, w) && |bytes| == META_BYTES && Bit(bytes, 4)
    ensures Canvas(Painted(s, w, bytes), w) && Decoded(Painted(s, w, bytes), w) == bytes
  {
    PaintedCarries(s, w, bytes);
    ReadCarried(Painted(s, w, bytes), w, bytes);
  }

  /** Read mode on the packed record itself: the crc matches and the name finds its team. */
  lemma ReadPacked(m: SceneMeta, teams: seq<Bytes>, crc32: Crc32)
    requires TeamNames(teams) && 0 <= m.ship < |teams| && |teams[m.ship]| < NAME_BYTES
    ensures var plain := Packed(m, teams[m.ship], crc32);
      var t := FirstTeam(teams[m.ship], teams);
      crc32(CRC_KEY, plain[..CRC_AT]) == WordAt(plain, CRC_AT) &&
      CStringAt(plain, NAME_AT) == teams[m.ship] &&
      t.Some? && t.value <= m.ship &&
      Restore(plain, t.value) == m.(ship := t.value, saveSlot := m.saveSlot % 256)
  {
    var name := teams[m.ship];
    var plain := Packed(m, name, crc32);
    PackedFields(m, name, crc32);
    NameReadsBack(plain, name);
    assert Editor.MatchTeamName(name, name);
  }
}
