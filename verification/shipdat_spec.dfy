/**
 * The ship.dat skin layout: a 32-byte header (the team name), then for each material
 * index a block of a 16-entry palette of 32-bit RGBA words followed by a 128x128 image of
 * 4-bit palette indices, two per byte, the even column in the high nibble.
 *
 * This module holds the pure side: where things are, what a decoded pixel is, and the
 * palette encoding the encoder performs, with the facts the round trip rests on.
 */
module ShipDatSpec {
  import opened Common

  const SIDE: nat := 128
  const PIXELS: nat := 16384
  const PALETTE_ENTRIES: nat := 16
  const PALETTE_BYTES: nat := 64
  const IMAGE_BYTES: nat := 8192
  const HEADER_BYTES: nat := 32
  /** One material's block: 4 * 16 palette bytes and 128 * 128 / 2 image bytes. */
  const BLOCK_BYTES: nat := 8256

  function PaletteOffset(index: nat): nat {
    HEADER_BYTES + index * BLOCK_BYTES
  }

  function ImageOffset(index: nat): nat {
    PaletteOffset(index) + PALETTE_BYTES
  }

  /** A buffer of `len` bytes holds the whole block of material `index`. */
  predicate HoldsBlock(len: nat, index: nat) {
    ImageOffset(index) + IMAGE_BYTES <= len
  }

  // ---------------------------------------------------------------- decoding

  /** The 4-bit palette index stored for a pixel: the high nibble for an even column, else the low one. */
  function Nibble(b: bv8, odd: bool): (r: nat)
    ensures r < PALETTE_ENTRIES
  {
    if odd then ByteValue(b & 0x0F) else ByteValue(b >> 4)
  }

  /** Palette entry j of material `index`, a little-endian word. */
  function PaletteEntry(buf: Bytes, index: nat, j: nat): bv32
    requires HoldsBlock(|buf|, index) && j < PALETTE_ENTRIES
  {
    WordAt(buf, PaletteOffset(index) + 4 * j)
  }

  /** The 16 palette words load_shipdat copies out. */
  function Palette(buf: Bytes, index: nat): (r: seq<bv32>)
    requires HoldsBlock(|buf|, index)
    ensures |r| == PALETTE_ENTRIES
  {
    seq(PALETTE_ENTRIES, j requires 0 <= j < PALETTE_ENTRIES => PaletteEntry(buf, index, j))
  }

  /** The palette index of pixel p (row-major, p = y * 128 + x). */
  function PixelIndex(buf: Bytes, index: nat, p: nat): (r: nat)
    requires HoldsBlock(|buf|, index) && p < PIXELS
    ensures r < PALETTE_ENTRIES
  {
    Nibble(buf[ImageOffset(index) + p / 2], p % 2 == 1)
  }

  /** Pixel p of the decoded image: the palette word its nibble selects. */
  function DecodedPixel(buf: Bytes, index: nat, p: nat): bv32
    requires HoldsBlock(|buf|, index) && p < PIXELS
  {
    PaletteEntry(buf, index, PixelIndex(buf, index, p))
  }

  /** Column parity is pixel parity, as rows have an even width. */
  lemma ColumnParity(y: nat, x: nat)
    ensures (y * SIDE + x) % 2 == x % 2 && (y * SIDE + x) / 2 == y * (SIDE / 2) + x / 2
  {
  }

  // ---------------------------------------------------------------- the length check

  /** The check load_shipdat makes: the palette's 64 bytes are not counted. */
  predicate LengthCheckAsWritten(len: nat, index: nat) {
    len >= HEADER_BYTES + index * BLOCK_BYTES + IMAGE_BYTES
  }

  /** The check lets through buffers that end inside the image, which is then read past the end. */
  lemma LengthCheckTooWeak()
    ensures LengthCheckAsWritten(8224, 0) && !HoldsBlock(8224, 0)
  {
  }

  /** The corrected check rejects exactly the buffers that are too short for the block. */
  lemma LengthCheckCorrected(len: nat, index: nat)
    ensures HoldsBlock(len, index) ==> LengthCheckAsWritten(len, index)
    ensures LengthCheckAsWritten(len, index) && !HoldsBlock(len, index) <==>
      PaletteOffset(index) + IMAGE_BYTES <= len < ImageOffset(index) + IMAGE_BYTES
  {
  }

  // ---------------------------------------------------------------- palette encoding

  /**
   * The encoder's state after a prefix of the pixels: the palette built so far (in order of
   * first appearance), the palette index of each pixel encoded, and whether a 17th colour
   * was met, at which point encoding stops.
   */
  datatype EncodeState = EncodeState(palette: seq<bv32>, indices: seq<nat>, overflow: bool)

  /** The indices are all 4-bit values. */
  predicate FourBit(indices: seq<nat>) {
    forall i :: 0 <= i < |indices| ==> indices[i] < PALETTE_ENTRIES
  }

  /** The first of the first n palette entries equal to v. */
  function FindEntry(palette: seq<bv32>, v: bv32, n: nat): (r: Option<nat>)
    requires n <= |palette|
    ensures r.Some? ==> r.value < n && palette[r.value] == v && forall i :: 0 <= i < r.value ==> palette[i] != v
    ensures r.None? ==> forall i :: 0 <= i < n ==> palette[i] != v
  {
    if n == 0 then None
    else
      match FindEntry(palette, v, n - 1)
      case Some(j) => Some(j)
      case None => if palette[n - 1] == v then Some(n - 1) else None
  }

  /** One pixel: reuse its palette entry, or append a new one; a 17th entry overflows. */
  function EncodeStep(st: EncodeState, v: bv32): EncodeState {
    if st.overflow then st
    else
      match FindEntry(st.palette, v, |st.palette|)
      case Some(j) => st.(indices := st.indices + [j])
      case None =>
        if |st.palette| < PALETTE_ENTRIES then EncodeState(st.palette + [v], st.indices + [|st.palette|], false)
        else EncodeState(st.palette + [v], st.indices, true)
  }

  /** The encoder's state after the first k pixels. */
  function Encoded(pixels: seq<bv32>, k: nat): (r: EncodeState)
    requires k <= |pixels|
    ensures FourBit(r.indices) && |r.indices| <= k && |r.palette| <= PALETTE_ENTRIES + 1
    ensures !r.overflow ==> |r.indices| == k && |r.palette| <= PALETTE_ENTRIES
  {
    if k == 0 then EncodeState([], [], false) else EncodeStep(Encoded(pixels, k - 1), pixels[k - 1])
  }

  /** The distinct colours among the first k pixels. */
  function Colours(pixels: seq<bv32>, k: nat): set<bv32>
    requires k <= |pixels|
  {
    set i | 0 <= i < k :: pixels[i]
  }

  predicate Distinct(s: seq<bv32>) {
    forall i, j :: 0 <= i < j < |s| ==> s[i] != s[j]
  }

  lemma {:induction false} DistinctCard(s: seq<bv32>)
    requires Distinct(s)
    ensures |Entries(s)| == |s|
  {
    if s != [] {
      var init := s[..|s| - 1];
      DistinctCard(init);
      assert s == init + [s[|s| - 1]];
      EntriesAppend(init, s[|s| - 1]);
      assert s[|s| - 1] !in Entries(init);
    }
  }

  /** The colours a palette holds. */
  function Entries(palette: seq<bv32>): set<bv32> {
    set i | 0 <= i < |palette| :: palette[i]
  }

  lemma EntriesAppend(s: seq<bv32>, v: bv32)
    ensures Entries(s + [v]) == Entries(s) + {v}
  {
    var t := s + [v];
    forall x | x in Entries(t) ensures x in Entries(s) + {v} {
      var i :| 0 <= i < |t| && t[i] == x;
      if i < |s| {
        assert s[i] == x;
      }
    }
    forall x | x in Entries(s) ensures x in Entries(t) {
      var i :| 0 <= i < |s| && s[i] == x;
      assert t[i] == x;
    }
    assert t[|s|] == v;
  }

  /** Every one of the first k pixels has an index that selects its own colour. */
  predicate IndicesSelect(st: EncodeState, pixels: seq<bv32>, k: nat)
    requires k <= |pixels| && |st.indices| == k
  {
    forall p :: 0 <= p < k ==> st.indices[p] < |st.palette| && st.palette[st.indices[p]] == pixels[p]
  }

  /**
   * Until it overflows, the palette lists the colours met so far, each once, and every
   * pixel's index selects its own colour; once it overflows, it holds 17 distinct colours.
   */
  predicate EncodeInv(pixels: seq<bv32>, k: nat, st: EncodeState)
    requires k <= |pixels|
  {
    Distinct(st.palette) && Entries(st.palette) <= Colours(pixels, k) &&
    (!st.overflow ==>
      |st.palette| <= PALETTE_ENTRIES && |st.indices| == k &&
      Entries(st.palette) == Colours(pixels, k) && IndicesSelect(st, pixels, k)) &&
    (st.overflow ==> |st.palette| == PALETTE_ENTRIES + 1)
  }

  lemma {:induction false} EncodedInvariant(pixels: seq<bv32>, k: nat)
    requires k <= |pixels|
    ensures EncodeInv(pixels, k, Encoded(pixels, k))
  {
    if k > 0 {
      EncodedInvariant(pixels, k - 1);
      EncodeStepInv(pixels, k - 1, Encoded(pixels, k - 1));
    }
  }

  lemma EncodeStepInv(pixels: seq<bv32>, k: nat, prev: EncodeState)
    requires k < |pixels| && EncodeInv(pixels, k, prev)
    ensures EncodeInv(pixels, k + 1, EncodeStep(prev, pixels[k]))
  {
    var v := pixels[k];
    assert Colours(pixels, k + 1) == Colours(pixels, k) + {v};
    if !prev.overflow {
      match FindEntry(prev.palette, v, |prev.palette|)
      case Some(j) => StepFound(pixels, k, prev, j);
      case None => StepNew(pixels, k, prev);
    }
  }

  lemma StepFound(pixels: seq<bv32>, k: nat, prev: EncodeState, j: nat)
    requires k < |pixels| && EncodeInv(pixels, k, prev) && !prev.overflow
    requires j < |prev.palette| && prev.palette[j] == pixels[k]
    requires Colours(pixels, k + 1) == Colours(pixels, k) + {pixels[k]}
    ensures EncodeInv(pixels, k + 1, prev.(indices := prev.indices + [j]))
  {
    var st := prev.(indices := prev.indices + [j]);
    assert pixels[k] in Entries(prev.palette);
    forall p | 0 <= p < k + 1
      ensures st.indices[p] < |st.palette| && st.palette[st.indices[p]] == pixels[p]
    {
      if p < k {
        assert st.indices[p] == prev.indices[p];
      }
    }
  }

  lemma StepNew(pixels: seq<bv32>, k: nat, prev: EncodeState)
    requires k < |pixels| && EncodeInv(pixels, k, prev) && !prev.overflow
    requires forall i :: 0 <= i < |prev.palette| ==> prev.palette[i] != pixels[k]
    requires Colours(pixels, k + 1) == Colours(pixels, k) + {pixels[k]}
    ensures EncodeInv(pixels, k + 1, EncodeStep(prev, pixels[k]))
  {
    var v := pixels[k];
    var grown := prev.palette + [v];
    EntriesAppend(prev.palette, v);
    assert FindEntry(prev.palette, v, |prev.palette|).None?;
    if |prev.palette| < PALETTE_ENTRIES {
      var st := EncodeState(grown, prev.indices + [|prev.palette|], false);
      forall p | 0 <= p < k + 1
        ensures st.indices[p] < |st.palette| && st.palette[st.indices[p]] == pixels[p]
      {
        if p < k {
          assert st.indices[p] == prev.indices[p];
        }
      }
    }
  }

  /** Encoding fails exactly when the image has more than 16 distinct colours. */
  lemma EncodeOverflowIff(pixels: seq<bv32>, k: nat)
    requires k <= |pixels|
    ensures Encoded(pixels, k).overflow <==> |Colours(pixels, k)| > PALETTE_ENTRIES
  {
    EncodedInvariant(pixels, k);
    var st := Encoded(pixels, k);
    DistinctCard(st.palette);
    if st.overflow {
      SubsetCard(Entries(st.palette), Colours(pixels, k));
    }
  }

  lemma SubsetCard<T>(a: set<T>, b: set<T>)
    requires a <= b
    ensures |a| <= |b|
  {
    assert b == a + (b - a);
  }

  // ---------------------------------------------------------------- the encoded buffer

  /** The bits pixel p's palette index contributes to its byte. */
  function NibbleBits(p: nat, v: nat): bv8
    requires v < PALETTE_ENTRIES
  {
    if p % 2 == 0 then (v as bv8) << 4 else v as bv8
  }

  /** The image bytes after OR-ing in the indices of the first pixels, in order. */
  function OrNibbles(s: Bytes, io: nat, indices: seq<nat>): (r: Bytes)
    requires FourBit(indices) && io + (|indices| + 1) / 2 <= |s|
    ensures |r| == |s|
    decreases |indices|
  {
    if indices == [] then s
    else
      var n := |indices| - 1;
      var t := OrNibbles(s, io, indices[..n]);
      OrAt(t, io + n / 2, NibbleBits(n, indices[n]))
  }

  /** `s` with the little-endian bytes of w at off. */
  function PutWord(s: Bytes, off: nat, w: bv32): (r: Bytes)
    requires off + 4 <= |s|
    ensures |r| == |s|
  {
    var b := WordBytes(w);
    s[off := b[0]][off + 1 := b[1]][off + 2 := b[2]][off + 3 := b[3]]
  }

  /** `s` with palette entries written as words from `po` on. */
  function PutWords(s: Bytes, po: nat, palette: seq<bv32>): (r: Bytes)
    requires po + 4 * |palette| <= |s|
    ensures |r| == |s|
    decreases |palette|
  {
    if palette == [] then s
    else
      var n := |palette| - 1;
      PutWord(PutWords(s, po, palette[..n]), po + 4 * n, palette[n])
  }

  /** What the encoder leaves in the buffer: the image nibbles OR-ed in, then the palette written over. */
  function EncodedBuffer(s: Bytes, index: nat, st: EncodeState): (r: Bytes)
    requires HoldsBlock(|s|, index) && FourBit(st.indices) && |st.indices| <= PIXELS
    requires |st.palette| <= PALETTE_ENTRIES + 1
    ensures |r| == |s|
  {
    PutWords(OrNibbles(s, ImageOffset(index), st.indices), PaletteOffset(index), st.palette)
  }

  lemma PutWordAt(s: Bytes, off: nat, w: bv32, i: nat)
    requires off + 4 <= |s| && i < |s|
    ensures PutWord(s, off, w)[i] == if off <= i < off + 4 then WordBytes(w)[i - off] else s[i]
  {
  }

  /** The bits pixel p contributes to its image byte once the first m indices are OR-ed in. */
  function Nib(indices: seq<nat>, m: nat, p: nat): bv8
    requires FourBit(indices) && m <= |indices|
  {
    if p < m then NibbleBits(p, indices[p]) else 0
  }

  /** Image byte q holds the bits of pixels 2q and 2q+1 OR-ed into the byte it started as. */
  lemma OrNibblesAt(s: Bytes, io: nat, indices: seq<nat>, q: nat)
    requires FourBit(indices) && io + (|indices| + 1) / 2 <= |s| && io + q < |s|
    ensures OrNibbles(s, io, indices)[io + q] ==
      s[io + q] | Nib(indices, |indices|, 2 * q) | Nib(indices, |indices|, 2 * q + 1)
  {
    assert indices[..|indices|] == indices;
    OrNibblesPrefixAt(s, io, indices, |indices|, q);
  }

  /** The same for the first m indices. */
  lemma {:induction false} OrNibblesPrefixAt(s: Bytes, io: nat, indices: seq<nat>, m: nat, q: nat)
    requires FourBit(indices) && m <= |indices| && io + (m + 1) / 2 <= |s| && io + q < |s|
    ensures OrNibbles(s, io, indices[..m])[io + q] == s[io + q] | Nib(indices, m, 2 * q) | Nib(indices, m, 2 * q + 1)
    decreases m
  {
    if m > 0 {
      var n := m - 1;
      OrNibblesPrefixAt(s, io, indices, n, q);
      assert indices[..m][..n] == indices[..n];
      HalfCases(n, q);
      OrInto(s[io + q], Nib(indices, n, 2 * q), Nib(indices, n, 2 * q + 1), NibbleBits(n, indices[n]));
    }
  }

  /** OR-ing one more nibble into a byte that holds two: into the first or the second place. */
  lemma OrInto(a: bv8, x: bv8, y: bv8, b: bv8)
    ensures x == 0 ==> (a | x | y) | b == a | b | y
    ensures y == 0 ==> (a | x | y) | b == a | x | b
  {
  }

  /** Pixel n is in byte q exactly when it is pixel 2q or 2q+1. */
  lemma HalfCases(n: nat, q: nat)
    ensures n / 2 == q <==> n == 2 * q || n == 2 * q + 1
  {
  }

  lemma {:induction false} OrNibblesOutside(s: Bytes, io: nat, indices: seq<nat>, i: nat)
    requires FourBit(indices) && io + (|indices| + 1) / 2 <= |s| && i < |s|
    requires i < io || i >= io + (|indices| + 1) / 2
    ensures OrNibbles(s, io, indices)[i] == s[i]
    decreases |indices|
  {
    if indices != [] {
      OrNibblesOutside(s, io, indices[..|indices| - 1], i);
    }
  }

  /** A byte below the palette region or past its written entries stays as it was. */
  lemma {:induction false} PutWordsOutside(s: Bytes, po: nat, palette: seq<bv32>, i: nat)
    requires po + 4 * |palette| <= |s| && i < |s| && (i < po || i >= po + 4 * |palette|)
    ensures PutWords(s, po, palette)[i] == s[i]
    decreases |palette|
  {
    if palette != [] {
      var n := |palette| - 1;
      PutWordsOutside(s, po, palette[..n], i);
      PutWordAt(PutWords(s, po, palette[..n]), po + 4 * n, palette[n], i);
    }
  }

  /** Each written palette entry reads back as itself. */
  lemma {:induction false} PutWordsEntry(s: Bytes, po: nat, palette: seq<bv32>, j: nat)
    requires po + 4 * |palette| <= |s| && j < |palette|
    ensures WordAt(PutWords(s, po, palette), po + 4 * j) == palette[j]
    decreases |palette|
  {
    var n := |palette| - 1;
    var before := PutWords(s, po, palette[..n]);
    if j < n {
      PutWordsEntry(s, po, palette[..n], j);
      PutWordKeeps(before, po + 4 * n, palette[n], po + 4 * j);
    } else {
      PutWordReads(before, po + 4 * n, palette[n]);
    }
  }

  /** A word written with PutWord reads back. */
  lemma PutWordReads(s: Bytes, off: nat, w: bv32)
    requires off + 4 <= |s|
    ensures WordAt(PutWord(s, off, w), off) == w
  {
    var t := PutWord(s, off, w);
    assert t[off..off + 4] == WordBytes(w);
    WordAtBytes(t, off, w);
  }

  /** PutWord leaves a word that does not overlap the written one as it was. */
  lemma PutWordKeeps(s: Bytes, off: nat, w: bv32, other: nat)
    requires off + 4 <= |s| && other + 4 <= off
    ensures WordAt(PutWord(s, off, w), other) == WordAt(s, other)
  {
    var t := PutWord(s, off, w);
    assert t[other..other + 4] == s[other..other + 4];
    WordAtUnchanged(t, s, other);
  }

  /** Two 4-bit values packed high and low in a byte are recovered by the shift and the mask. */
  lemma NibbleSplit(x: bv8, y: bv8)
    requires x < 16 && y < 16
    ensures ((x << 4) | y) >> 4 == x && ((x << 4) | y) & 0x0F == y
  {
  }

  /** The image bytes of a block start out zero, as in a freshly cleared export buffer. */
  predicate ZeroImage(s: Bytes, index: nat)
    requires HoldsBlock(|s|, index)
  {
    forall i :: ImageOffset(index) <= i < ImageOffset(index) + IMAGE_BYTES ==> s[i] == 0
  }

  /** A complete encoding without overflow. */
  predicate Complete(st: EncodeState) {
    !st.overflow && |st.indices| == PIXELS && FourBit(st.indices) && |st.palette| <= PALETTE_ENTRIES
  }

  /** Image byte q of the encoded block holds exactly the indices of pixels 2q and 2q + 1. */
  lemma EncodedImageByte(s: Bytes, index: nat, st: EncodeState, q: nat)
    requires HoldsBlock(|s|, index) && ZeroImage(s, index) && Complete(st) && q < IMAGE_BYTES
    ensures EncodedBuffer(s, index, st)[ImageOffset(index) + q] ==
      ((st.indices[2 * q] as bv8) << 4) | (st.indices[2 * q + 1] as bv8)
  {
    var io := ImageOffset(index);
    var image := OrNibbles(s, io, st.indices);
    PutWordsOutside(image, PaletteOffset(index), st.palette, io + q);
    OrNibblesAt(s, io, st.indices, q);
  }

  /** Each pixel's nibble in the encoded block is the index the encoder gave it. */
  lemma EncodedPixelIndex(s: Bytes, index: nat, st: EncodeState, p: nat)
    requires HoldsBlock(|s|, index) && ZeroImage(s, index) && Complete(st) && p < PIXELS
    ensures PixelIndex(EncodedBuffer(s, index, st), index, p) == st.indices[p]
  {
    var q := p / 2;
    var x := st.indices[2 * q] as bv8;
    var y := st.indices[2 * q + 1] as bv8;
    EncodedImageByte(s, index, st, q);
    NibbleSplit(x, y);
    ByteOfValue(st.indices[2 * q]);
    ByteOfValue(st.indices[2 * q + 1]);
    if p % 2 == 0 {
      assert p == 2 * q;
    } else {
      assert p == 2 * q + 1;
    }
  }

  /** Each palette entry the encoder built reads back from the encoded block. */
  lemma EncodedPaletteEntry(s: Bytes, index: nat, st: EncodeState, j: nat)
    requires HoldsBlock(|s|, index) && FourBit(st.indices) && |st.indices| <= PIXELS
    requires |st.palette| <= PALETTE_ENTRIES && j < |st.palette|
    ensures PaletteEntry(EncodedBuffer(s, index, st), index, j) == st.palette[j]
  {
    PutWordsEntry(OrNibbles(s, ImageOffset(index), st.indices), PaletteOffset(index), st.palette, j);
  }

  /** Every palette entry in use reads back from the encoded block. */
  lemma EncodedPaletteReadable(s: Bytes, index: nat, st: EncodeState)
    requires HoldsBlock(|s|, index) && FourBit(st.indices) && |st.indices| <= PIXELS
    requires |st.palette| <= PALETTE_ENTRIES
    ensures forall j :: 0 <= j < |st.palette| ==>
      WordAt(EncodedBuffer(s, index, st), PaletteOffset(index) + 4 * j) == st.palette[j]
  {
    forall j | 0 <= j < |st.palette|
      ensures WordAt(EncodedBuffer(s, index, st), PaletteOffset(index) + 4 * j) == st.palette[j]
    {
      EncodedPaletteEntry(s, index, st, j);
    }
  }

  /** Adding a palette entry writes its word just after the entries before it. */
  lemma EncodedAppendEntry(s: Bytes, index: nat, st: EncodeState, v: bv32)
    requires HoldsBlock(|s|, index) && FourBit(st.indices) && |st.indices| <= PIXELS
    requires |st.palette| <= PALETTE_ENTRIES
    ensures EncodedBuffer(s, index, st.(palette := st.palette + [v])) ==
      PutWord(EncodedBuffer(s, index, st), PaletteOffset(index) + 4 * |st.palette|, v)
  {
    var grown := st.palette + [v];
    assert grown[..|st.palette|] == st.palette;
  }

  /** Writing a palette entry leaves the image bytes where the nibbles go alone. */
  lemma {:induction false} PutWordsUpdate(t: Bytes, po: nat, palette: seq<bv32>, k: nat, c: bv8)
    requires po + 4 * |palette| <= k < |t|
    ensures PutWords(t[k := c], po, palette) == PutWords(t, po, palette)[k := c]
    decreases |palette|
  {
    if palette != [] {
      var n := |palette| - 1;
      PutWordsUpdate(t, po, palette[..n], k, c);
    }
  }

  /** Encoding one more pixel ORs its index into the image byte it shares with its neighbour. */
  lemma EncodedAppendIndex(s: Bytes, index: nat, st: EncodeState, idx: nat)
    requires HoldsBlock(|s|, index) && FourBit(st.indices) && |st.indices| < PIXELS
    requires |st.palette| <= PALETTE_ENTRIES && idx < PALETTE_ENTRIES
    ensures var k := ImageOffset(index) + |st.indices| / 2;
      var b := EncodedBuffer(s, index, st);
      k < |b| && EncodedBuffer(s, index, st.(indices := st.indices + [idx])) == OrAt(b, k, NibbleBits(|st.indices|, idx))
  {
    AppendIndexBelowPalette(s, ImageOffset(index), PaletteOffset(index), st.indices, st.palette, idx);
  }

  /** EncodedAppendIndex for any image offset above the palette words. */
  lemma AppendIndexBelowPalette(s: Bytes, io: nat, po: nat, indices: seq<nat>, palette: seq<bv32>, idx: nat)
    requires FourBit(indices) && idx < PALETTE_ENTRIES && io + (|indices| + 2) / 2 <= |s|
    requires po + 4 * |palette| <= io
    ensures var k := io + |indices| / 2;
      var b := PutWords(OrNibbles(s, io, indices), po, palette);
      FourBit(indices + [idx]) && k < |b| &&
      PutWords(OrNibbles(s, io, indices + [idx]), po, palette) == OrAt(b, k, NibbleBits(|indices|, idx))
  {
    var k := io + |indices| / 2;
    var t := OrNibbles(s, io, indices);
    var c := t[k] | NibbleBits(|indices|, idx);
    OrNibblesAppend(s, io, indices, idx);
    PutWordsOutside(t, po, palette, k);
    PutWordsUpdate(t, po, palette, k, c);
  }

  /** `b` with `bits` OR-ed into byte k. */
  function OrAt(b: Bytes, k: nat, bits: bv8): (r: Bytes)
    requires k < |b|
    ensures |r| == |b|
  {
    b[k := b[k] | bits]
  }

  lemma OrNibblesAppend(s: Bytes, io: nat, indices: seq<nat>, idx: nat)
    requires FourBit(indices) && idx < PALETTE_ENTRIES && io + (|indices| + 2) / 2 <= |s|
    ensures var t := OrNibbles(s, io, indices);
      var k := io + |indices| / 2;
      FourBit(indices + [idx]) && OrNibbles(s, io, indices + [idx]) == OrAt(t, k, NibbleBits(|indices|, idx))
  {
    var grown := indices + [idx];
    assert grown[..|indices|] == indices;
  }

  /** After an overflow the encoder has stopped: later pixels change nothing. */
  lemma {:induction false} OverflowSticks(pixels: seq<bv32>, k: nat, m: nat)
    requires k <= m <= |pixels| && Encoded(pixels, k).overflow
    ensures Encoded(pixels, m) == Encoded(pixels, k)
    decreases m - k
  {
    if k < m {
      OverflowSticks(pixels, k, m - 1);
    }
  }

  /**
   * load_shipdat inverts encode_image: encoding an image of at most 16 colours into a block
   * whose image bytes are zero, then decoding that block, gives back every pixel.
   */
  lemma ShipdatRoundTrip(s: Bytes, index: nat, pixels: seq<bv32>, p: nat)
    requires |pixels| == PIXELS && HoldsBlock(|s|, index) && ZeroImage(s, index) && p < PIXELS
    requires !Encoded(pixels, PIXELS).overflow
    ensures DecodedPixel(EncodedBuffer(s, index, Encoded(pixels, PIXELS)), index, p) == pixels[p]
  {
    var st := Encoded(pixels, PIXELS);
    EncodedInvariant(pixels, PIXELS);
    assert IndicesSelect(st, pixels, PIXELS);
    EncodedPixelIndex(s, index, st, p);
    EncodedPaletteEntry(s, index, st, st.indices[p]);
  }

  // ---------------------------------------------------------------- the encoder as written

  /**
   * The encoder as written searches all 16 palette slots of the buffer, used or not, and
   * the buffer starts zeroed: `slots` are those 16 words plus the word after them that the
   * overflowing 17th colour is stored into, `size` the count of colours added.
   */
  datatype SlotState = SlotState(slots: seq<bv32>, size: nat, indices: seq<nat>, overflow: bool)

  predicate SlotStateOk(st: SlotState) {
    |st.slots| == PALETTE_ENTRIES + 1 && st.size <= PALETTE_ENTRIES + 1 && FourBit(st.indices) &&
    (!st.overflow ==> st.size <= PALETTE_ENTRIES)
  }

  function EncodeStepAsWritten(st: SlotState, v: bv32): (r: SlotState)
    requires SlotStateOk(st)
    ensures SlotStateOk(r)
  {
    if st.overflow then st
    else
      match FindEntry(st.slots, v, PALETTE_ENTRIES)
      case Some(j) => st.(indices := st.indices + [j])
      case None =>
        var added := SlotState(st.slots[st.size := v], st.size + 1, st.indices, false);
        if st.size + 1 > PALETTE_ENTRIES then added.(overflow := true)
        else added.(indices := st.indices + [st.size])
  }

  function EncodeAsWritten(slots: seq<bv32>, pixels: seq<bv32>, k: nat): (r: SlotState)
    requires |slots| == PALETTE_ENTRIES + 1 && k <= |pixels|
    ensures SlotStateOk(r) && |r.indices| <= k
  {
    if k == 0 then SlotState(slots, 0, [], false)
    else EncodeStepAsWritten(EncodeAsWritten(slots, pixels, k - 1), pixels[k - 1])
  }

  /**
   * A fully transparent black pixel (0) matches an unused, zeroed slot and is given its
   * index; the next new colour is stored into that same slot, so the first pixel decodes as
   * the second. Searching only the slots in use keeps the two apart.
   */
  lemma ZeroPixelAliases()
    ensures var pixels := [0, 0xFF00_00FF];
      var st := EncodeAsWritten(seq(PALETTE_ENTRIES + 1, _ => 0), pixels, 2);
      !st.overflow && |st.indices| == 2 && st.indices[0] < |st.slots| && st.slots[st.indices[0]] != pixels[0]
    ensures var pixels := [0, 0xFF00_00FF];
      var st := Encoded(pixels, 2);
      !st.overflow && st.indices == [0, 1] && st.palette[st.indices[0]] == pixels[0] && st.palette[st.indices[1]] == pixels[1]
  {
    var pixels: seq<bv32> := [0, 0xFF00_00FF];
    var zero: seq<bv32> := seq(PALETTE_ENTRIES + 1, _ => 0);
    var start := SlotState(zero, 0, [], false);
    assert zero[0] == 0;
    assert FindEntry(zero, 0, PALETTE_ENTRIES) == Some(0);
    var first := EncodeStepAsWritten(start, 0);
    assert first == SlotState(zero, 0, [0], false);
    assert EncodeAsWritten(zero, pixels, 1) == first;
    assert FindEntry(zero, 0xFF00_00FF, PALETTE_ENTRIES).None?;
    var second := EncodeStepAsWritten(first, 0xFF00_00FF);
    assert second == SlotState(zero[0 := 0xFF00_00FF], 1, [0, 0], false);
    var c := Encoded(pixels, 1);
    assert c.palette == [0] && c.indices == [0];
  }

  /** The 16 palette words of a block and the word after them, where a 17th colour is stored. */
  function SlotsOf(s: Bytes, index: nat): (r: seq<bv32>)
    requires HoldsBlock(|s|, index)
    ensures |r| == PALETTE_ENTRIES + 1
  {
    seq(PALETTE_ENTRIES + 1, j requires 0 <= j <= PALETTE_ENTRIES => WordAt(s, PaletteOffset(index) + 4 * j))
  }

  /** The palette and image bytes of a block are zero, as in the cleared export buffer. */
  predicate ZeroBlock(s: Bytes, index: nat)
    requires HoldsBlock(|s|, index)
  {
    forall i :: PaletteOffset(index) <= i < ImageOffset(index) + IMAGE_BYTES ==> s[i] == 0
  }

  lemma ZeroBlockSlots(s: Bytes, index: nat)
    requires HoldsBlock(|s|, index) && ZeroBlock(s, index)
    ensures SlotsOf(s, index) == seq(PALETTE_ENTRIES + 1, _ => 0) && ZeroImage(s, index)
  {
    forall j | 0 <= j <= PALETTE_ENTRIES
      ensures SlotsOf(s, index)[j] == 0
    {
      var o := PaletteOffset(index) + 4 * j;
      assert s[o] == 0 && s[o + 1] == 0 && s[o + 2] == 0 && s[o + 3] == 0;
    }
  }

  /**
   * What the encoder as written leaves in the buffer: each added colour's word in its slot,
   * in order, and the indices OR-ed into the image bytes.
   */
  function BufferAsWritten(s: Bytes, index: nat, st: SlotState): (r: Bytes)
    requires HoldsBlock(|s|, index) && SlotStateOk(st) && |st.indices| <= PIXELS
    ensures |r| == |s|
  {
    EncodedBuffer(s, index, EncodeState(st.slots[..st.size], st.indices, st.overflow))
  }

  /**
   * The encoder as written is in step with the corrected one: the same indices and the same
   * overflow, the slots in use are the palette, and the slots after them are still zero.
   */
  predicate Agrees(a: SlotState, c: EncodeState)
    requires SlotStateOk(a)
  {
    a.indices == c.indices && a.overflow == c.overflow && a.size == |c.palette| &&
    a.slots[..a.size] == c.palette && forall i :: a.size <= i < |a.slots| ==> a.slots[i] == 0
  }

  /** With the unused slots zero, the search of all 16 slots for a colour other than 0 finds what the search of the palette finds. */
  lemma FindInSlots(a: SlotState, c: EncodeState, v: bv32)
    requires SlotStateOk(a) && Agrees(a, c) && !a.overflow && v != 0
    ensures FindEntry(a.slots, v, PALETTE_ENTRIES) == FindEntry(c.palette, v, |c.palette|)
  {
    var n := |c.palette|;
    forall i | 0 <= i < n ensures a.slots[i] == c.palette[i] {
      assert a.slots[..a.size][i] == a.slots[i];
    }
    match FindEntry(c.palette, v, n)
    case Some(j) =>
      assert a.slots[j] == v;
    case None =>
  }

  lemma AgreesStep(a: SlotState, c: EncodeState, v: bv32)
    requires SlotStateOk(a) && Agrees(a, c) && v != 0
    ensures Agrees(EncodeStepAsWritten(a, v), EncodeStep(c, v))
  {
    if !a.overflow {
      FindInSlots(a, c, v);
      if FindEntry(c.palette, v, |c.palette|).None? {
        var slots := a.slots[a.size := v];
        assert slots[..a.size + 1] == c.palette + [v];
      }
    }
  }

  /**
   * On an image with no fully transparent black pixel, encoding into zeroed slots as
   * written makes every choice the corrected encoder makes.
   */
  lemma {:induction false} AsWrittenAgrees(pixels: seq<bv32>, k: nat)
    requires k <= |pixels| && forall p :: 0 <= p < k ==> pixels[p] != 0
    ensures Agrees(EncodeAsWritten(seq(PALETTE_ENTRIES + 1, _ => 0), pixels, k), Encoded(pixels, k))
  {
    if k > 0 {
      AsWrittenAgrees(pixels, k - 1);
      AgreesStep(EncodeAsWritten(seq(PALETTE_ENTRIES + 1, _ => 0), pixels, k - 1), Encoded(pixels, k - 1), pixels[k - 1]);
    }
  }

  /**
   * The program's own round trip: an image of at most 16 colours with no fully transparent
   * black pixel, encoded as written into a zeroed block, loads back pixel for pixel.
   */
  lemma AsWrittenRoundTrip(s: Bytes, index: nat, pixels: seq<bv32>, p: nat)
    requires |pixels| == PIXELS && HoldsBlock(|s|, index) && ZeroBlock(s, index) && p < PIXELS
    requires forall q :: 0 <= q < PIXELS ==> pixels[q] != 0
    requires |Colours(pixels, PIXELS)| <= PALETTE_ENTRIES
    ensures var st := EncodeAsWritten(SlotsOf(s, index), pixels, PIXELS);
      !st.overflow && DecodedPixel(BufferAsWritten(s, index, st), index, p) == pixels[p]
  {
    ZeroBlockSlots(s, index);
    AsWrittenAgrees(pixels, PIXELS);
    EncodeOverflowIff(pixels, PIXELS);
    var st := EncodeAsWritten(SlotsOf(s, index), pixels, PIXELS);
    assert EncodeState(st.slots[..st.size], st.indices, st.overflow) == Encoded(pixels, PIXELS);
    ShipdatRoundTrip(s, index, pixels, p);
  }
}
