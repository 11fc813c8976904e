/**
 * load_shipdat and encode_image: the decoder that expands one material's 4-bit image into
 * RGBA words through its palette, and the encoder that builds the palette and packs the
 * indices into an export buffer, both proved against ShipDatSpec.
 */
module ShipDat {
  import opened Common
  import opened ShipDatSpec

  /**
   * load_shipdat: the 16 palette words and the 128x128 decoded pixels of material `index`.
   * A buffer too short for the block is refused (null), checked against the whole block.
   */
  method LoadShipdat(buffer: Bytes, index: nat) returns (pixels: array?<bv32>, palette: seq<bv32>)
    ensures pixels == null <==> !HoldsBlock(|buffer|, index)
    ensures pixels != null ==> fresh(pixels) && pixels.Length == PIXELS && palette == Palette(buffer, index)
    ensures pixels != null ==> forall p :: 0 <= p < PIXELS ==> pixels[p] == DecodedPixel(buffer, index, p)
  {
    if !HoldsBlock(|buffer|, index) {
      return null, [];
    }
    palette := Palette(buffer, index);
    var image := buffer[ImageOffset(index)..ImageOffset(index) + IMAGE_BYTES];
    var result := new bv32[PIXELS];
    var y := 0;
    while y < SIDE
      invariant y <= SIDE
      invariant forall p :: 0 <= p < y * SIDE ==> result[p] == DecodedPixel(buffer, index, p)
    {
      var x := 0;
      while x < SIDE
        invariant x <= SIDE
        invariant forall p :: 0 <= p < y * SIDE + x ==> result[p] == DecodedPixel(buffer, index, p)
      {
        ColumnParity(y, x);
        var pixel := image[(y * SIDE + x) / 2];
        var odd := x % 2 == 1;
        pixel := if odd then pixel & 0x0F else pixel >> 4;
        result[y * SIDE + x] := palette[ByteValue(pixel)];
        x := x + 1;
      }
      y := y + 1;
    }
    pixels := result;
  }

  /** The little-endian word at `off` of a byte array. */
  method ReadWord(buf: array<bv8>, off: nat) returns (w: bv32)
    requires off + 4 <= buf.Length
    ensures w == WordAt(buf[..], off)
  {
    w := (buf[off] as bv32) | ((buf[off + 1] as bv32) << 8) | ((buf[off + 2] as bv32) << 16) | ((buf[off + 3] as bv32) << 24);
  }

  /** Stores w as four little-endian bytes at `off`. */
  method WriteWord(buf: array<bv8>, off: nat, w: bv32)
    requires off + 4 <= buf.Length
    modifies buf
    ensures buf[..] == PutWord(old(buf[..]), off, w)
  {
    var b := WordBytes(w);
    buf[off] := b[0];
    buf[off + 1] := b[1];
    buf[off + 2] := b[2];
    buf[off + 3] := b[3];
  }

  /** The search of the palette in the buffer for a colour, over the entries in use. */
  method FindInPalette(buf: array<bv8>, po: nat, n: nat, v: bv32, ghost palette: seq<bv32>) returns (r: Option<nat>)
    requires n == |palette| && po + 4 * n <= buf.Length
    requires forall j :: 0 <= j < n ==> WordAt(buf[..], po + 4 * j) == palette[j]
    ensures r == FindEntry(palette, v, n)
  {
    var j := 0;
    while j < n
      invariant j <= n && FindEntry(palette, v, j).None?
    {
      var entry := ReadWord(buf, po + 4 * j);
      assert entry == palette[j];
      if entry == v {
        return Some(j);
      }
      j := j + 1;
    }
    return None;
  }

  /** ORs pixel p's palette index into the image byte it shares with its neighbour. */
  method OrIndex(buf: array<bv8>, index: nat, p: nat, x: nat, idx: nat,
                 ghost s0: Bytes, ghost st: EncodeState)
    requires |s0| == buf.Length && HoldsBlock(|s0|, index)
    requires FourBit(st.indices) && |st.indices| == p < PIXELS && x % 2 == p % 2
    requires |st.palette| <= PALETTE_ENTRIES && idx < PALETTE_ENTRIES
    requires buf[..] == EncodedBuffer(s0, index, st)
    modifies buf
    ensures buf[..] == EncodedBuffer(s0, index, st.(indices := st.indices + [idx]))
  {
    EncodedAppendIndex(s0, index, st, idx);
    var k := ImageOffset(index) + p / 2;
    var bits: bv8 := if x % 2 == 0 then (idx as bv8) << 4 else idx as bv8;
    assert bits == NibbleBits(p, idx);
    buf[k] := buf[k] | bits;
  }

  /**
   * A colour not yet in the palette: its word is stored after the entries in use, and
   * unless it is the 17th it becomes the pixel's index. The 17th ends the encoding.
   */
  method AddEntry(buf: array<bv8>, index: nat, p: nat, x: nat, pixel: bv32, size: nat,
                  ghost s0: Bytes, ghost st: EncodeState) returns (ok: bool)
    requires |s0| == buf.Length && HoldsBlock(|s0|, index)
    requires FourBit(st.indices) && |st.indices| == p < PIXELS && x % 2 == p % 2
    requires !st.overflow && size == |st.palette| <= PALETTE_ENTRIES
    requires FindEntry(st.palette, pixel, size).None?
    requires buf[..] == EncodedBuffer(s0, index, st)
    modifies buf
    ensures ok == !EncodeStep(st, pixel).overflow
    ensures buf[..] == EncodedBuffer(s0, index, EncodeStep(st, pixel))
  {
    ghost var added := st.(palette := st.palette + [pixel]);
    EncodedAppendEntry(s0, index, st, pixel);
    WriteWord(buf, PaletteOffset(index) + 4 * size, pixel);
    assert buf[..] == EncodedBuffer(s0, index, added);
    if size == PALETTE_ENTRIES {
      assert EncodeStep(st, pixel) == added.(overflow := true);
      return false;
    }
    assert EncodeStep(st, pixel) == added.(indices := st.indices + [size]);
    OrIndex(buf, index, p, x, size, s0, added);
    return true;
  }

  /**
   * One pixel of encode_image: find or add its palette entry, then OR its index into its
   * image byte. Adding a 17th entry stores it (over the first image bytes) and fails.
   */
  method EncodePixel(buf: array<bv8>, index: nat, pixel: bv32, p: nat, x: nat, size: nat,
                     ghost s0: Bytes, ghost st: EncodeState) returns (size': nat, ok: bool)
    requires |s0| == buf.Length && HoldsBlock(|s0|, index)
    requires FourBit(st.indices) && |st.indices| == p < PIXELS && x % 2 == p % 2
    requires !st.overflow && size == |st.palette| <= PALETTE_ENTRIES
    requires buf[..] == EncodedBuffer(s0, index, st)
    modifies buf
    ensures ok == !EncodeStep(st, pixel).overflow
    ensures ok ==> size' == |EncodeStep(st, pixel).palette|
    ensures buf[..] == EncodedBuffer(s0, index, EncodeStep(st, pixel))
  {
    EncodedPaletteReadable(s0, index, st);
    var found := FindInPalette(buf, PaletteOffset(index), size, pixel, st.palette);
    if found.Some? {
      assert EncodeStep(st, pixel) == st.(indices := st.indices + [found.value]);
      OrIndex(buf, index, p, x, found.value, s0, st);
      return size, true;
    }
    ok := AddEntry(buf, index, p, x, pixel, size, s0, st);
    size' := size + 1;
  }

  /** One row of encode_image: the pixels y*SIDE .. y*SIDE + SIDE - 1, left to right. */
  method EncodeRow(buf: array<bv8>, index: nat, pixels: seq<bv32>, y: nat, size: nat,
                   ghost s0: Bytes) returns (size': nat, ok: bool)
    requires |pixels| == PIXELS && y < SIDE
    requires |s0| == buf.Length && HoldsBlock(|s0|, index)
    requires !Encoded(pixels, y * SIDE).overflow && size == |Encoded(pixels, y * SIDE).palette|
    requires buf[..] == EncodedBuffer(s0, index, Encoded(pixels, y * SIDE))
    modifies buf
    ensures ok ==> !Encoded(pixels, y * SIDE + SIDE).overflow && size' == |Encoded(pixels, y * SIDE + SIDE).palette|
    ensures ok ==> buf[..] == EncodedBuffer(s0, index, Encoded(pixels, y * SIDE + SIDE))
    ensures !ok ==> Encoded(pixels, PIXELS).overflow && buf[..] == EncodedBuffer(s0, index, Encoded(pixels, PIXELS))
  {
    var p := y * SIDE;
    size' := size;
    var x := 0;
    while x < SIDE
      invariant x <= SIDE && p == y * SIDE + x && !Encoded(pixels, p).overflow
      invariant size' == |Encoded(pixels, p).palette|
      invariant buf[..] == EncodedBuffer(s0, index, Encoded(pixels, p))
    {
      ColumnParity(y, x);
      var pixelOk;
      assert Encoded(pixels, p + 1) == EncodeStep(Encoded(pixels, p), pixels[p]);
      size', pixelOk := EncodePixel(buf, index, pixels[p], p, x, size', s0, Encoded(pixels, p));
      if !pixelOk {
        OverflowSticks(pixels, p + 1, PIXELS);
        return size', false;
      }
      x := x + 1;
      p := p + 1;
    }
    ok := true;
  }

  /**
   * encode_image: every pixel, row by row, is given a palette index, the palette is built
   * in the block's palette slots and the indices are OR-ed into its image bytes. The result
   * is false exactly when a 17th colour is met, which ends the encoding.
   */
  method EncodeImage(buf: array<bv8>, index: nat, pixels: seq<bv32>) returns (ok: bool)
    requires |pixels| == PIXELS && HoldsBlock(buf.Length, index)
    modifies buf
    ensures ok <==> |Colours(pixels, PIXELS)| <= PALETTE_ENTRIES
    ensures buf[..] == EncodedBuffer(old(buf[..]), index, Encoded(pixels, PIXELS))
  {
    ghost var s0 := buf[..];
    var size := 0;
    var y := 0;
    while y < SIDE
      invariant y <= SIDE && !Encoded(pixels, y * SIDE).overflow
      invariant size == |Encoded(pixels, y * SIDE).palette|
      invariant buf[..] == EncodedBuffer(s0, index, Encoded(pixels, y * SIDE))
    {
      var rowOk;
      size, rowOk := EncodeRow(buf, index, pixels, y, size, s0);
      if !rowOk {
        EncodeOverflowIff(pixels, PIXELS);
        return false;
      }
      y := y + 1;
    }
    EncodeOverflowIff(pixels, PIXELS);
    return true;
  }
}
