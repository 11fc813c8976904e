/**
 * The fontaine font code as it runs: unpacking 2-bit glyph data with a bit
 * counter, filling the per-character tables of an in-memory font in loops,
 * measuring and drawing text, and walking the font index. Each method is
 * proved against the reference functions of module FontSpec.
 */
module Fontaine {
  import opened Common
  import opened FontSpec

  // ---------------------------------------------------------------------
  // decode_2bit_data
  // ---------------------------------------------------------------------

  /**
   * Unpacks the n pixels of one glyph from `enc[start..]` into
   * `pixels[out..]`; `bits` counts the bits of the current byte already used,
   * and the next glyph starts on a fresh byte.
   */
  method DecodeGlyph(pixels: array<nat>, out: nat, enc: Bytes, start: nat, n: nat) returns (next: nat)
    requires out + n <= pixels.Length && start + (n + 3) / 4 <= |enc|
    modifies pixels
    ensures next == start + (n + 3) / 4
    ensures pixels[..out] == old(pixels[..out])
    ensures pixels[out..out + n] == GlyphPixels(enc, start, n)
  {
    var bits := 0;
    next := start;
    var t := 0;
    while t < n
      invariant t <= n
      invariant next == start + t / 4 && bits == 2 * (t % 4)
      invariant pixels[..out] == old(pixels[..out])
      invariant forall p :: 0 <= p < t ==> pixels[out + p] == EncodedPixel(enc, start, p)
    {
      QuarterBound(t, n);
      QuarterStep(t, bits);
      pixels[out + t] := ((enc[next] >> (6 - bits)) & 3) as nat;
      bits := bits + 2;
      if bits == 8 {
        next := next + 1;
        bits := 0;
      }
      t := t + 1;
    }
    QuarterEnd(n, bits);
    if bits != 0 {
      next := next + 1;
      bits := 0;
    }
    assert pixels[out..out + n] == GlyphPixels(enc, start, n);
  }

  /** Advancing by one pixel moves two bits along, crossing into the next byte after the fourth pixel. */
  lemma QuarterStep(t: nat, bits: nat)
    requires bits == 2 * (t % 4)
    ensures bits + 2 == 8 ==> (t + 1) / 4 == t / 4 + 1 && (t + 1) % 4 == 0
    ensures bits + 2 != 8 ==> (t + 1) / 4 == t / 4 && 2 * ((t + 1) % 4) == bits + 2
  {
  }

  /** A partly used last byte still counts as consumed. */
  lemma QuarterEnd(n: nat, bits: nat)
    requires bits == 2 * (n % 4)
    ensures bits != 0 ==> (n + 3) / 4 == n / 4 + 1
    ensures bits == 0 ==> (n + 3) / 4 == n / 4
  {
  }

  /** `decode_2bit_data`: unpacks every glyph, in order, into one pixel array. */
  method Decode2Bit(pixels: array<nat>, chars: seq<Glyph>, enc: Bytes)
    requires pixels.Length == PixelsBefore(chars, |chars|) && EncodedSize(chars) <= |enc|
    modifies pixels
    ensures pixels[..] == DecodedPixels(chars, enc, |chars|)
  {
    var out := 0;
    var next := 0;
    var i := 0;
    while i < |chars|
      invariant i <= |chars|
      invariant BytesBefore(chars, i) <= |enc| && out <= pixels.Length
      invariant out == PixelsBefore(chars, i) && next == BytesBefore(chars, i)
      invariant pixels[..out] == DecodedPixels(chars, enc, i)
    {
      var n := Area(chars[i].width, chars[i].height);
      ghost var glyph := DecodedStep(chars, enc, i);
      ghost var prefix := pixels[..out];
      next := DecodeGlyph(pixels, out, enc, next, n);
      assert pixels[..out + n] == pixels[..out] + pixels[out..out + n];
      out := out + n;
      i := i + 1;
    }
    assert pixels[..] == pixels[..out];
  }

  /** How the decoded pixels grow by one glyph. */
  lemma DecodedStep(chars: seq<Glyph>, enc: Bytes, i: nat) returns (glyph: seq<nat>)
    requires i < |chars| && EncodedSize(chars) <= |enc|
    ensures BytesBefore(chars, i + 1) <= |enc| && PixelsBefore(chars, i + 1) <= PixelsBefore(chars, |chars|)
    ensures BytesBefore(chars, i + 1) == BytesBefore(chars, i) + (Area(chars[i].width, chars[i].height) + 3) / 4
    ensures PixelsBefore(chars, i + 1) == PixelsBefore(chars, i) + Area(chars[i].width, chars[i].height)
    ensures glyph == GlyphPixels(enc, BytesBefore(chars, i), Area(chars[i].width, chars[i].height))
    ensures DecodedPixels(chars, enc, i + 1) == DecodedPixels(chars, enc, i) + glyph
  {
    DecodedPrefix(chars, enc, i + 1, |chars|);
    glyph := GlyphPixels(enc, BytesBefore(chars, i), Area(chars[i].width, chars[i].height));
  }

  // ---------------------------------------------------------------------
  // in_memory_font_new
  // ---------------------------------------------------------------------

  /** The sentinel loop: codes 0 to 254 (not 255) get the undefined offset. */
  method MarkUndefined(t: array<CharInfo>)
    requires t.Length == TABLE_SIZE && forall c :: 0 <= c < TABLE_SIZE ==> t[c] == CharInfo(0, 0, 0, 0)
    modifies t
    ensures t[..] == InitialTable()
  {
    var i := 0;
    while i < 255
      invariant i <= 255
      invariant forall c :: 0 <= c < TABLE_SIZE ==> t[c] == (if c < i then CharInfo(UNDEFINED, 0, 0, 0) else CharInfo(0, 0, 0, 0))
    {
      t[i] := t[i].(offset := UNDEFINED);
      i := i + 1;
    }
    assert t[..] == InitialTable();
  }

  /**
   * The glyph loop: records each glyph's offset, width, height and spacing
   * under its character, sums the pixel counts, and clears the monospace
   * flag when a glyph's size differs from the running maxima.
   */
  method RecordGlyphs(t: array<CharInfo>, chars: seq<Glyph>) returns (maxW: nat, maxH: nat, mono: bool, total: nat)
    requires t.Length == TABLE_SIZE && t[..] == InitialTable() && ValidGlyphs(chars)
    modifies t
    ensures t[..] == TableAfter(chars, |chars|) && total == PixelsBefore(chars, |chars|)
    ensures maxW == MaxWidth(chars, |chars|) && maxH == MaxHeight(chars, |chars|)
    ensures mono <==> SameSize(chars, |chars|)
  {
    maxW, maxH, mono, total := chars[0].width, chars[0].height, true, 0;
    var i := 0;
    while i < |chars|
      invariant i <= |chars|
      invariant t[..] == TableAfter(chars, i) && total == PixelsBefore(chars, i)
      invariant maxW == MaxWidth(chars, if i == 0 then 1 else i) && maxH == MaxHeight(chars, if i == 0 then 1 else i)
      invariant mono <==> SameSize(chars, i)
    {
      var e := chars[i];
      SizeStep(chars, i, maxW, maxH, mono);
      maxW, maxH, mono := TrackSize(e, maxW, maxH, mono);
      ghost var before := t[..];
      t[e.character] := CharInfo(total, e.width, e.height, e.xspacing);
      assert t[..] == before[e.character := Entry(chars, i)];
      total := total + Area(e.width, e.height);
      i := i + 1;
    }
  }

  /** The monospace test of the glyph loop: a glyph whose size differs from the running maxima clears the flag and raises them. */
  method TrackSize(e: Glyph, maxW: nat, maxH: nat, mono: bool) returns (maxW': nat, maxH': nat, mono': bool)
    ensures maxW' == Max(maxW, e.width) && maxH' == Max(maxH, e.height)
    ensures mono' <==> mono && e.width == maxW && e.height == maxH
  {
    maxW', maxH', mono' := maxW, maxH, mono;
    if e.width != maxW || e.height != maxH {
      mono' := false;
      if e.width > maxW {
        maxW' := e.width;
      }
      if e.height > maxH {
        maxH' := e.height;
      }
    }
  }

  /** Comparing with the running maxima decides monospace exactly as comparing with the first glyph would. */
  lemma SizeStep(chars: seq<Glyph>, i: nat, maxW: nat, maxH: nat, mono: bool)
    requires 1 <= |chars| && i < |chars|
    requires maxW == MaxWidth(chars, if i == 0 then 1 else i) && maxH == MaxHeight(chars, if i == 0 then 1 else i)
    requires mono <==> SameSize(chars, i)
    ensures Max(maxW, chars[i].width) == MaxWidth(chars, i + 1) && Max(maxH, chars[i].height) == MaxHeight(chars, i + 1)
    ensures (mono && chars[i].width == maxW && chars[i].height == maxH) <==> SameSize(chars, i + 1)
  {
    if i > 0 && mono {
      SameSizeMax(chars, i);
    }
  }

  /** One pass of the case fallback, letter by letter. */
  method FillCasePass(t: array<CharInfo>, from: nat, to: nat)
    requires t.Length == TABLE_SIZE && from + LETTERS <= TABLE_SIZE && to + LETTERS <= TABLE_SIZE
    modifies t
    ensures t[..] == FillCase(old(t[..]), from, to, LETTERS)
  {
    var j := 0;
    while j < LETTERS
      invariant j <= LETTERS
      invariant t[..] == FillCase(old(t[..]), from, to, j)
    {
      var f := from + j;
      var d := to + j;
      if t[d].offset == UNDEFINED && t[f].offset != UNDEFINED {
        t[d] := t[f];
      }
      j := j + 1;
    }
  }

  /** `struct InMemoryFont`; the four 256-entry metric arrays are one array of records. */
  class InMemoryFont {
    const name: Bytes
    const codepage: nat
    const nChars: nat
    const maxCharWidth: nat
    const maxCharHeight: nat
    const isMonospace: bool
    const table: array<CharInfo>
    const pixelsPacked: array<nat>

    /** The tables fit the decoded pixels and the maxima, and every decoded pixel is a 2-bit value. */
    predicate Valid()
      reads table, pixelsPacked
    {
      table.Length == TABLE_SIZE &&
      TableFits(table[..], pixelsPacked.Length, maxCharWidth, maxCharHeight) &&
      forall i :: 0 <= i < pixelsPacked.Length ==> pixelsPacked[i] < 4
    }

    /** `in_memory_font_new`. */
    constructor (name: Bytes, chars: seq<Glyph>, encoded: Bytes, codepage: nat, replacements: bool)
      requires ValidGlyphs(chars) && EncodedSize(chars) <= |encoded|
      ensures Valid()
      ensures this.name == name && this.codepage == codepage && nChars == |chars|
      ensures table[..] == FontTable(chars, replacements)
      ensures maxCharWidth == MaxWidth(chars, |chars|) && maxCharHeight == MaxHeight(chars, |chars|)
      ensures isMonospace <==> SameSize(chars, |chars|)
      ensures pixelsPacked[..] == DecodedPixels(chars, encoded, |chars|)
      ensures fresh(table) && fresh(pixelsPacked)
    {
      var t := new CharInfo[TABLE_SIZE](_ => CharInfo(0, 0, 0, 0));
      MarkUndefined(t);
      var maxW, maxH, mono, total := RecordGlyphs(t, chars);
      if replacements {
        FillCasePass(t, LOWER_A, UPPER_A);
        FillCasePass(t, UPPER_A, LOWER_A);
      }
      var p := new nat[total];
      Decode2Bit(p, chars, encoded);
      FontTableFits(chars, replacements);
      this.name := name;
      this.codepage := codepage;
      nChars := |chars|;
      maxCharWidth := maxW;
      maxCharHeight := maxH;
      isMonospace := mono;
      table := t;
      pixelsPacked := p;
    }

    /** `in_memory_font_measure` on the bytes of a string before its NUL. */
    method Measure(text: Bytes) returns (w: nat, h: nat)
      requires Valid() && NoNul(text)
      ensures w == TextWidth(table[..], text) && h == TextHeight(table[..], text)
    {
      w, h := 0, 0;
      var i := 0;
      while i < |text|
        invariant i <= |text|
        invariant w == TextWidth(table[..], text[..i]) && h == TextHeight(table[..], text[..i])
      {
        var c := ByteValue(text[i]);
        assert text[..i + 1][..i] == text[..i];
        i := i + 1;
        if table[c].offset == UNDEFINED {
          c := SUBSTITUTE;
        }
        if table[c].offset == UNDEFINED {
          continue;
        }
        if table[c].height > h {
          h := table[c].height;
        }
        w := w + table[c].width + table[c].xspacing;
      }
      assert text[..i] == text;
    }

    /** The canvas drawn on is a buffer of its own, not one of the font's arrays. */
    predicate SeparateCanvas(pixels: array<bv32>) {
      pixels as object != table && pixels as object != pixelsPacked
    }

    /** Draws `n` decoded pixels from `pixelsPacked[src..]` at `pixels[base..]`. */
    method DrawRow(pixels: array<bv32>, base: nat, src: nat, n: nat)
      requires Valid() && base + n <= pixels.Length && src + n <= pixelsPacked.Length
      requires SeparateCanvas(pixels)
      modifies pixels
      ensures pixels[..] == BlitRow(old(pixels[..]), base, pixelsPacked[..], src, n)
    {
      ghost var packed := pixelsPacked[..];
      assert forall i :: 0 <= i < |packed| ==> packed[i] < 4;
      var column := 0;
      while column < n
        invariant column <= n
        invariant pixelsPacked[..] == packed
        invariant pixels[..] == BlitRow(old(pixels[..]), base, packed, src, column)
      {
        ghost var before := pixels[..];
        var v := pixelsPacked[src + column];
        assert v == packed[src + column];
        pixels[base + column] := LOOKUP[v];
        assert pixels[..] == Put(before, base + column, Shade(packed, src + column));
        column := column + 1;
      }
    }

    /** Draws one glyph, row by row, with its top-left corner at column x. */
    method DrawGlyph(pixels: array<bv32>, w: nat, h: nat, x: nat, ci: CharInfo)
      requires Valid() && SeparateCanvas(pixels) && pixels.Length == w * h
      requires x + ci.width <= w && ci.height <= h
      requires ci.offset + Area(ci.width, ci.height) <= pixelsPacked.Length
      modifies pixels
      ensures pixels[..] == BlitGlyph(old(pixels[..]), w, x, pixelsPacked[..], ci, ci.height)
    {
      var row := 0;
      while row < ci.height
        invariant row <= ci.height
        invariant pixels[..] == BlitGlyph(old(pixels[..]), w, x, pixelsPacked[..], ci, row)
      {
        RowBefore(row, h, w, x + ci.width, 0);
        RowBefore(row, ci.height, ci.width, ci.width, 0);
        DrawRow(pixels, row * w + x, ci.offset + row * ci.width, ci.width);
        row := row + 1;
      }
    }

    /**
     * `in_memory_font_render_rgba_to_buffer` on a canvas of w by h pixels big
     * enough for the measured text: the pen starts at 0 and moves by each
     * drawn character's width and spacing.
     */
    method RenderToBuffer(text: Bytes, w: nat, h: nat, pixels: array<bv32>)
      requires Valid() && SeparateCanvas(pixels) && NoNul(text) && pixels.Length == w * h
      requires TextWidth(table[..], text) <= w && TextHeight(table[..], text) <= h
      modifies pixels
      ensures pixels[..] == RenderPrefix(table[..], pixelsPacked[..], text, w, old(pixels[..]), |text|)
    {
      ghost var t := table[..];
      ghost var packed := pixelsPacked[..];
      var x := 0;
      var i := 0;
      while i < |text|
        invariant i <= |text| && table[..] == t && pixelsPacked[..] == packed
        invariant x == TextWidth(t, text[..i])
        invariant pixels[..] == RenderPrefix(t, packed, text, w, old(pixels[..]), i)
      {
        RenderStep(t, packed, text, w, old(pixels[..]), i);
        PrefixWidth(t, text, i);
        x := DrawChar(pixels, w, h, x, text[i]);
        i := i + 1;
      }
    }

    /**
     * One pass of the render loop: draws the glyph for byte b (or for
     * SUBSTITUTE) at column x and moves the pen past it; a byte with neither
     * is skipped and the pen stays.
     */
    method DrawChar(pixels: array<bv32>, w: nat, h: nat, x: nat, b: bv8) returns (x': nat)
      requires Valid() && SeparateCanvas(pixels) && pixels.Length == w * h
      requires x + Advance(table[..], b) <= w && CharHeight(table[..], b) <= h
      modifies pixels
      ensures x' == x + Advance(table[..], b)
      ensures pixels[..] == match Resolve(table[..], ByteValue(b))
                            case None => old(pixels[..])
                            case Some(d) => BlitGlyph(old(pixels[..]), w, x, pixelsPacked[..], table[d], table[d].height)
    {
      var c := ByteValue(b);
      if table[c].offset == UNDEFINED {
        c := SUBSTITUTE;
      }
      if table[c].offset == UNDEFINED {
        return x;
      }
      DrawGlyph(pixels, w, h, x, table[c]);
      x' := x + table[c].width + table[c].xspacing;
    }

    /** `in_memory_font_render_rgba`: measures the text, then draws it on a cleared canvas of that size. */
    method RenderRgba(text: Bytes) returns (pixels: array<bv32>, w: nat, h: nat)
      requires Valid() && NoNul(text)
      ensures w == TextWidth(table[..], text) && h == TextHeight(table[..], text)
      ensures pixels.Length == w * h
      ensures pixels[..] == RenderPrefix(table[..], pixelsPacked[..], text, w, seq(w * h, _ => 0), |text|)
      ensures fresh(pixels)
    {
      w, h := Measure(text);
      pixels := new bv32[w * h](_ => 0);
      assert pixels[..] == seq(w * h, _ => 0);
      RenderToBuffer(text, w, h, pixels);
    }
  }

  // ---------------------------------------------------------------------
  // The font index
  // ---------------------------------------------------------------------

  /**
   * `fontaine_font_reader_foreach`: calls the callback on each font in index
   * order and stops at the first result.
   */
  method ForEach<T>(buf: Bytes, callback: (nat, FontView) -> Option<T>) returns (r: Option<T>)
    requires WellFormedFile(buf)
    ensures r == match FirstHit(Views(buf), callback, 0)
                 case None => None
                 case Some(k) => callback(k, Views(buf)[k])
  {
    var n := U16At(buf, FONT_COUNT_OFFSET);
    var i := 0;
    while i < n
      invariant i <= n == FontCount(buf)
      invariant FirstHit(Views(buf), callback, 0) == FirstHit(Views(buf), callback, i)
    {
      r := callback(i, ViewAt(buf, i));
      if r.Some? {
        return;
      }
      i := i + 1;
    }
    r := None;
  }

  /** The callback of `in_memory_font_new_name`: it accepts a font whose name contains the query. */
  function NameFilter(query: Bytes): (nat, FontView) -> Option<FontView> {
    (i: nat, v: FontView) => if Contains(v.name, query) then Some(v) else None
  }

  /** The font was built by `in_memory_font_new` from the arguments the index walk passed for `v`. */
  predicate BuiltFrom(font: InMemoryFont, v: FontView, replacements: bool)
    reads font.table, font.pixelsPacked
  {
    ValidGlyphs(v.chars) && EncodedSize(v.chars) <= |v.encoded| &&
    font.Valid() && font.name == v.name && font.codepage == v.codepage && font.nChars == |v.chars| &&
    font.table[..] == FontTable(v.chars, replacements) &&
    font.pixelsPacked[..] == DecodedPixels(v.chars, v.encoded, |v.chars|)
  }

  /** The index picked by the name filter is the first font whose name contains the query. */
  lemma NameFilterHit(vs: seq<FontView>, query: Bytes)
    ensures FirstHit(vs, NameFilter(query), 0).None? <==> forall j :: 0 <= j < |vs| ==> !Contains(vs[j].name, query)
    ensures FirstHit(vs, NameFilter(query), 0).Some? ==>
      var k := FirstHit(vs, NameFilter(query), 0).value;
      Contains(vs[k].name, query) && forall j :: 0 <= j < k ==> !Contains(vs[j].name, query)
  {
    var r := FirstHit(vs, NameFilter(query), 0);
    if r.None? {
      forall j | 0 <= j < |vs|
        ensures !Contains(vs[j].name, query)
      {
        assert NameFilter(query)(j, vs[j]).None?;
      }
    } else {
      forall j | 0 <= j < r.value
        ensures !Contains(vs[j].name, query)
      {
        assert NameFilter(query)(j, vs[j]).None?;
      }
    }
  }

  /**
   * `in_memory_font_new_name`: builds the first font, in index order, whose
   * name contains `query` (an absent name is the empty query).
   */
  method LoadByName(buf: Bytes, query: Bytes, replacements: bool) returns (font: InMemoryFont?, ghost index: nat)
    requires WellFormedFile(buf)
    ensures font == null <==> FirstHit(Views(buf), NameFilter(query), 0).None?
    ensures font != null ==> FirstHit(Views(buf), NameFilter(query), 0) == Some(index)
    ensures font != null ==> fresh(font) && index < FontCount(buf) && BuiltFrom(font, Views(buf)[index], replacements)
  {
    var hit := ForEach(buf, NameFilter(query));
    ghost var vs := Views(buf);
    ghost var first := FirstHit(vs, NameFilter(query), 0);
    index := 0;
    font := null;
    if hit.Some? {
      index := first.value;
      var v := hit.value;
      assert v == vs[index];
      font := new InMemoryFont(v.name, v.chars, v.encoded, v.codepage, replacements);
    }
  }

  /** Without a name, the first font of a non-empty index is loaded. */
  lemma EmptyQueryTakesFirst(buf: Bytes)
    requires WellFormedFile(buf) && FontCount(buf) > 0
    ensures FirstHit(Views(buf), NameFilter([]), 0) == Some(0)
  {
    EmptyMatchesAll(ViewAt(buf, 0).name);
  }
}
