# shipedit core, modelled in Dafny

shipedit is a livery editor for the ships of a racing game. It reads the game's packed
archives and fonts, decodes the 4-bit palette images of the `ship.dat` skin files, lets the
user paint on them with undo, and writes the result back as a ship skin or as a PSP save.
This project models the parts of it that work on bytes and state, and proves what they
promise:

- **File store** (`lz_spec.dfy`, `lz_decoder.dfy`, `wad.dfy`). It covers:
  - the LZ decoder, which reads MSB-first bits into a 1-bit flag, then an 8-bit literal or a
    13-bit offset and 4-bit count into an 8 KiB lookback window;
  - the chain of mounted WAD images, searched newest first for an entry whose hash matches;
  - the raw, zlib and LZ entry codecs;
  - `read_file`, which tries the archives before the filesystem;
  - `parse_file_lines`.

  `LzDecoder.DecompressionContext` is a class proved against the pure decoder
  `LzSpec.Decode`. An encoder `LzSpec.Compress` gives the round trip. `Wad.FileStore` holds
  the mounted chain.
- **Fontaine fonts** (`font_spec.dfy`, `fontaine.dfy`). It covers:
  - the font file index;
  - the 2-bit glyph pixel decoder;
  - the 256-entry character table with its "undefined" marker and its upper/lower case
    fallback;
  - text measuring;
  - rendering into an RGBA canvas;
  - the first-font-whose-name-contains lookup.

  `Fontaine.InMemoryFont` is a class whose arrays are proved equal to the functions of
  `FontSpec`.
- **Ship skins** (`shipdat_spec.dfy`, `shipdat.dfy`). It covers:
  - `load_shipdat`, which turns a 16-entry palette and 128×128 4-bit indices into RGBA;
  - `encode_image`, which builds the palette first-seen and ORs the nibbles into the image.

  The loader and the corrected encoder are proved to round-trip. The encoder as written is
  proved to make the same choices on images without a fully transparent black pixel, so it
  round-trips there too.
- **Undo** (`undo.dfy`): a stack of steps, each holding one snapshot per material. Only the
  first save of a material in a step is kept. Undo restores every snapshot of the top step.
- **Screenshot metadata** (`xtea.dfy`, `scene_meta_spec.dfy`, `scene_meta.dfy`). It covers:
  - XTEA, used to derive the keystream;
  - the 48-byte scene record: team name, five floats, ortho flag, slot and CRC;
  - the XOR layer;
  - the bit painting of the record into a 108-column, 8-row band of the screenshot, and reading
    it back.

  Writing then reading restores the scene.
- **Editor helpers** (`editor.dfy`). It covers:
  - team-name matching, where "Mirage" is also taken for "Mantis";
  - rectangle hit tests;
  - the vertical flip of an RGBA image;
  - the picking colours and their decoding;
  - the slot cycling buttons;
  - the command-line slot clamp;
  - the parsing of a `ships.txt` line.
- **PSP save** (`saveskin.dfy`). It covers:
  - `param_sfo_set_key` on a PARAM.SFO image, proved against a specification of which
    entries it rewrites;
  - the plaintext short cut of `saveskin_decrypt`;
  - the save folder name and the detail text;
  - the three key updates `saveskin_save` applies to the template.

`common.dfy` holds the shared byte helpers: little-endian reads and C strings.

## Model

| member | source | states |
|---|---|---|
| Common.U16At | src/saveskin.c:143-149 | a little-endian u16 field read from a byte image is below 2^16 |
| Common.U32At | src/saveskin.c:143-149 | a little-endian u32 field read from a byte image is below 2^32 |
| Common.WordRoundTrip | src/shipedit.c:1896 | a 32-bit word stored as four little-endian bytes reads back as the same word |
| Common.NulFrom | src/saveskin.c:157-158 | the first NUL at or after a position: every byte before it is not NUL, and it is NUL or the end |
| Common.CStringAt | src/saveskin.c:158-159 | the C string at a position contains no NUL |
| LzSpec.Bit | src/fileio.c:55-57 | the bit at a stream position, MSB first within each byte, is 0 or 1 |
| LzSpec.BitsValue | src/fileio.c:44-68 | an n-bit MSB-first field read from the stream is below 2^n |
| LzSpec.ParseToken | src/fileio.c:74-87 | a token is parsed exactly when its flag bit and its 8 or 17 following bits exist; a parsed token is valid, spans 9 or 18 bits and expands to 1..18 bytes |
| LzSpec.ParseLiteralAt | src/fileio.c:74-78 | a set flag followed by 8 bits parses as that literal byte |
| LzSpec.ParseBackRefAt | src/fileio.c:84-87 | a clear flag followed by 13 offset bits and 4 count bits parses as a back-reference of count+3 bytes |
| LzSpec.Emit | src/fileio.c:78-80 | emitting a byte keeps the window well formed (8 KiB lookback, write index below its size) |
| LzSpec.CopyRun | src/fileio.c:89-96 | copying a run through the window keeps it well formed and produces exactly the remaining count of bytes |
| LzSpec.ExpandToken | src/fileio.c:74-96 | a token expands to exactly its length and keeps the window well formed |
| LzSpec.Decode | src/fileio.c:70-99 | a successful decode produces exactly the requested length |
| LzSpec.DecodeStep | src/fileio.c:73-97 | decoding a stream whose next token fits is that token's bytes followed by the decode of the rest |
| LzSpec.InitialState | src/fileio.c:101-111 | the decoder starts with a well-formed window |
| LzSpec.PackCarries | src/fileio.c:44-68 | packing a bit list into bytes MSB first gives a buffer whose stream bits are that list |
| LzSpec.BitsValueCarried | src/fileio.c:44-68 | over a packed bit list, an n-bit field reads as the value of those bits |
| LzSpec.CarriedTokensParse | src/fileio.c:73-97 | an encoded token sequence inside a stream is parsed back token by token |
| LzSpec.DecodeEncodedTokens | src/fileio.c:70-99 | decoding a stream that encodes a token sequence gives that sequence's expansion |
| LzSpec.RoundTrip | src/fileio.c:70-99 | decompressing the compression of any valid token sequence gives its expansion |
| LzSpec.LiteralRoundTrip | src/fileio.c:74-81 | a stream of literals decodes to exactly those bytes |
| LzSpec.SelfOverlappingCopy | src/fileio.c:89-96 | a back-reference whose run overlaps the bytes it is writing repeats the bytes it has just written, whatever the window held before |
| LzSpec.ExpandExample | src/fileio.c:89-96 | from the initial write index 1, two literals followed by a 3-byte back-reference to window position 1 expand to a, b, a, b, a |
| LzDecoder.MaskStep | src/fileio.c:59-64 | shifting the bit mask right and wrapping 0 to 0x80 moves it to the next bit position |
| LzDecoder.DecompressionContext.constructor | src/fileio.c:101-111 | a fresh context reads from bit 0 with mask 0x80 and holds the initial decoder state |
| LzDecoder.DecompressionContext.HasBits | src/fileio.c:51-53 | reports whether n more bits remain in the input |
| LzDecoder.DecompressionContext.NextBit | src/fileio.c:51-64 | returns the next stream bit and advances the cursor by one |
| LzDecoder.DecompressionContext.ReadBits | src/fileio.c:44-68 | returns the n-bit MSB-first field at the cursor and advances the cursor by n |
| LzDecoder.DecompressionContext.Put | src/fileio.c:78-80 | writes one byte to the output and the window, as the pure decoder's emit step does |
| LzDecoder.DecompressionContext.CopyMatch | src/fileio.c:89-96 | writes the run the pure decoder copies, leaves the output before it unchanged, and ends in the same window state |
| LzDecoder.DecompressionContext.ReadToken | src/fileio.c:74-87 | reads exactly the token the pure parser sees at the cursor, or fails exactly when it does |
| LzDecoder.DecompressionContext.ReadLiteral | src/fileio.c:76-77 | after a set flag, reads the literal or fails when fewer than 8 bits remain |
| LzDecoder.DecompressionContext.ReadBackRef | src/fileio.c:86-87 | after a clear flag, reads offset and count or fails when fewer than 17 bits remain |
| LzDecoder.DecompressionContext.EmitToken | src/fileio.c:74-96 | writes a token's expansion after the output so far |
| LzDecoder.DecompressionContext.UnpackStep | src/fileio.c:73-97 | one loop turn: either the failure the pure decoder reports or one token's bytes and state |
| LzDecoder.DecompressionContext.Unpack | src/fileio.c:70-99 | returns exactly the pure decoder's result, and the output buffer holds the decoded bytes |
| LzDecoder.DecodeFails | src/fileio.c:73-97 | a missing token or a token longer than what remains makes the decode fail with that error |
| LzDecoder.DecodeAfterStep | src/fileio.c:73-97 | the loop invariant: output so far plus the decode of the rest is the decode of the whole stream |
| LzDecoder.WeightedBitsValue | src/fileio.c:44-68 | accumulating bits MSB first with halving weights yields the field's value |
| LzDecoder.AccumulateBit | src/fileio.c:55-57 | adding a set bit's weight extends the accumulated value by one bit |
| LzDecoder.DecompressEntry | src/fileio.c:203-210 | decompressing an LZ entry returns the pure decoder's result from the initial state, of the requested length |
| Wad.EntryAt | src/fileio.c:113-118 | an entry's name hash and length are 32-bit values |
| Wad.ScanEntries | src/fileio.c:164-166 | a match is the first entry with that name; no match means every entry is present and differs; a truncated table hides no earlier match |
| Wad.LookupFrom | src/fileio.c:163-223 | the first image in the chain that holds the name, or the first broken one before it; missing exactly when no image holds it |
| Wad.LookupShift | src/fileio.c:151-152 | prepending an image shifts every later lookup result by one |
| Wad.MountShadows | src/fileio.c:151-152 | a newly mounted image answers first: its own match or break wins, otherwise the older chain answers |
| Wad.Extract | src/fileio.c:173-216 | a raw entry yields its stored bytes; a zlib entry needs the 0x78 header and yields the declared length; an invalid header fails exactly when the first byte is not 0x78 |
| Wad.Inflated | src/fileio.c:197-200 | inflation either yields the declared length or fails |
| Wad.Unpacked | src/fileio.c:203-210 | LZ decoding either yields the declared length or fails with the decoder's error |
| Wad.LzEntryRoundTrip | src/fileio.c:203-210 | an LZ entry whose payload is the compression of a token sequence extracts to that sequence's expansion |
| Wad.ReadWad | src/fileio.c:156-226 | a name is reported as not in the archive exactly when no mounted image holds its hash |
| Wad.ArchiveShadowsDisk | src/fileio.c:228-259 | a file held by an archive reads the same whatever the disk holds; a name no archive holds reads from disk or is missing |
| Wad.LineEnd | src/fileio.c:272-274 | the first newline or NUL at or after a position, or the end of the buffer |
| Wad.LinesHaveNoTerminator | src/fileio.c:270-281 | no line handed to the callback contains a newline or a NUL |
| Wad.JoinLines | src/fileio.c:276 | joining lines terminates each with a newline |
| Wad.JoinSplitLines | src/fileio.c:262-284 | for NUL-free text ending in a newline, the lines joined back with newlines give the text |
| Wad.SplitLines | src/fileio.c:262-284 | the loop yields exactly the specified lines, and every newline in the buffer becomes a NUL |
| Wad.NextLine | src/fileio.c:272-278 | one loop turn yields the next line and moves past its terminator |
| Wad.TerminateLine | src/fileio.c:276 | the newline ending the line is overwritten with NUL |
| Wad.Terminated | src/fileio.c:276 | the buffer after termination: newlines before the position are NUL, all else unchanged |
| Wad.FindLineEnd | src/fileio.c:272-274 | the scan stops at the specified line end |
| Wad.LinesStep | src/fileio.c:270-281 | the lines from a position are the first line followed by the lines after its terminator |
| Wad.LineEndIs | src/fileio.c:272-274 | any position satisfying the scan's stop condition is the line end |
| Wad.FileStore.constructor | src/fileio.c:136-154 | a fresh store has no mounted images |
| Wad.FileStore.ExtractEntry | src/fileio.c:168-217 | dispatches on the entry's codec exactly as the extraction specification |
| Wad.FileStore.InflateEntry | src/fileio.c:190-202 | hands the payload to the inflater as specified |
| Wad.FileStore.UnpackEntry | src/fileio.c:203-210 | decodes the LZ payload as specified |
| Wad.FileStore.ReadWadFile | src/fileio.c:156-226 | returns exactly the lookup-and-extract specification |
| Wad.FileStore.ScanTable | src/fileio.c:164-166 | scans an image's table exactly as specified, and a match is a present entry |
| Wad.FileStore.ReadFile | src/fileio.c:228-259 | returns the archive's bytes, else the disk's, else missing, as specified |
| Wad.FileStore.MountWad | src/fileio.c:136-154 | succeeds exactly when the file can be read, and then prepends it to the chain; otherwise the chain is unchanged |
| Wad.FileStore.ParseFileLines | src/fileio.c:262-284 | yields lines exactly when the file can be read, and those lines are the specified split |
| FontSpec.PixelsBeforeBound | src/fontaine/fontaine2.c:193 | the running pixel total stays below the undefined marker |
| FontSpec.TableAfter | src/fontaine/fontaine2.c:161-191 | the character table always has 256 entries |
| FontSpec.LastGlyph | src/fontaine/fontaine2.c:188-191 | the last glyph among the first k with a given character code, or none |
| FontSpec.TableLookup | src/fontaine/fontaine2.c:171-191 | a defined character holds its last glyph's record; otherwise codes below 255 are marked undefined and 255 stays zero |
| FontSpec.MaxIsMaximum | src/fontaine/fontaine2.c:166-186 | the tracked maximal width and height bound every glyph and are attained |
| FontSpec.SameSizeMax | src/fontaine/fontaine2.c:176-186 | in a monospace font the maxima are the first glyph's size |
| FontSpec.FillCase | src/fontaine/fontaine2.c:198-215 | the case fill keeps the table size |
| FontSpec.CaseFilled | src/fontaine/fontaine2.c:198-215 | the table after both case passes keeps its size |
| FontSpec.FillCaseAt | src/fontaine/fontaine2.c:198-215 | one pass copies a letter's record into its undefined other-case slot and leaves every other slot alone |
| FontSpec.CaseFallback | src/fontaine/fontaine2.c:198-215 | a letter with no glyph takes its other case's record when that one is defined; nothing else changes |
| FontSpec.FontTable | src/fontaine/fontaine2.c:161-215 | the final character table has 256 entries |
| FontSpec.TableAfterFits | src/fontaine/fontaine2.c:175-196 | every defined record lies inside the decoded pixels and within the maxima |
| FontSpec.FontTableFits | src/fontaine/fontaine2.c:161-219 | the final table, replacements included, only points into the decoded pixels |
| FontSpec.GlyphPixels | src/fontaine/fontaine2.c:66-79 | one glyph decodes to exactly width×height pixels |
| FontSpec.DecodedPixels | src/fontaine/fontaine2.c:59-88 | the decoded pixel array has the total area and every pixel is a 2-bit value |
| FontSpec.DecodedPrefix | src/fontaine/fontaine2.c:59-88 | decoding fewer glyphs gives a prefix of the full decode |
| FontSpec.GlyphPixelAt | src/fontaine/fontaine2.c:69-84 | pixel p of glyph k comes from bits 6-2·(p mod 4) of byte p/4 of that glyph's byte-aligned data |
| FontSpec.Resolve | src/fontaine/fontaine2.c:238-246 | a character resolves to itself, to the substitute glyph, or to nothing |
| FontSpec.MeasureConcat | src/fontaine/fontaine2.c:224-259 | the width of a concatenation is the sum of widths, and its height the maximum |
| FontSpec.MeasureChar | src/fontaine/fontaine2.c:238-257 | one character measures its advance and height; one with no glyph and no substitute measures zero |
| FontSpec.PrefixWidth | src/fontaine/fontaine2.c:251-257 | each character's pen position plus advance stays within the text width, and its height within the text height |
| FontSpec.TextHeightBound | src/fontaine/fontaine2.c:251-253 | the text height never exceeds the font's maximal height |
| FontSpec.BlitRow | src/fontaine/fontaine2.c:297-305 | drawing a glyph row keeps the canvas size |
| FontSpec.BlitGlyph | src/fontaine/fontaine2.c:297-305 | drawing a glyph keeps the canvas size |
| FontSpec.RenderPrefix | src/fontaine/fontaine2.c:261-310 | rendering keeps the canvas size |
| FontSpec.RenderStep | src/fontaine/fontaine2.c:268-308 | rendering one more character draws it at the pen position, which then moves by its advance |
| FontSpec.BlitGlyphAt | src/fontaine/fontaine2.c:297-305 | a pixel inside a drawn glyph gets the shade of the glyph's pixel at the same row and column |
| FontSpec.BlitGlyphKeeps | src/fontaine/fontaine2.c:297-305 | a glyph leaves the pixels to its left unchanged |
| FontSpec.RenderKeeps | src/fontaine/fontaine2.c:261-310 | later characters never overwrite pixels left of their pen position |
| FontSpec.WidthMono | src/fontaine/fontaine2.c:308 | the pen position never moves left |
| FontSpec.RenderPlacesGlyph | src/fontaine/fontaine2.c:261-310 | in the rendered text, each pixel of each character's glyph shows that glyph's shade at its pen position |
| FontSpec.GlyphAt | src/fontaine/fontaine2.c:52-57 | a glyph record read from the file has sizes that fit the font format |
| FontSpec.GlyphsAt | src/fontaine/fontaine2.c:114-116 | a font's glyph records are count valid records |
| FontSpec.ViewAt | src/fontaine/fontaine2.c:112-119 | the view the callback receives has valid glyphs and enough encoded data |
| FontSpec.Views | src/fontaine/fontaine2.c:105-128 | one view per font in the index, in file order |
| FontSpec.FirstHit | src/fontaine/fontaine2.c:105-128 | the first font whose callback answers, with every earlier one declining; none when all decline |
| FontSpec.EmptyMatchesAll | src/fontaine/fontaine2.c:356 | every name contains the empty query |
| Fontaine.DecodeGlyph | src/fontaine/fontaine2.c:64-85 | one glyph's pixels are written after the earlier ones, and the read position ends byte-aligned after them |
| Fontaine.Decode2Bit | src/fontaine/fontaine2.c:59-88 | the pixel array ends equal to the specified decode of all glyphs |
| Fontaine.DecodedStep | src/fontaine/fontaine2.c:64-87 | decoding one more glyph appends its pixels and advances the byte and pixel counts |
| Fontaine.MarkUndefined | src/fontaine/fontaine2.c:171-173 | the zeroed table becomes the initial one: every code below 255 marked undefined |
| Fontaine.RecordGlyphs | src/fontaine/fontaine2.c:175-196 | the loop leaves the specified table, pixel total, maxima and monospace flag |
| Fontaine.TrackSize | src/fontaine/fontaine2.c:176-186 | the maxima grow to cover the glyph, and monospace holds while every glyph has the maximal size |
| Fontaine.SizeStep | src/fontaine/fontaine2.c:176-186 | the running maxima and monospace flag follow their specifications one glyph at a time |
| Fontaine.FillCasePass | src/fontaine/fontaine2.c:198-215 | one pass over 26 letters leaves the specified case fill |
| Fontaine.InMemoryFont.constructor | src/fontaine/fontaine2.c:136-222 | the font holds the specified table, maxima, monospace flag and decoded pixels |
| Fontaine.InMemoryFont.Measure | src/fontaine/fontaine2.c:224-259 | returns the specified text width and height |
| Fontaine.InMemoryFont.DrawRow | src/fontaine/fontaine2.c:299-304 | draws one glyph row into the canvas as specified |
| Fontaine.InMemoryFont.DrawGlyph | src/fontaine/fontaine2.c:297-305 | draws all rows of a glyph as specified |
| Fontaine.InMemoryFont.RenderToBuffer | src/fontaine/fontaine2.c:261-310 | the canvas ends equal to the specified rendering of the whole text |
| Fontaine.InMemoryFont.DrawChar | src/fontaine/fontaine2.c:268-308 | draws the resolved glyph, or nothing, and advances the pen by its advance |
| Fontaine.InMemoryFont.RenderRgba | src/fontaine/fontaine2.c:312-326 | allocates a canvas of the measured size and renders the text onto zeros |
| Fontaine.ForEach | src/fontaine/fontaine2.c:105-128 | returns the answer of the first font whose callback answers, or nothing |
| Fontaine.NameFilterHit | src/fontaine/fontaine2.c:347-361 | the lookup finds the first font whose name contains the query, and none exactly when no name does |
| Fontaine.LoadByName | src/fontaine/fontaine2.c:363-381 | returns no font exactly when no name matches; otherwise a fresh font built from the first match |
| Fontaine.EmptyQueryTakesFirst | src/fontaine/fontaine2.c:371-373 | a missing name, taken as empty, selects the first font |
| Editor.StrCmpZeroIff | src/shipedit.c:107 | strcmp returns zero exactly when the two NUL-free strings are equal |
| Editor.MatchTeamName | src/shipedit.c:104-118 | a name matches a team exactly when it equals the team's name, or it is "Mirage" and the team is "Mantis" |
| Editor.RectSpan | src/shipedit.c:151-156 | a point is inside a rectangle exactly when its offsets from the corner lie in 0..w and 0..h, edges included |
| Editor.Mirror | src/shipedit.c:675-682 | the mirrored pixel index stays inside the image |
| Editor.MirrorRow | src/shipedit.c:676-677 | a pixel on row y mirrors to row h-1-y, same column |
| Editor.MirrorInvolution | src/shipedit.c:669-684 | mirroring twice gives the pixel back |
| Editor.Flipped | src/shipedit.c:669-684 | the flipped image has the same size |
| Editor.FlipInvolution | src/shipedit.c:669-684 | flipping twice gives the image back |
| Editor.FlipKeepsMiddleRow | src/shipedit.c:675 | with an odd height the middle row stays where it is |
| Editor.Stage | src/shipedit.c:675-682 | each stage of the flip keeps the image size |
| Editor.RangesSwapped | src/shipedit.c:679-681 | swapping two scanlines keeps the image size |
| Editor.StageStart | src/shipedit.c:675 | before the loop nothing is swapped |
| Editor.StageDone | src/shipedit.c:675 | after h/2 swaps the image is flipped |
| Editor.StageStep | src/shipedit.c:676-681 | swapping rows y and h-1-y advances the flip by one stage |
| Editor.FlipY | src/shipedit.c:669-684 | the image ends vertically flipped |
| Editor.SwapRanges | src/shipedit.c:679-681 | the two scanlines are exchanged through the temporary buffer |
| Editor.SwapRowsAt | src/shipedit.c:676-681 | a swap moves exactly the pixels of rows y and h-1-y to their mirrored places |
| Editor.PickRoundTrip | src/shipedit.c:733-738 | the picking colour decodes back to the material index, v and u it encodes |
| Editor.RedChannel | src/shipedit.c:1992-1997 | the red channel's top three bits give the material index |
| Editor.GreenChannel | src/shipedit.c:1993-1998 | the green channel halved gives the row |
| Editor.BlueChannel | src/shipedit.c:1994-1999 | the blue channel halved gives the column |
| Editor.PickedMaterial | src/shipedit.c:2013-2014 | only indices 1..4 select a material, the one with index minus one |
| Editor.PickSelectsMaterial | src/shipedit.c:726-736 | picking a pixel of material 0..3 selects that material; the unindexed material (7) and indices 4..6 select none |
| Editor.PreviewPickInverse | src/shipedit.c:2004-2011 | a click on the 256×256 preview picks quadrant 1..4 and in-quadrant coordinates that give the click back |
| Editor.NextSlot | src/shipedit.c:2628 | the next slot is below MAX_SLOTS |
| Editor.PreviousSlot | src/shipedit.c:2630 | the previous slot is below MAX_SLOTS |
| Editor.SlotCycle | src/shipedit.c:2626-2631 | left and right clicks undo each other, and left advances by one with a wrap from 39 to 0 |
| Editor.ClampSlotEscapes | src/shipedit.c:2356 | the clamp as written stores 40 for requests of 40 and 1000 |
| Editor.ClampSlot | src/shipedit.c:2355-2357 | the clamped slot is below MAX_SLOTS, equals the request when valid, and is the last slot otherwise |
| Editor.Split | src/shipedit.c:2061-2077 | splitting at commas gives at least one field |
| Editor.StripSpaces | src/shipedit.c:2049-2051 | a stripped field does not start with a space |
| Editor.ShipsLineRoundTrip | src/shipedit.c:2046-2092 | a line built from a name, title and slug with commas parses back to that team |
| Editor.SplitNoComma | src/shipedit.c:2061-2077 | text without a comma is one field |
| Editor.SplitJoin | src/shipedit.c:2061-2077 | a comma-free field, a comma, and more text split into that field followed by the rest's fields |
| Editor.SplitFrom | src/shipedit.c:2061-2077 | the fields from a position are the text up to the next comma followed by the fields after it |
| Editor.SkipSpaces | src/shipedit.c:2049-2051 | skipping leading spaces gives the stripped field |
| Editor.ScanField | src/shipedit.c:2049-2077 | one scan skips the leading spaces and stops at the next comma or the end |
| Editor.NextField | src/shipedit.c:2061-2077 | the scanned field is the next split field, and the scan ends after a comma or at the end |
| Editor.FieldStep | src/shipedit.c:2061-2077 | taking one field keeps "fields so far plus the rest is the whole split" |
| Editor.ParseShipsLine | src/shipedit.c:2046-2092 | the parse returns exactly the specified result: a team from the first three stripped fields, or a failure |
| Editor.SplitParts | src/shipedit.c:2061-2081 | collects up to three stripped fields, the same as the first fields of the specification |
| Editor.NextPart | src/shipedit.c:2049-2077 | one loop turn yields the next stripped field and keeps the split invariant |
| Editor.LoopExit | src/shipedit.c:2079-2081 | after the loop the fields collected are the first fields of the line, and fewer than three means the line has fewer |
| UndoStack.Material.constructor | src/shipedit.c:696-697 | a material owns a fresh, zeroed pixel array of width×height |
| UndoStack.SnapshotOf | src/shipedit.c:497-505 | a snapshot is found exactly when the step already saved the material, and it is one of the step's saves |
| UndoStack.SaveIdempotent | src/shipedit.c:497-505 | saving the same material twice in a step keeps the first snapshot |
| UndoStack.SaveRecordsFirst | src/shipedit.c:489-517 | with no open step a save does nothing; otherwise only the top step changes and it then holds the material's first snapshot |
| UndoStack.SaveKeepsStepOk | src/shipedit.c:507-516 | adding a snapshot of a new material keeps a step's materials distinct |
| UndoStack.Recorded | src/shipedit.c:497-505 | the list walk reports whether the material was already saved in the step |
| UndoStack.CopyInto | src/shipedit.c:528 | the material's pixels become the snapshot |
| UndoStack.Undo.constructor | src/shipedit.c:222-224 | a fresh undo stack is empty |
| UndoStack.Undo.Push | src/shipedit.c:479-487 | pushes a new empty step with the label on top |
| UndoStack.Undo.SaveMaterialPixels | src/shipedit.c:489-517 | the stack becomes the specified save: top step records the material's first snapshot |
| UndoStack.Undo.UndoLast | src/shipedit.c:519-545 | on a non-empty stack pops the top step and restores every material it saved to its snapshot; an empty stack stays empty |
| UndoStack.Undo.Clear | src/shipedit.c:547-571 | the stack ends empty |
| Xtea.SubAdd | src/shipedit.c:1630-1632 | subtraction modulo 2^32 undoes addition |
| Xtea.UnroundRound | src/shipedit.c:1630-1632 | each Feistel round is undone by its inverse round |
| Xtea.DecipherEncipher | src/shipedit.c:1618-1637 | deciphering the n-round encipherment with the same key gives the block back |
| Xtea.Xtea8Injective | src/shipedit.c:1618-1637 | different blocks encipher to different blocks under one key |
| Xtea.RoundStep | src/shipedit.c:1629-1633 | one more loop turn is one more round |
| Xtea.RoundOnce | src/shipedit.c:1630-1632 | the loop body computes one round and adds delta to the sum |
| Xtea.Rounds | src/shipedit.c:1627-1633 | the loop computes the specified number of rounds |
| Xtea.Xtea8InPlace | src/shipedit.c:1618-1637 | the two words are replaced by their eight-round encipherment |
| SceneMeta.XorWord | src/shipedit.c:1674-1679 | XORs one keystream word into the record's word i |
| SceneMeta.XorBytes | src/shipedit.c:1679 | XORs four key bytes into the record at a position |
| SceneMeta.XorByte | src/shipedit.c:1679 | XORs one byte and leaves the others alone |
| SceneMeta.KeyWordFor | src/shipedit.c:1675-1678 | the key word for word i is the XTEA encipherment of the CRC and i |
| SceneMeta.KeyStep | src/shipedit.c:1673-1680 | one loop turn extends the keyed part of the record by one word |
| SceneMeta.KeyedStep | src/shipedit.c:1673-1680 | XORing word i's key keeps the CRC and extends the keyed prefix |
| SceneMeta.ApplyKeystream | src/shipedit.c:1673-1680 | the record ends equal to the XOR layer of the old record |
| SceneMeta.PixelOf | src/shipedit.c:1692-1693 | the pixel of bit k is at the specified position |
| SceneMeta.PaintByte | src/shipedit.c:1686-1698 | painting a byte paints its eight bits |
| SceneMeta.PaintBit | src/shipedit.c:1695-1698 | painting a bit sets its pixel to the bit's colour |
| SceneMeta.PaintBits | src/shipedit.c:1686-1714 | the canvas ends with every record bit painted |
| SceneMeta.ReadByte | src/shipedit.c:1699-1711 | reading a byte's eight pixels gives the specified byte and leaves the others alone |
| SceneMeta.ReadBit | src/shipedit.c:1699-1711 | reading one pixel sets the specified bit and follows the reference value of a one |
| SceneMeta.ByteReadStep | src/shipedit.c:1699-1711 | each bit read ORs one more bit into the byte |
| SceneMeta.ReadBits | src/shipedit.c:1686-1714 | returns the specified decode of the painted area |
| SceneMeta.FindTeam | src/shipedit.c:1729-1740 | returns the first team whose name matches, or the team count when none does |
| SceneMeta.MetaWrite | src/shipedit.c:1661-1714 | paints the specified encrypted record of the scene |
| SceneMeta.MetaRead | src/shipedit.c:1686-1749 | succeeds exactly when the specified read restores a scene, and then the scene becomes it; otherwise the scene is unchanged |
| SceneMeta.Unlayered | src/shipedit.c:1716-1724 | returns the read record with the XOR layer removed |
| SceneMeta.RestoreFields | src/shipedit.c:1742-1749 | copies the record's fields and the found team into the scene |
| SceneMeta.MetaPngIo | src/shipedit.c:1639-1756 | writing paints the record and keeps the scene; reading keeps the image, succeeds as specified and then restores the scene |
| SceneMeta.SaveThenLoad | src/shipedit.c:1639-1756 | writing then reading a screenshot restores the scene, with the first team of the same name and the slot's low byte |
| SceneMetaSpec.NameField | src/shipedit.c:1663 | the team name field is 16 bytes, as strncpy fills it |
| SceneMetaSpec.SlotByte | src/shipedit.c:1670 | the saved slot is stored as its low byte |
| SceneMetaSpec.Plain | src/shipedit.c:1661-1671 | the record before the CRC is 44 bytes |
| SceneMetaSpec.Packed | src/shipedit.c:1661-1672 | the full record is 48 bytes |
| SceneMetaSpec.XorLayer | src/shipedit.c:1673-1680 | the XOR layer keeps the first word and the CRC unencrypted |
| SceneMetaSpec.XorLayerInvolution | src/shipedit.c:1673-1724 | applying the XOR layer twice gives the record back |
| SceneMetaSpec.PosInside | src/shipedit.c:1692-1693 | each bit's pixel lies in the 8-row, 108-column band that starts at row 152, column 138 |
| SceneMetaSpec.SlotOf | src/shipedit.c:1692-1693 | a pixel of the band names the bit painted there |
| SceneMetaSpec.SlotOfPos | src/shipedit.c:1692-1693 | the pixel of bit k names bit k |
| SceneMetaSpec.PositionsDistinct | src/shipedit.c:1692-1693 | different bits are painted at different pixels |
| SceneMetaSpec.PositionsInScreenshot | src/shipedit.c:1692-1693 | every bit lies inside a 256×256 screenshot |
| SceneMetaSpec.LowColour | src/shipedit.c:1695-1698 | a one bit paints a pixel whose low byte is 0x0F, a zero bit 0xFF |
| SceneMetaSpec.PaintedUpTo | src/shipedit.c:1686-1698 | painting keeps the canvas size |
| SceneMetaSpec.Painted | src/shipedit.c:1686-1714 | painting the whole record keeps the canvas size |
| SceneMetaSpec.PaintStep | src/shipedit.c:1695-1698 | painting one more bit sets exactly its pixel |
| SceneMetaSpec.PaintedCarries | src/shipedit.c:1686-1698 | every bit's pixel shows its colour, and pixels outside the band are unchanged |
| SceneMetaSpec.BitReadCarried | src/shipedit.c:1699-1711 | with the sync bit set, each pixel reads back as the bit painted there |
| SceneMetaSpec.ByteReadCarried | src/shipedit.c:1699-1711 | each partly read byte is the prefix of the painted byte |
| SceneMetaSpec.ReadCarried | src/shipedit.c:1686-1714 | the pixels read back as the painted record |
| SceneMetaSpec.FirstTeam | src/shipedit.c:1729-1740 | the first team whose name matches, every earlier one not matching; none when no team matches |
| SceneMetaSpec.MetaBytes | src/shipedit.c:1661-1680 | the encrypted record is 48 bytes |
| SceneMetaSpec.NameReadsBack | src/shipedit.c:1663 | a short NUL-free name stored in the name field reads back as the same C string |
| SceneMetaSpec.PackedFields | src/shipedit.c:1661-1672 | the packed record holds the sync byte, the name, the five floats, the ortho flag, the slot byte and the CRC at their offsets |
| SceneMetaSpec.PackedRestores | src/shipedit.c:1742-1749 | restoring a record gives back its floats, ortho flag and slot byte |
| SceneMetaSpec.WriteThenRead | src/shipedit.c:1639-1756 | reading the painted record of a scene restores it, with the first team of the same name and the slot's low byte |
| SceneMetaSpec.WrittenSyncBit | src/shipedit.c:1663 | the written record's sync bit is set |
| SceneMetaSpec.UnlayerWritten | src/shipedit.c:1716-1724 | removing the XOR layer from the written record gives the packed record |
| SceneMetaSpec.DecodesPainted | src/shipedit.c:1686-1714 | painting then reading gives the record back |
| SceneMetaSpec.ReadPacked | src/shipedit.c:1726-1749 | the packed record passes the CRC check, names its team, and restores the scene |
| ShipDat.LoadShipdat | src/shipedit.c:573-615 | fails exactly when the buffer does not hold the block; otherwise returns the block's palette and each pixel's palette colour |
| ShipDat.ReadWord | src/shipedit.c:590-592 | reads the little-endian word at an offset |
| ShipDat.WriteWord | src/shipedit.c:1896 | stores a word at an offset |
| ShipDat.FindInPalette | src/shipedit.c:1887-1892 | returns the first palette entry in use holding the pixel, or none |
| ShipDat.OrIndex | src/shipedit.c:1903-1904 | ORs the pixel's index into its nibble, high for even x and low for odd x |
| ShipDat.AddEntry | src/shipedit.c:1894-1901 | appends the pixel to the palette and reports overflow when it is the 17th colour |
| ShipDat.EncodePixel | src/shipedit.c:1885-1904 | one pixel advances the buffer by one encoding step |
| ShipDat.EncodeRow | src/shipedit.c:1884-1905 | one row advances the buffer by 128 encoding steps, or stops at overflow |
| ShipDat.EncodeImage | src/shipedit.c:1864-1909 | succeeds exactly when the image has at most 16 colours, and the buffer holds the specified encoding |
| ShipDatSpec.Nibble | src/shipedit.c:600-606 | a nibble is a palette index below 16 |
| ShipDatSpec.Palette | src/shipedit.c:589-593 | the palette has 16 entries |
| ShipDatSpec.PixelIndex | src/shipedit.c:600-606 | each pixel's index is below 16 |
| ShipDatSpec.ColumnParity | src/shipedit.c:600-602 | pixel (y, x) lies in byte y·64+x/2, and its parity is that of x |
| ShipDatSpec.LengthCheckTooWeak | src/shipedit.c:576-579 | the check as written accepts a buffer of 8224 bytes for block 0, which does not hold the block |
| ShipDatSpec.LengthCheckCorrected | src/shipedit.c:576-596 | every buffer holding the block passes the check as written, and the check accepts a short buffer exactly when it is at most 64 bytes short |
| ShipDatSpec.FindEntry | src/shipedit.c:1887-1892 | the first matching entry, every earlier one different; none when no entry matches |
| ShipDatSpec.Encoded | src/shipedit.c:1883-1906 | indices are 4-bit; without overflow one index per pixel and at most 16 colours |
| ShipDatSpec.DistinctCard | src/shipedit.c:1894-1896 | a palette of distinct colours has as many colours as entries |
| ShipDatSpec.EntriesAppend | src/shipedit.c:1895-1896 | appending a colour adds it to the palette's colours |
| ShipDatSpec.EncodedInvariant | src/shipedit.c:1883-1906 | the palette holds distinct colours, exactly the image's colours so far, and each index selects its pixel's colour |
| ShipDatSpec.EncodeStepInv | src/shipedit.c:1885-1904 | one encoding step keeps that invariant |
| ShipDatSpec.StepFound | src/shipedit.c:1887-1892 | a known colour reuses its index and keeps the invariant |
| ShipDatSpec.StepNew | src/shipedit.c:1894-1901 | a new colour is appended and keeps the invariant |
| ShipDatSpec.EncodeOverflowIff | src/shipedit.c:1894-1900 | encoding overflows exactly when the image has more than 16 colours |
| ShipDatSpec.OrNibbles | src/shipedit.c:1903-1904 | ORing the nibbles keeps the buffer size |
| ShipDatSpec.PutWord | src/shipedit.c:1896 | storing a word keeps the buffer size |
| ShipDatSpec.PutWords | src/shipedit.c:1896 | storing the palette keeps the buffer size |
| ShipDatSpec.EncodedBuffer | src/shipedit.c:1871-1904 | the encoded buffer keeps its size |
| ShipDatSpec.PutWordsEntry | src/shipedit.c:1896 | each stored palette entry reads back as its colour |
| ShipDatSpec.OrNibblesAt | src/shipedit.c:1904 | each image byte is the old byte ORed with its two pixels' nibbles |
| ShipDatSpec.EncodedPixelIndex | src/shipedit.c:1903-1904 | over a zeroed image, each decoded index is the index the encoder chose |
| ShipDatSpec.EncodedPaletteEntry | src/shipedit.c:1896 | each encoded palette entry reads back |
| ShipDatSpec.OverflowSticks | src/shipedit.c:1897-1899 | once the palette overflows, encoding stops |
| ShipDatSpec.ShipdatRoundTrip | src/shipedit.c:1864-1909 | loading an image encoded into a zeroed block gives every pixel back |
| ShipDatSpec.EncodeAsWritten | src/shipedit.c:1883-1906 | the encoder as written searches all 16 palette slots, in use or not |
| ShipDatSpec.FindInSlots | src/shipedit.c:1887-1892 | with the unused slots zero, the search of all 16 slots for a colour other than 0 finds exactly what the search of the palette in use finds |
| ShipDatSpec.AgreesStep | src/shipedit.c:1885-1901 | one pixel keeps the encoder as written in step with the corrected one, for a colour other than 0 |
| ShipDatSpec.AsWrittenAgrees | src/shipedit.c:1883-1906 | on pixels none of which is 0, encoding into zeroed slots as written gives the same indices and overflow as the corrected encoder, with the slots in use equal to its palette |
| ShipDatSpec.AsWrittenRoundTrip | src/shipedit.c:1864-1909 | an image of at most 16 colours with no 0 pixel, encoded as written into a zeroed block, does not overflow and loads back pixel for pixel |
| ShipDatSpec.ZeroPixelAliases | src/shipedit.c:1887-1896 | as written, a zero pixel followed by a new colour encodes the zero pixel as the new colour; the corrected encoder keeps them apart |
| SaveSkin.LeBytesRead | src/saveskin.c:165 | a length stored little-endian reads back |
| SaveSkin.CStringSame | src/saveskin.c:158-159 | a key is unchanged when the bytes up to its NUL are |
| SaveSkin.SlotOf | src/saveskin.c:156-161 | an index entry's length field lies in the index table and its data region inside the image |
| SaveSkin.Table | src/saveskin.c:154-158 | the image has one record per index entry, each inside the image |
| SaveSkin.TableAt | src/saveskin.c:157-158 | entry i of the table is the record read from index entry i |
| SaveSkin.TableSeparate | src/saveskin.c:143-149 | the length fields lie in the index table, before every data region and in order |
| SaveSkin.Filled | src/saveskin.c:163-165 | one entry's update keeps the image size |
| SaveSkin.Apply | src/saveskin.c:157-169 | the updates of the first n entries keep the image size |
| SaveSkin.ApplyFrame | src/saveskin.c:157-169 | a byte no selected entry writes is left unchanged |
| SaveSkin.FilledEntry | src/saveskin.c:163-165 | an updated entry's length field holds the new length and its region the zero-padded value |
| SaveSkin.ApplyStep | src/saveskin.c:159-166 | a selected entry's turn applies its update |
| SaveSkin.WrittenLen | src/saveskin.c:165 | a selected entry's length field holds strlen(value)+1 after the loop |
| SaveSkin.WrittenRegion | src/saveskin.c:163-164 | a selected entry's region holds the padded value after the loop, unless a later selected entry overlaps it |
| SaveSkin.SetKeyUpTo | src/saveskin.c:157-169 | the update of the first n entries keeps the image size |
| SaveSkin.Untouched | src/saveskin.c:157-169 | the update leaves the header and the index table, except the length fields, unchanged |
| SaveSkin.TableKept | src/saveskin.c:157-169 | so the table read after an update is the table read before |
| SaveSkin.SetKey | src/saveskin.c:151-170 | the update keeps the image size |
| SaveSkin.SetKeyTable | src/saveskin.c:151-170 | the updated image keeps its layout and its table |
| SaveSkin.SetKeyLength | src/saveskin.c:165 | a selected entry's length becomes strlen(value)+1 |
| SaveSkin.SetKeyRegion | src/saveskin.c:160-166 | a selected entry's data region becomes the value padded with NULs, unless a later selected entry overlaps it |
| SaveSkin.SetKeyFrame | src/saveskin.c:157-169 | bytes outside every selected entry's region and length field are unchanged |
| SaveSkin.SetKeyNoMatch | src/saveskin.c:159-162 | with no entry whose key, format and capacity fit, the image is unchanged |
| SaveSkin.FillData | src/saveskin.c:163-164 | the region is zeroed and receives the value |
| SaveSkin.StoreU32 | src/saveskin.c:165 | the length field receives the value little-endian |
| SaveSkin.FillEntry | src/saveskin.c:161-165 | the entry's region and length field are updated as specified |
| SaveSkin.ReadEntry | src/saveskin.c:158-161 | reads the entry's record from the image being updated, the same as before the update |
| SaveSkin.VisitedAll | src/saveskin.c:157 | after the last entry the image is the specified update |
| SaveSkin.SetKeyEntry | src/saveskin.c:158-168 | one loop turn handles entry i as specified |
| SaveSkin.ParamSfoSetKey | src/saveskin.c:151-170 | the image ends equal to the specified key update |
| SaveSkin.IntOfSize | src/saveskin.c:119 | a size converted to int is a 32-bit value, and is the size when it fits |
| SaveSkin.SizeOfInt | src/saveskin.c:128 | a non-negative int converted to size_t keeps its value modulo 2^64 |
| SaveSkin.SaveskinDecrypt | src/saveskin.c:106-130 | a plaintext save of 24816 bytes succeeds unchanged with length 24800; otherwise the result is the decryptor's status and buffer, and a failure leaves the length |
| SaveSkin.PlainIgnoresDecryptor | src/saveskin.c:113-117 | for a plaintext save the decryptor is never consulted |
| SaveSkin.DecryptedLength | src/saveskin.c:119-129 | a successful decryption returns the decryptor's buffer and length |
| SaveSkin.Ascii | src/saveskin.c:219-222 | the bytes of an ASCII text are its character codes |
| SaveSkin.AsciiNoNul | src/saveskin.c:219-222 | an ASCII text without NUL gives bytes without NUL |
| SaveSkin.Decimal | src/saveskin.c:219-222 | a number prints as at least one decimal digit |
| SaveSkin.DecimalValue | src/saveskin.c:219-222 | the printed digits spell the number |
| SaveSkin.DecimalShort | src/saveskin.c:219-222 | a number below 10^k prints in at most k digits |
| SaveSkin.DecimalLong | src/saveskin.c:219-222 | a number of at least 10^(k-1) prints in at least k digits |
| SaveSkin.Pad4Value | src/saveskin.c:181 | %04d spells the slot and is exactly four digits when the slot is below 10000 |
| SaveSkin.FolderName | src/saveskin.c:181 | the folder name is the prefix followed by the padded slot |
| SaveSkin.FolderNameReads | src/saveskin.c:181 | the folder name is "UCES00465DTEAMSKIN" followed by digits spelling the slot, 22 bytes exactly when the slot is below 10000 |
| SaveSkin.FolderNameInjective | src/saveskin.c:181 | different slots get different folders |
| SaveSkin.FolderNameNoNul | src/saveskin.c:181 | the folder name has no NUL |
| SaveSkin.DetailText | src/saveskin.c:219-222 | the detail text is the team line, the slot line and the credit line |
| SaveSkin.DetailTextReads | src/saveskin.c:219-222 | the detail text starts with "Team: " and the team name, and its slot line spells slot+1 |
| SaveSkin.DetailTextInjective | src/saveskin.c:219-222 | for one team, different slots give different detail texts |
| SaveSkin.DetailTextNoNul | src/saveskin.c:219-222 | a NUL-free team name gives a NUL-free detail text |
| SaveSkin.SavedParamSfo | src/saveskin.c:213-229 | the three key updates keep the template's layout and table |
| SaveSkin.SavedLast | src/saveskin.c:228 | the directory update is applied last |
| SaveSkin.SavedDirectory | src/saveskin.c:228 | the directory entry ends holding the folder name padded with NULs |
| SaveSkin.SavedDirectoryLength | src/saveskin.c:228 | the directory entry's length ends as the folder name's length plus one |
| SaveSkin.SaveParamSfo | src/saveskin.c:213-229 | the template ends with the title, the detail text of the buffer's team name and slot, and the folder name applied, as specified |

## Left out

- zlib inflation and CRC-32 are function parameters. Their results are taken as given, and
  only their use is modelled.
- The filesystem is also a function parameter (`Env.disk`). File reads cannot fail half way.
- The name hash in `read_wad_file` is also a function parameter.
- `decrypt_data` and the key it uses are a `Decryptor` parameter. The model keeps the
  `size_t` to `int` round trip of the length; no cryptography of the save itself is
  modelled.
- `saveskin_save` writes files, creates directories, calls the icon callback and runs the
  encryption tool; none of that is modelled. Its PARAM.SFO updates are modelled as
  `SaveSkin.SaveParamSfo`.
- `saveskin_load` and the rest of `saveskin.c` beyond the decrypt short cut and the save's
  key updates are not part of this model.
- LzSpec.Decode: the lookback window starts zero-filled. The C code leaves it uninitialised,
  so a back-reference into unwritten window bytes is defined here and undefined there.
- LzSpec.Decode: running out of input is an error. The C code reads past the end of the
  buffer.
- LzSpec.Decode: a back-reference longer than the remaining output is an error. The C code
  underflows its unsigned counter.
- Wad.EntryAt: an entry whose record or payload lies outside the image is reported as a
  corrupt archive. The C code does not check and reads out of bounds.
- Wad.SplitLines: the end of the buffer ends the last line. The C code relies on a NUL after
  the buffer.
- SaveSkin.Layout: this is the memory-safety condition for `param_sfo_set_key`. It requires
  that:
  - every index entry, key and data region lies inside the image;
  - each entry's length field lies before its region.

  The C code trusts the template.
- SaveSkin.SetKeyRegion: when two selected entries with the same key have overlapping data
  regions, the later write wins. The lemma states the region only when no later selected
  entry overlaps it.
- SaveSkin.SavedDirectory: only the directory entry's content is proved after all three
  updates. The title and detail regions could, in a template with overlapping regions, be
  overwritten by the later updates, so their final content is not stated.
- SaveSkin.SaveParamSfo: the slot is a `nat`. A negative slot, which `%04d` would print with
  a sign, is not modelled.
- The PARAM.SFO fields are read little-endian, as on the PSP and x86 hosts the tool runs on.
- Floating-point fields of the scene record are carried as their 32-bit patterns. No float
  arithmetic is modelled.
- Editor.StrCmpZeroIff: `strcmp` is modelled on NUL-free byte strings only.
- SceneMeta.FindTeam: the "Unknown team" message and every other `printf` are left out.
- OpenGL drawing and uploads, the SDL event loop outside the slot buttons, the layout code,
  the native file dialogs and the ship model parser are not modelled. They drive the GPU
  and the UI, not data.
- UndoStack.Undo.UndoLast: the re-upload of each restored material to the GPU is left out.
- `fail()` comes from `src/util.h`, which is not part of this model. It is taken to report
  and abort, as the code after each call assumes. The members below return an error value
  where the program calls it.
- ShipDat.LoadShipdat: implements the corrected length check of the second finding, refusing
  (null) any buffer shorter than the whole block. The program as written checks a length 64
  bytes short (`ShipDatSpec.LengthCheckAsWritten`, `ShipDatSpec.LengthCheckTooWeak`), and
  below that calls `fail()`, which aborts the program rather than returning to the caller.
- ShipDat.FindInPalette: implements the corrected search of the first finding, over the
  palette entries in use. `ShipDat.EncodePixel`, `ShipDat.EncodeRow` and `ShipDat.EncodeImage`
  build on it, so they encode as the corrected encoder does. The program searches all 16
  slots; that encoder is `ShipDatSpec.EncodeAsWritten`, proved to agree with the corrected one
  on images without a 0 pixel (`ShipDatSpec.AsWrittenAgrees`) and shown to differ otherwise
  (`ShipDatSpec.ZeroPixelAliases`).
- Wad.Extract: an invalid zlib header and a failed inflate are returned as
  `ArchiveFailed(InvalidZlibHeader)` and `ArchiveFailed(ZlibFailed)`. The program calls
  `fail()` there, which aborts; the error values mark where it stops.
- Wad.FileStore.ReadWadFile: returns the same error values as `Wad.Extract` where the
  program aborts through `fail()`.
- Wad.FileStore.ReadFile: an archive failure becomes `FileFailed`. The program aborts there;
  a short read from disk, on which it also aborts, cannot occur in the model.
- Wad.FileStore.ParseFileLines: for a file that cannot be read it returns None. The program
  then works on a NULL buffer with an unset length, which is undefined behaviour.
- Editor.ParseShipsLine: a line without three fields is returned as `Malformed`. The program
  calls `fail()` there and aborts.
- SaveSkin.SaveskinDecrypt: requires at least 16 bytes. The program compares bytes 8 to 15
  of a buffer of any length, reading out of bounds when the save is shorter.
- UndoStack.Material: the pixel array is fixed for the material's life. The program replaces
  it when a skin is loaded, just after saving it for undo; undo then restores into the new
  array, which the modelled operations do not distinguish.
- Fontaine.LoadByName: the font file is required to be well formed: the header, the index,
  the glyph records and the pixel data all lie inside the buffer. The C code trusts it.

## Findings

| source | as written | input that shows it | evidently intended | confidence | as-written member | corrected member |
|---|---|---|---|---|---|---|
| src/shipedit.c:1887-1896 | the palette search in `encode_image` looks at all 16 slots, including slots not yet in use | the image's first two pixels are 0 and 0xFF0000FF, and the palette area starts zeroed: the 0 pixel matches empty slot 0, then 0xFF0000FF is stored into slot 0 too, so both pixels decode as 0xFF0000FF | search only the `palette_size` slots in use | not executed | ShipDatSpec.ZeroPixelAliases | ShipDatSpec.ShipdatRoundTrip |
| src/shipedit.c:576-579 | `load_shipdat` checks the buffer against a block size that leaves out the 64-byte palette | buffer length 8224, block index 0: the check passes, but the image data reaches byte 8288 | require `32 + index*8256 + 64 + 8192` bytes | not executed | ShipDatSpec.LengthCheckTooWeak | ShipDatSpec.LengthCheckCorrected |
| src/shipedit.c:2356 | the command-line slot is clamped to `MAX_SLOTS` itself, one past the last slot | slot request 40 (or any larger): the scene's save slot becomes 40, and the slot buttons then wrap it to 1 or 39 | clamp to `MAX_SLOTS - 1` | not executed | Editor.ClampSlotEscapes | Editor.ClampSlot |
