/**
 * The archive-backed file store: WAD images mounted most recent first, lookup of a file
 * by the CRC-32 of its name (first matching entry of the first image that has one), the
 * three-way codec dispatch of an entry (raw copy, zlib, the LZ77 codec), the fallback to
 * the filesystem, and the splitting of a text file into lines.
 *
 * A WAD image starts with a header (u32 version, u32 entry count) followed by 16-byte
 * entries (u32 name hash, u32 start offset, u32 length, u32 compressed length), all
 * little-endian. CRC-32, zlib's inflate and the filesystem are parameters (Env).
 */
module Wad {
  import opened Common
  import opened LzSpec
  import LzDecoder

  const HEADER_SIZE: nat := 8
  const ENTRY_SIZE: nat := 16
  /** The high bit of an entry's length marks a zlib stream. */
  const ZLIB_FLAG: nat := 0x8000_0000
  /** The CMF byte every accepted zlib stream starts with: deflate, 32K window. */
  const ZLIB_CMF: bv8 := 0x78
  /** The seed the file store passes to crc32 when hashing a name. */
  const NAME_CRC_SEED: bv32 := 0xFFFF_FFFF

  /**
   * What the store uses from outside: zlib's crc32(seed, bytes); inflate of a compressed
   * stream into an output of the given capacity, None unless it reaches the stream end;
   * and the filesystem, a file's whole contents or None when it cannot be opened.
   */
  datatype Env = Env(
    crc32: (bv32, Bytes) -> bv32,
    inflate: (Bytes, nat) -> Option<Bytes>,
    disk: Bytes -> Option<Bytes>)

  datatype WadEntry = WadEntry(name: nat, startOffset: nat, length: nat, compressedLength: nat)

  /** A mounted image and the file name it was read from. */
  datatype MountedWad = MountedWad(filename: Bytes, image: Bytes)

  datatype ArchiveError =
    | TruncatedTable          // the header or an entry lies past the end of the image
    | EntryOutOfBounds        // an entry's payload lies past the end of the image
    | InvalidZlibHeader       // a zlib entry not starting with 0x78
    | ZlibFailed              // inflate did not end the stream with exactly the announced length
    | LzFailed(error: DecodeError)

  /** The outcome of read_wad_file: not in any mounted image, the entry's bytes, or a failure. */
  datatype WadRead = NotInArchive | Extracted(data: Bytes) | ArchiveFailed(error: ArchiveError)

  /** The outcome of read_file. */
  datatype FileRead = FileData(data: Bytes) | FileMissing | FileFailed(error: ArchiveError)

  // ---------------------------------------------------------------- the entry table

  function EntryCount(image: Bytes): nat
    requires HEADER_SIZE <= |image|
  {
    U32At(image, 4)
  }

  predicate EntryInImage(image: Bytes, i: nat) {
    HEADER_SIZE + ENTRY_SIZE * (i + 1) <= |image|
  }

  /** Entry `i` of the table, decoded from its four little-endian words. */
  function EntryAt(image: Bytes, i: nat): (e: WadEntry)
    requires EntryInImage(image, i)
    ensures e.name < 0x1_0000_0000 && e.length < 0x1_0000_0000
  {
    var o := HEADER_SIZE + ENTRY_SIZE * i;
    WadEntry(U32At(image, o), U32At(image, o + 4), U32At(image, o + 8), U32At(image, o + 12))
  }

  /** Where the scan of one image for a name hash stops. */
  datatype Scan = NoMatch | Match(index: nat) | Truncated

  /** Entries i, i + 1, ... of the table searched in order for the first one named `name`. */
  function ScanEntries(image: Bytes, name: nat, i: nat): (r: Scan)
    requires HEADER_SIZE <= |image|
    ensures r.Match? ==>
      i <= r.index < EntryCount(image) && EntryInImage(image, r.index) && EntryAt(image, r.index).name == name
    ensures r.Match? || r.Truncated? ==>
      (forall j :: i <= j < EntryCount(image) && EntryInImage(image, j) && EntryAt(image, j).name == name ==>
        r.Match? && r.index <= j)
    ensures r.NoMatch? <==>
      (forall j :: i <= j < EntryCount(image) ==> EntryInImage(image, j) && EntryAt(image, j).name != name)
    decreases EntryCount(image) - i
  {
    if i >= EntryCount(image) then NoMatch
    else if !EntryInImage(image, i) then Truncated
    else if EntryAt(image, i).name == name then Match(i)
    else ScanEntries(image, name, i + 1)
  }

  /** The scan of a whole image: its table from entry 0, or Truncated without a full header. */
  function ScanImage(image: Bytes, name: nat): Scan {
    if |image| < HEADER_SIZE then Truncated else ScanEntries(image, name, 0)
  }

  // ---------------------------------------------------------------- the chain of images

  datatype Lookup = Missing | Found(wad: nat, index: nat) | Broken(wad: nat)

  /**
   * The search of read_wad_file over the images from position k on, most recently mounted
   * first: the first image whose scan does not come up empty decides.
   */
  function LookupFrom(chain: seq<MountedWad>, name: nat, k: nat): (r: Lookup)
    ensures r.Found? ==> k <= r.wad < |chain| && ScanImage(chain[r.wad].image, name) == Match(r.index)
    ensures r.Broken? ==> k <= r.wad < |chain| && ScanImage(chain[r.wad].image, name) == Truncated
    ensures r.Found? || r.Broken? ==> forall j :: k <= j < r.wad ==> ScanImage(chain[j].image, name) == NoMatch
    ensures r.Missing? <==> forall j :: k <= j < |chain| ==> ScanImage(chain[j].image, name) == NoMatch
    decreases |chain| - k
  {
    if k >= |chain| then Missing
    else
      match ScanImage(chain[k].image, name)
      case Match(i) => Found(k, i)
      case Truncated => Broken(k)
      case NoMatch => LookupFrom(chain, name, k + 1)
  }

  /** The result of a lookup in a chain with one more image at its head, positions shifted by one. */
  function Shifted(r: Lookup): Lookup {
    match r
    case Missing => Missing
    case Found(w, i) => Found(w + 1, i)
    case Broken(w) => Broken(w + 1)
  }

  lemma {:induction false} LookupShift(w: MountedWad, chain: seq<MountedWad>, name: nat, k: nat)
    ensures LookupFrom([w] + chain, name, k + 1) == Shifted(LookupFrom(chain, name, k))
    decreases |chain| - k
  {
    var c := [w] + chain;
    if k < |chain| {
      assert c[k + 1] == chain[k];
      if ScanImage(chain[k].image, name).NoMatch? {
        LookupShift(w, chain, name, k + 1);
      }
    }
  }

  /**
   * mount_wad prepends, so a newly mounted image shadows every older one: the lookup in the
   * new chain is decided by the new image unless it has no entry of that name, and is
   * otherwise the old lookup, one position further down.
   */
  lemma MountShadows(w: MountedWad, chain: seq<MountedWad>, name: nat)
    ensures LookupFrom([w] + chain, name, 0) ==
      match ScanImage(w.image, name)
      case Match(i) => Found(0, i)
      case Truncated => Broken(0)
      case NoMatch => Shifted(LookupFrom(chain, name, 0))
  {
    var c := [w] + chain;
    assert c[0] == w;
    if ScanImage(w.image, name).NoMatch? {
      assert LookupFrom(c, name, 0) == LookupFrom(c, name, 1);
      LookupShift(w, chain, name, 0);
    }
  }

  // ---------------------------------------------------------------- codec dispatch

  predicate IsRaw(e: WadEntry) {
    e.length == e.compressedLength
  }

  /** The number of bytes an entry reads as: its length, without the zlib flag unless it is raw. */
  function OutputLength(e: WadEntry): nat {
    if IsRaw(e) then e.length else e.length % ZLIB_FLAG
  }

  predicate IsZlib(e: WadEntry) {
    !IsRaw(e) && e.length >= ZLIB_FLAG
  }

  predicate IsLz(e: WadEntry) {
    !IsRaw(e) && e.length < ZLIB_FLAG
  }

  /** The stored payload of an entry: `n` bytes from its start offset. */
  function Payload(image: Bytes, e: WadEntry, n: nat): Bytes
    requires e.startOffset + n <= |image|
  {
    image[e.startOffset..e.startOffset + n]
  }

  /**
   * The bytes of an entry. Equal lengths mean a raw copy of `length` bytes; otherwise the
   * high bit of `length` selects zlib (first byte 0x78, inflate must end the stream with
   * exactly length & 0x7FFFFFFF bytes) and a clear high bit the LZ77 codec, which decodes
   * exactly `length` bytes out of `compressed_length` input bytes.
   */
  function Extract(image: Bytes, e: WadEntry, inflate: (Bytes, nat) -> Option<Bytes>): (r: WadRead)
    ensures !r.NotInArchive?
    ensures r.Extracted? ==> |r.data| == OutputLength(e)
    ensures r.Extracted? && IsRaw(e) ==> e.startOffset + e.length <= |image| && r.data == Payload(image, e, e.length)
    ensures r.Extracted? && IsZlib(e) ==> e.startOffset < |image| && image[e.startOffset] == ZLIB_CMF
    ensures r == ArchiveFailed(InvalidZlibHeader) <==>
      (IsZlib(e) && e.startOffset < |image| && e.startOffset + e.compressedLength <= |image| &&
       image[e.startOffset] != ZLIB_CMF)
  {
    if IsRaw(e) then
      if e.startOffset + e.length > |image| then ArchiveFailed(EntryOutOfBounds)
      else Extracted(Payload(image, e, e.length))
    else if e.startOffset + e.compressedLength > |image| || e.startOffset >= |image| then
      ArchiveFailed(EntryOutOfBounds)
    else if IsZlib(e) then
      if image[e.startOffset] != ZLIB_CMF then ArchiveFailed(InvalidZlibHeader)
      else Inflated(Payload(image, e, e.compressedLength), OutputLength(e), inflate)
    else Unpacked(Payload(image, e, e.compressedLength), e.length)
  }

  /** The zlib branch: the inflated stream, accepted only if it has exactly `len` bytes. */
  function Inflated(payload: Bytes, len: nat, inflate: (Bytes, nat) -> Option<Bytes>): (r: WadRead)
    ensures r.Extracted? || r == ArchiveFailed(ZlibFailed)
    ensures r.Extracted? ==> |r.data| == len
  {
    match inflate(payload, len)
    case Some(out) => if |out| == len then Extracted(out) else ArchiveFailed(ZlibFailed)
    case None => ArchiveFailed(ZlibFailed)
  }

  /** The LZ77 branch: exactly `length` bytes decoded from the payload by a fresh context. */
  function Unpacked(payload: Bytes, length: nat): (r: WadRead)
    ensures r.Extracted? || (r.ArchiveFailed? && r.error.LzFailed?)
    ensures r.Extracted? ==> |r.data| == length
  {
    match Decode(payload, 0, InitialState(), length)
    case Decoded(out) => Extracted(out)
    case DecodeFailed(err) => ArchiveFailed(LzFailed(err))
  }

  /**
   * An LZ entry whose payload is the compression of `ts`, announcing their expanded length,
   * reads back as the bytes `ts` stand for, expanded from a fresh window.
   */
  lemma LzEntryRoundTrip(image: Bytes, e: WadEntry, ts: seq<Token>, inflate: (Bytes, nat) -> Option<Bytes>)
    requires forall t :: t in ts ==> ValidToken(t)
    requires IsLz(e) && e.length == ExpandedLength(ts)
    requires e.startOffset + e.compressedLength <= |image| && e.startOffset < |image|
    requires Payload(image, e, e.compressedLength) == Compress(ts)
    ensures Extract(image, e, inflate) == Extracted(ExpandTokens(InitialState(), ts).0)
  {
    RoundTrip(ts, InitialState());
    assert Unpacked(Compress(ts), e.length) == Extracted(ExpandTokens(InitialState(), ts).0);
  }

  /** The hash under which a file name is stored. */
  function NameHash(env: Env, filename: Bytes): nat {
    env.crc32(NAME_CRC_SEED, filename) as nat
  }

  /** read_wad_file: the entry the lookup finds, extracted; a broken table is a failure. */
  function ReadWad(chain: seq<MountedWad>, env: Env, filename: Bytes): (r: WadRead)
    ensures r.NotInArchive? <==>
      forall j :: 0 <= j < |chain| ==> ScanImage(chain[j].image, NameHash(env, filename)) == NoMatch
  {
    match LookupFrom(chain, NameHash(env, filename), 0)
    case Missing => NotInArchive
    case Broken(_) => ArchiveFailed(TruncatedTable)
    case Found(w, i) => Extract(chain[w].image, EntryAt(chain[w].image, i), env.inflate)
  }

  /** read_file: the archives first, and only a name no image holds goes to the filesystem. */
  function ReadFileSpec(chain: seq<MountedWad>, env: Env, filename: Bytes): (r: FileRead) {
    match ReadWad(chain, env, filename)
    case Extracted(data) => FileData(data)
    case ArchiveFailed(err) => FileFailed(err)
    case NotInArchive =>
      match env.disk(filename)
      case Some(data) => FileData(data)
      case None => FileMissing
  }

  /**
   * A file held by a mounted image shadows the filesystem: whatever the disk holds, read_file
   * returns the archive's bytes, and it agrees with the disk only for names no image holds.
   */
  lemma ArchiveShadowsDisk(chain: seq<MountedWad>, env: Env, disk2: Bytes -> Option<Bytes>, filename: Bytes)
    ensures var env2 := env.(disk := disk2);
      ReadWad(chain, env, filename).Extracted? ==>
        ReadFileSpec(chain, env2, filename) == ReadFileSpec(chain, env, filename) ==
        FileData(ReadWad(chain, env, filename).data)
    ensures (forall j :: 0 <= j < |chain| ==> ScanImage(chain[j].image, NameHash(env, filename)) == NoMatch) ==>
      ReadFileSpec(chain, env, filename) == (if env.disk(filename).Some? then FileData(env.disk(filename).value) else FileMissing)
  {
    var env2 := env.(disk := disk2);
    assert NameHash(env2, filename) == NameHash(env, filename);
    assert ReadWad(chain, env2, filename) == ReadWad(chain, env, filename);
  }

  // ---------------------------------------------------------------- lines

  const NEWLINE: bv8 := 10

  predicate IsLineEnd(b: bv8) {
    b == NEWLINE || b == 0
  }

  /** The first '\n' or NUL at or after `from`, or the end of `s`. */
  function LineEnd(s: Bytes, from: nat): (r: nat)
    requires from <= |s|
    ensures from <= r <= |s| && (r < |s| ==> IsLineEnd(s[r]))
    ensures forall i :: from <= i < r ==> !IsLineEnd(s[i])
    decreases |s| - from
  {
    if from == |s| || IsLineEnd(s[from]) then from else LineEnd(s, from + 1)
  }

  /**
   * The lines parse_file_lines hands to its callback, in order, from position `from`: each
   * runs up to its '\n' or NUL, which it excludes; the end of the buffer ends the last one.
   */
  function Lines(s: Bytes, from: nat): (r: seq<Bytes>)
    decreases |s| - from
  {
    if from >= |s| then []
    else
      var e := LineEnd(s, from);
      [s[from..e]] + Lines(s, e + 1)
  }

  lemma {:induction false} LinesHaveNoTerminator(s: Bytes, from: nat)
    ensures forall k, i :: 0 <= k < |Lines(s, from)| && 0 <= i < |Lines(s, from)[k]| ==> !IsLineEnd(Lines(s, from)[k][i])
    decreases |s| - from
  {
    if from < |s| {
      var e := LineEnd(s, from);
      LinesHaveNoTerminator(s, e + 1);
      var ls := Lines(s, from);
      assert ls == [s[from..e]] + Lines(s, e + 1);
      forall k, i | 0 <= k < |ls| && 0 <= i < |ls[k]| ensures !IsLineEnd(ls[k][i]) {
        if k == 0 {
          assert ls[0][i] == s[from + i];
        } else {
          assert ls[k] == Lines(s, e + 1)[k - 1];
        }
      }
    }
  }

  /** Every line followed by a newline, concatenated. */
  function JoinLines(ls: seq<Bytes>): (r: Bytes)
    ensures |ls| > 0 ==> |r| > 0 && r[|r| - 1] == NEWLINE
    decreases |ls|
  {
    if ls == [] then [] else ls[0] + [NEWLINE] + JoinLines(ls[1..])
  }

  /**
   * Splitting inverts joining: a text without NULs that is empty or ends in a newline is
   * its lines joined back with newlines.
   */
  lemma {:induction false} JoinSplitLines(s: Bytes, from: nat)
    requires from <= |s| && (from < |s| ==> s[|s| - 1] == NEWLINE)
    requires forall i :: from <= i < |s| ==> s[i] != 0
    ensures JoinLines(Lines(s, from)) == s[from..]
    decreases |s| - from
  {
    if from < |s| {
      var e := LineEnd(s, from);
      assert e < |s| && s[e] == NEWLINE;
      JoinSplitLines(s, e + 1);
      var ls := Lines(s, from);
      assert ls[0] == s[from..e] && ls[1..] == Lines(s, e + 1);
      assert s[from..] == s[from..e] + [NEWLINE] + s[e + 1..];
    }
  }

  /**
   * The in-place pass of parse_file_lines over a buffer: each line's terminating '\n' is
   * overwritten with NUL and the line is handed on. The callback's calls are the returned
   * sequence, in order.
   */
  method SplitLines(buf: array<bv8>) returns (lines: seq<Bytes>)
    modifies buf
    ensures lines == Lines(old(buf[..]), 0)
    ensures forall i :: 0 <= i < buf.Length ==> buf[i] == if old(buf[i]) == NEWLINE then 0 else old(buf[i])
  {
    ghost var s := buf[..];
    var cur := 0;
    lines := [];
    while cur < buf.Length
      invariant cur <= buf.Length + 1
      invariant lines + Lines(s, cur) == Lines(s, 0)
      invariant buf[..] == Terminated(s, cur)
      decreases buf.Length + 1 - cur
    {
      var line, lineEnd := NextLine(buf, cur, s);
      assert (lines + [line]) + Lines(s, lineEnd + 1) == lines + Lines(s, cur);
      lines := lines + [line];
      cur := lineEnd + 1;
    }
    assert buf[..] == Terminated(s, cur);
  }

  /** One pass of the outer loop: find the end of the line at `cur`, take it, and terminate it. */
  method NextLine(buf: array<bv8>, cur: nat, ghost s: Bytes) returns (line: Bytes, lineEnd: nat)
    requires cur < buf.Length == |s| && buf[..] == Terminated(s, cur)
    modifies buf
    ensures lineEnd == LineEnd(s, cur) && line == s[cur..lineEnd]
    ensures Lines(s, cur) == [line] + Lines(s, lineEnd + 1)
    ensures buf[..] == Terminated(s, lineEnd + 1)
  {
    lineEnd := FindLineEnd(buf, cur, s);
    LinesStep(s, cur, lineEnd);
    line := buf[cur..lineEnd];
    assert line == s[cur..lineEnd];
    TerminateLine(buf, cur, lineEnd, s);
  }

  /** Overwrite the '\n' that ends a line with NUL; a NUL or the end of the buffer is left alone. */
  method TerminateLine(buf: array<bv8>, cur: nat, lineEnd: nat, ghost s: Bytes)
    requires cur <= lineEnd <= buf.Length == |s| && (lineEnd < |s| ==> IsLineEnd(s[lineEnd]))
    requires forall i :: cur <= i < lineEnd ==> s[i] != NEWLINE
    requires buf[..] == Terminated(s, cur)
    modifies buf
    ensures buf[..] == Terminated(s, lineEnd + 1)
  {
    if lineEnd < buf.Length {
      buf[lineEnd] := 0;
    }
    assert forall i :: 0 <= i < buf.Length ==> buf[..][i] == Terminated(s, lineEnd + 1)[i];
  }

  /** `s` with every '\n' before position `upTo` overwritten with NUL. */
  function Terminated(s: Bytes, upTo: nat): (r: Bytes)
    ensures |r| == |s|
    ensures forall i :: 0 <= i < |s| ==> r[i] == if i < upTo && s[i] == NEWLINE then 0 else s[i]
  {
    seq(|s|, i requires 0 <= i < |s| => if i < upTo && s[i] == NEWLINE then 0 else s[i])
  }

  /** The scan for the end of the line starting at `cur`, over the part of `buf` still as it was. */
  method FindLineEnd(buf: array<bv8>, cur: nat, ghost s: Bytes) returns (lineEnd: nat)
    requires cur <= buf.Length == |s| && forall i :: cur <= i < buf.Length ==> buf[i] == s[i]
    ensures lineEnd == LineEnd(s, cur)
  {
    lineEnd := cur;
    while lineEnd < buf.Length && buf[lineEnd] != NEWLINE && buf[lineEnd] != 0
      invariant cur <= lineEnd <= buf.Length
      invariant forall i :: cur <= i < lineEnd ==> !IsLineEnd(s[i])
      decreases buf.Length - lineEnd
    {
      lineEnd := lineEnd + 1;
    }
    LineEndIs(s, cur, lineEnd);
  }

  /** The lines from `from` on are the one ending at `e`, then those after its terminator. */
  lemma LinesStep(s: Bytes, from: nat, e: nat)
    requires from < |s| && e == LineEnd(s, from)
    ensures Lines(s, from) == [s[from..e]] + Lines(s, e + 1)
  {
  }

  /** The first terminator after `from` is the position a scan stops at. */
  lemma {:induction false} LineEndIs(s: Bytes, from: nat, e: nat)
    requires from <= e <= |s| && (e < |s| ==> IsLineEnd(s[e]))
    requires forall i :: from <= i < e ==> !IsLineEnd(s[i])
    ensures LineEnd(s, from) == e
    decreases e - from
  {
    if from < e {
      LineEndIs(s, from + 1, e);
    }
  }

  // ---------------------------------------------------------------- the store

  /** The process-wide chain of mounted images (g_mounted_wads), most recent first. */
  class FileStore {
    var mounted: seq<MountedWad>
    const env: Env

    constructor (env: Env)
      ensures mounted == [] && this.env == env
    {
      mounted := [];
      this.env := env;
    }

    /**
     * The codec dispatch of read_wad_file for one entry. The LZ77 branch runs the
     * decompression context over the `compressed_length` payload bytes.
     */
    method ExtractEntry(image: Bytes, e: WadEntry) returns (r: WadRead)
      ensures r == Extract(image, e, env.inflate)
    {
      if e.length == e.compressedLength {
        if e.startOffset + e.length > |image| {
          return ArchiveFailed(EntryOutOfBounds);
        }
        return Extracted(image[e.startOffset..e.startOffset + e.length]);
      }
      if e.startOffset + e.compressedLength > |image| || e.startOffset >= |image| {
        return ArchiveFailed(EntryOutOfBounds);
      }
      var payload := image[e.startOffset..e.startOffset + e.compressedLength];
      if e.length >= ZLIB_FLAG {
        if image[e.startOffset] != ZLIB_CMF {
          return ArchiveFailed(InvalidZlibHeader);
        }
        r := InflateEntry(payload, e.length % ZLIB_FLAG);
        return;
      }
      r := UnpackEntry(payload, e.length);
    }

    /** The zlib branch of read_wad_file: inflate must produce exactly `len` bytes. */
    method InflateEntry(payload: Bytes, len: nat) returns (r: WadRead)
      ensures r == Inflated(payload, len, env.inflate)
    {
      var out := env.inflate(payload, len);
      if out.None? || |out.value| != len {
        return ArchiveFailed(ZlibFailed);
      }
      return Extracted(out.value);
    }

    /** The LZ77 branch of read_wad_file: a fresh decompression context over the payload. */
    method UnpackEntry(payload: Bytes, length: nat) returns (r: WadRead)
      ensures r == Unpacked(payload, length)
    {
      var d := LzDecoder.DecompressEntry(payload, length);
      match d
      case Decoded(out) => r := Extracted(out);
      case DecodeFailed(err) => r := ArchiveFailed(LzFailed(err));
    }

    /**
     * read_wad_file: hash the name, walk the chain from the most recent image and each
     * table in order, and extract the first entry whose hash matches.
     */
    method ReadWadFile(filename: Bytes) returns (r: WadRead)
      ensures r == ReadWad(mounted, env, filename)
    {
      var name := env.crc32(NAME_CRC_SEED, filename) as nat;
      ghost var found := LookupFrom(mounted, name, 0);
      assert name == NameHash(env, filename);
      var w := 0;
      while w < |mounted|
        invariant w <= |mounted|
        invariant found == LookupFrom(mounted, name, w)
        decreases |mounted| - w
      {
        var image := mounted[w].image;
        var scan := ScanTable(image, name);
        match scan
        case Truncated =>
          assert found == Broken(w);
          return ArchiveFailed(TruncatedTable);
        case Match(i) =>
          assert found == Found(w, i);
          r := ExtractEntry(image, EntryAt(image, i));
          return;
        case NoMatch =>
        w := w + 1;
      }
      assert found == Missing;
      return NotInArchive;
    }

    /** The inner loop of read_wad_file: one image's table searched in order. */
    method ScanTable(image: Bytes, name: nat) returns (r: Scan)
      ensures r == ScanImage(image, name)
      ensures r.Match? ==> HEADER_SIZE <= |image| && EntryInImage(image, r.index)
    {
      if |image| < HEADER_SIZE {
        return Truncated;
      }
      var count := U32At(image, 4);
      var i := 0;
      while i < count
        invariant i <= count
        invariant ScanEntries(image, name, 0) == ScanEntries(image, name, i)
        decreases count - i
      {
        if HEADER_SIZE + ENTRY_SIZE * (i + 1) > |image| {
          return Truncated;
        }
        if EntryAt(image, i).name == name {
          return Match(i);
        }
        i := i + 1;
      }
      return NoMatch;
    }

    /** read_file: an archive hit first, otherwise the file's contents on disk. */
    method ReadFile(filename: Bytes) returns (r: FileRead)
      ensures r == ReadFileSpec(mounted, env, filename)
    {
      var fromWad := ReadWadFile(filename);
      match fromWad
      case Extracted(data) => r := FileData(data);
      case ArchiveFailed(err) => r := FileFailed(err);
      case NotInArchive =>
        var onDisk := env.disk(filename);
        if onDisk.Some? {
          r := FileData(onDisk.value);
        } else {
          r := FileMissing;
        }
    }

    /**
     * mount_wad: read the image through read_file (so an image may itself come out of an
     * already mounted one) and, if it could be read, put it at the head of the chain.
     */
    method MountWad(filename: Bytes) returns (ok: bool)
      modifies this`mounted
      ensures ok <==> ReadFileSpec(old(mounted), env, filename).FileData?
      ensures mounted == if ok then [MountedWad(filename, ReadFileSpec(old(mounted), env, filename).data)] + old(mounted)
                         else old(mounted)
    {
      var contents := ReadFile(filename);
      if !contents.FileData? {
        return false;
      }
      mounted := [MountedWad(filename, contents.data)] + mounted;
      ok := true;
    }

    /**
     * parse_file_lines: read the file and hand each of its lines to the callback, returned
     * here as the sequence of its arguments; None where the file cannot be read.
     */
    method ParseFileLines(filename: Bytes) returns (lines: Option<seq<Bytes>>)
      ensures ReadFileSpec(mounted, env, filename).FileData? <==> lines.Some?
      ensures lines.Some? ==> lines.value == Lines(ReadFileSpec(mounted, env, filename).data, 0)
    {
      var contents := ReadFile(filename);
      if !contents.FileData? {
        return None;
      }
      var buf := new bv8[|contents.data|](i requires 0 <= i < |contents.data| => contents.data[i]);
      assert buf[..] == contents.data;
      var ls := SplitLines(buf);
      lines := Some(ls);
    }
  }
}
