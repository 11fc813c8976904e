/**
 * The PSP save-data side of the skin exporter: the PARAM.SFO key update applied to the
 * template before a skin is saved, the plaintext short cut of the save decryption, and the
 * folder name and detail text a saved skin gets.
 */
module SaveSkin {
  import opened Common
  import Editor

  // ---------------------------------------------------------------- PARAM.SFO layout

  // The header: five little-endian u32s (magic, version, key_table_start,
  // data_table_start, tables_entries), followed by the index table.
  const KEY_TABLE_AT: nat := 8
  const DATA_TABLE_AT: nat := 12
  const ENTRIES_AT: nat := 16
  const HEADER_BYTES: nat := 20

  // An index entry: u16 key_offset, u16 data_fmt, u32 data_len, u32 data_max_len,
  // u32 data_offset.
  const ENTRY_BYTES: nat := 16
  const FMT_AT: nat := 2
  const LEN_AT: nat := 4
  const MAX_LEN_AT: nat := 8
  const OFFSET_AT: nat := 12

  /** data_fmt of a NUL-terminated UTF-8 string. */
  const FMT_UTF8: nat := 0x0204

  /** Where index entry i starts. */
  function Entry(i: nat): nat {
    HEADER_BYTES + ENTRY_BYTES * i
  }

  function Entries(s: Bytes): nat
    requires |s| >= HEADER_BYTES
  {
    U32At(s, ENTRIES_AT)
  }

  function KeyTable(s: Bytes): nat
    requires |s| >= HEADER_BYTES
  {
    U32At(s, KEY_TABLE_AT)
  }

  function DataTable(s: Bytes): nat
    requires |s| >= HEADER_BYTES
  {
    U32At(s, DATA_TABLE_AT)
  }

  /** The header and the whole index table lie inside the buffer. */
  predicate Indexed(s: Bytes) {
    |s| >= HEADER_BYTES && Entry(Entries(s)) <= |s|
  }

  function KeyOffset(s: Bytes, i: nat): nat
    requires Indexed(s) && i < Entries(s)
  {
    U16At(s, Entry(i))
  }

  function Fmt(s: Bytes, i: nat): nat
    requires Indexed(s) && i < Entries(s)
  {
    U16At(s, Entry(i) + FMT_AT)
  }

  function DataLen(s: Bytes, i: nat): nat
    requires Indexed(s) && i < Entries(s)
  {
    U32At(s, Entry(i) + LEN_AT)
  }

  function MaxLen(s: Bytes, i: nat): nat
    requires Indexed(s) && i < Entries(s)
  {
    U32At(s, Entry(i) + MAX_LEN_AT)
  }

  function DataOffset(s: Bytes, i: nat): nat
    requires Indexed(s) && i < Entries(s)
  {
    U32At(s, Entry(i) + OFFSET_AT)
  }

  /** Where the key of entry i starts. */
  function KeyStart(s: Bytes, i: nat): nat
    requires Indexed(s) && i < Entries(s)
  {
    KeyTable(s) + KeyOffset(s, i)
  }

  /** Where the data of entry i starts. */
  function DataStart(s: Bytes, i: nat): nat
    requires Indexed(s) && i < Entries(s)
  {
    DataTable(s) + DataOffset(s, i)
  }

  /**
   * Entry i's key lies between the index table and the data table and is NUL-terminated
   * there, and its data region lies inside the buffer.
   */
  predicate EntryOk(s: Bytes, i: nat)
    requires Indexed(s) && i < Entries(s)
  {
    Entry(Entries(s)) <= KeyStart(s, i) < DataTable(s) <= |s| &&
    NulFrom(s, KeyStart(s, i)) < DataTable(s) &&
    DataStart(s, i) + MaxLen(s, i) <= |s|
  }

  /**
   * A PARAM.SFO image the update can walk without leaving the buffer: the header, then the
   * index table, then the key table, then the data table.
   */
  predicate Layout(s: Bytes) {
    Indexed(s) && Entry(Entries(s)) <= DataTable(s) <= |s| &&
    forall i :: 0 <= i < Entries(s) ==> EntryOk(s, i)
  }

  // ---------------------------------------------------------------- byte helpers

  function Zeros(n: nat): (r: Bytes)
    ensures |r| == n && forall k :: 0 <= k < n ==> r[k] == 0
  {
    seq(n, _ => 0)
  }

  /** t with the bytes from `at` on replaced by b. */
  function Put(t: Bytes, at: nat, b: Bytes): (r: Bytes)
    requires at + |b| <= |t|
    ensures |r| == |t|
    ensures forall k :: 0 <= k < |t| ==> r[k] == if at <= k < at + |b| then b[k - at] else t[k]
  {
    seq(|t|, k requires 0 <= k < |t| => if at <= k < at + |b| then b[k - at] else t[k])
  }

  /** A data region of `size` bytes holding a string: its bytes, then NULs up to the end. */
  function Field(value: Bytes, size: nat): (r: Bytes)
    requires |value| <= size
    ensures |r| == size
  {
    value + Zeros(size - |value|)
  }

  /** The byte holding the low eight bits of v. */
  function ByteOf(v: nat): (r: bv8)
    requires v < 256
    ensures ByteValue(r) == v
  {
    ByteOfValue(v);
    v as bv8
  }

  /** The little-endian bytes of a u32 field value. */
  function LeBytes(v: nat): (r: Bytes)
    requires v < 0x1_0000_0000
    ensures |r| == 4
  {
    var q1 := v / 256;
    var q2 := q1 / 256;
    var q3 := q2 / 256;
    [ByteOf(v % 256), ByteOf(q1 % 256), ByteOf(q2 % 256), ByteOf(q3)]
  }

  /** A u32 field holding the LeBytes of v reads back as v. */
  lemma LeBytesRead(t: Bytes, at: nat, v: nat)
    requires v < 0x1_0000_0000 && at + 4 <= |t| && t[at..at + 4] == LeBytes(v)
    ensures U32At(t, at) == v
  {
    var q1 := v / 256;
    var q2 := q1 / 256;
    var q3 := q2 / 256;
    assert t[at] == LeBytes(v)[0] && t[at + 1] == LeBytes(v)[1];
    assert t[at + 2] == LeBytes(v)[2] && t[at + 3] == LeBytes(v)[3];
    assert v == v % 256 + 256 * (q1 % 256) + 0x1_0000 * (q2 % 256) + 0x100_0000 * q3;
  }

  /** A C string whose bytes, terminator included, are the same in t reads the same in t. */
  lemma {:induction false} CStringSame(s: Bytes, t: Bytes, from: nat)
    requires |s| == |t| && from <= |s|
    requires forall k :: from <= k <= NulFrom(s, from) && k < |s| ==> t[k] == s[k]
    ensures NulFrom(t, from) == NulFrom(s, from)
    ensures CStringAt(t, from) == CStringAt(s, from)
    decreases |s| - from
  {
    if from < |s| && s[from] != 0 {
      CStringSame(s, t, from + 1);
    }
  }


  // ---------------------------------------------------------------- the index table as records

  /** One index entry as the update uses it: its key, its format, where data_len and the data sit. */
  datatype Slot = Slot(key: Bytes, fmt: nat, lenAt: nat, dataAt: nat, maxLen: nat)

  /** Index entry i of s. */
  function SlotOf(s: Bytes, i: nat): (r: Slot)
    requires Indexed(s) && i < Entries(s) && EntryOk(s, i)
    ensures r.lenAt == Entry(i) + LEN_AT && r.lenAt + 4 <= Entry(Entries(s))
    ensures DataTable(s) <= r.dataAt && r.dataAt + r.maxLen <= |s| && r.maxLen < 0x1_0000_0000
  {
    Slot(CStringAt(s, KeyStart(s, i)), Fmt(s, i), Entry(i) + LEN_AT, DataStart(s, i), MaxLen(s, i))
  }

  /** A slot's data region and data_len field lie inside an image of `size` bytes. */
  predicate SlotFits(slot: Slot, size: nat) {
    slot.dataAt + slot.maxLen <= size && slot.lenAt + 4 <= size && slot.maxLen < 0x1_0000_0000
  }

  predicate Fits(slots: seq<Slot>, size: nat) {
    forall j :: 0 <= j < |slots| ==> SlotFits(slots[j], size)
  }

  /** The first n entries of the index table of s. */
  function TableUpTo(s: Bytes, n: nat): (r: seq<Slot>)
    requires Layout(s) && n <= Entries(s)
    ensures |r| == n && Fits(r, |s|)
  {
    if n == 0 then []
    else
      var last := SlotOf(s, n - 1);
      TableUpTo(s, n - 1) + [last]
  }

  /** The index table of s, entry by entry. */
  function Table(s: Bytes): (r: seq<Slot>)
    requires Layout(s)
    ensures |r| == Entries(s) && Fits(r, |s|)
  {
    TableUpTo(s, Entries(s))
  }

  /** Entry i of the table is the slot index entry i describes. */
  lemma {:induction false} TableAt(s: Bytes, n: nat, i: nat)
    requires Layout(s) && i < n <= Entries(s)
    ensures TableUpTo(s, n)[i] == SlotOf(s, i)
  {
    if i < n - 1 {
      TableAt(s, n - 1, i);
    }
  }

  /**
   * The data_len fields follow each other in index order, and every data region lies after
   * all of them.
   */
  predicate Separate(slots: seq<Slot>) {
    (forall i, j :: 0 <= i < j < |slots| ==> slots[i].lenAt + 4 <= slots[j].lenAt) &&
    (forall i, j :: 0 <= i < |slots| && 0 <= j < |slots| ==> slots[i].lenAt + 4 <= slots[j].dataAt)
  }

  lemma TableSeparate(s: Bytes)
    requires Layout(s)
    ensures Separate(Table(s))
  {
    var slots := Table(s);
    forall i, j | 0 <= i < |slots| && 0 <= j < |slots|
      ensures slots[i].lenAt + 4 <= slots[j].dataAt && (i < j ==> slots[i].lenAt + 4 <= slots[j].lenAt)
    {
      TableAt(s, Entries(s), i);
      TableAt(s, Entries(s), j);
    }
  }

  /** The entry is one the update rewrites: its key, its format, and room for value and NUL. */
  predicate Selected(slot: Slot, key: Bytes, value: Bytes) {
    slot.key == key && slot.fmt == FMT_UTF8 && |value| + 1 <= slot.maxLen
  }

  /** Whether the entry's update writes byte k: its data region or its data_len field. */
  predicate Writes(slot: Slot, k: nat) {
    slot.dataAt <= k < slot.dataAt + slot.maxLen || slot.lenAt <= k < slot.lenAt + 4
  }

  /** Whether two entries' data regions share a byte. */
  predicate Overlap(a: Slot, b: Slot) {
    a.dataAt < b.dataAt + b.maxLen && b.dataAt < a.dataAt + a.maxLen
  }

  // ---------------------------------------------------------------- param_sfo_set_key

  /**
   * One entry's update applied to t: the data region is zeroed and receives the value and its
   * NUL, then data_len becomes the length of the value with its NUL.
   */
  function Filled(t: Bytes, slot: Slot, value: Bytes, len: Bytes): (r: Bytes)
    requires SlotFits(slot, |t|) && |value| + 1 <= slot.maxLen && |len| == 4
    ensures |r| == |t|
  {
    var withData := Put(t, slot.dataAt, Field(value, slot.maxLen));
    Put(withData, slot.lenAt, len)
  }

  /**
   * t after the update has visited the first n entries, in index order; `len` is the encoding
   * of the data_len the update stores.
   */
  function Apply(t: Bytes, slots: seq<Slot>, key: Bytes, value: Bytes, len: Bytes, n: nat): (r: Bytes)
    requires Fits(slots, |t|) && n <= |slots| && |len| == 4
    ensures |r| == |t|
    decreases n
  {
    if n == 0 then t
    else
      var u := Apply(t, slots, key, value, len, n - 1);
      if Selected(slots[n - 1], key, value) then Filled(u, slots[n - 1], value, len) else u
  }

  /**
   * Between the visits of entries m and n, no byte outside the data regions and data_len
   * fields of the selected entries among them changes.
   */
  lemma {:induction false} ApplyFrame(t: Bytes, slots: seq<Slot>, key: Bytes, value: Bytes, len: Bytes, m: nat, n: nat, k: nat)
    requires Fits(slots, |t|) && |len| == 4 && m <= n <= |slots| && k < |t|
    requires forall j :: m <= j < n && Selected(slots[j], key, value) ==> !Writes(slots[j], k)
    ensures Apply(t, slots, key, value, len, n)[k] == Apply(t, slots, key, value, len, m)[k]
    decreases n
  {
    if n > m {
      ApplyFrame(t, slots, key, value, len, m, n - 1, k);
    }
  }

  /** An entry's update leaves its region holding the padded value and its data_len field `len`. */
  lemma FilledEntry(u: Bytes, e: Slot, value: Bytes, len: Bytes, r: Bytes)
    requires SlotFits(e, |u|) && e.lenAt + 4 <= e.dataAt && |value| + 1 <= e.maxLen && |len| == 4
    requires r == Filled(u, e, value, len)
    ensures r[e.lenAt..e.lenAt + 4] == len
    ensures r[e.dataAt..e.dataAt + e.maxLen] == Field(value, e.maxLen)
  {
    var withData := Put(u, e.dataAt, Field(value, e.maxLen));
    assert r[e.dataAt..e.dataAt + e.maxLen] == Field(value, e.maxLen) by {
      forall k | e.dataAt <= k < e.dataAt + e.maxLen
        ensures r[k] == Field(value, e.maxLen)[k - e.dataAt]
      {
        assert r[k] == withData[k];
      }
    }
  }

  /** The visit of a selected entry fills it. */
  lemma ApplyStep(t: Bytes, slots: seq<Slot>, key: Bytes, value: Bytes, len: Bytes, n: nat)
    requires Fits(slots, |t|) && |len| == 4 && n < |slots| && Selected(slots[n], key, value)
    ensures SlotFits(slots[n], |Apply(t, slots, key, value, len, n)|)
    ensures Apply(t, slots, key, value, len, n + 1) == Filled(Apply(t, slots, key, value, len, n), slots[n], value, len)
  {
    assert SlotFits(slots[n], |t|);
  }

  /** Later visits leave the data_len field of entry i alone. */
  lemma LenStays(t: Bytes, slots: seq<Slot>, key: Bytes, value: Bytes, len: Bytes, i: nat, n: nat)
    requires Fits(slots, |t|) && |len| == 4 && Separate(slots) && i < n <= |slots|
    ensures slots[i].lenAt + 4 <= |t|
    ensures Apply(t, slots, key, value, len, n)[slots[i].lenAt..slots[i].lenAt + 4] ==
      Apply(t, slots, key, value, len, i + 1)[slots[i].lenAt..slots[i].lenAt + 4]
  {
    var at := slots[i].lenAt;
    assert SlotFits(slots[i], |t|);
    forall k | at <= k < at + 4
      ensures Apply(t, slots, key, value, len, n)[k] == Apply(t, slots, key, value, len, i + 1)[k]
    {
      forall j | i + 1 <= j < n && Selected(slots[j], key, value)
        ensures !Writes(slots[j], k)
      {
        assert at + 4 <= slots[j].lenAt && at + 4 <= slots[j].dataAt;
      }
      ApplyFrame(t, slots, key, value, len, i + 1, n, k);
    }
  }

  /** Later visits leave the data region of entry i alone unless a selected region overlaps it. */
  lemma RegionStays(t: Bytes, slots: seq<Slot>, key: Bytes, value: Bytes, len: Bytes, i: nat, n: nat)
    requires Fits(slots, |t|) && |len| == 4 && Separate(slots) && i < n <= |slots|
    requires forall j :: i < j < n && Selected(slots[j], key, value) ==> !Overlap(slots[i], slots[j])
    ensures slots[i].dataAt + slots[i].maxLen <= |t|
    ensures Apply(t, slots, key, value, len, n)[slots[i].dataAt..slots[i].dataAt + slots[i].maxLen] ==
      Apply(t, slots, key, value, len, i + 1)[slots[i].dataAt..slots[i].dataAt + slots[i].maxLen]
  {
    var a := slots[i];
    assert SlotFits(a, |t|);
    forall k | a.dataAt <= k < a.dataAt + a.maxLen
      ensures Apply(t, slots, key, value, len, n)[k] == Apply(t, slots, key, value, len, i + 1)[k]
    {
      forall j | i + 1 <= j < n && Selected(slots[j], key, value)
        ensures !Writes(slots[j], k)
      {
        assert !Overlap(a, slots[j]) && slots[j].lenAt + 4 <= a.dataAt;
      }
      ApplyFrame(t, slots, key, value, len, i + 1, n, k);
    }
  }

  /** After the visit of entry n - 1, a selected entry i < n holds `len` in its data_len field. */
  lemma WrittenLen(t: Bytes, slots: seq<Slot>, key: Bytes, value: Bytes, len: Bytes, i: nat, n: nat, r: Bytes)
    requires Fits(slots, |t|) && |len| == 4 && Separate(slots) && i < n <= |slots| && Selected(slots[i], key, value)
    requires r == Apply(t, slots, key, value, len, n)
    ensures slots[i].lenAt + 4 <= |r| && r[slots[i].lenAt..slots[i].lenAt + 4] == len
  {
    ApplyStep(t, slots, key, value, len, i);
    FilledEntry(Apply(t, slots, key, value, len, i), slots[i], value, len, Apply(t, slots, key, value, len, i + 1));
    LenStays(t, slots, key, value, len, i, n);
  }

  /**
   * After the visit of entry n - 1, a selected entry i < n whose region no later selected
   * region overlaps holds the value followed by NULs up to data_max_len.
   */
  lemma WrittenRegion(t: Bytes, slots: seq<Slot>, key: Bytes, value: Bytes, len: Bytes, i: nat, n: nat, r: Bytes)
    requires Fits(slots, |t|) && |len| == 4 && Separate(slots) && i < n <= |slots| && Selected(slots[i], key, value)
    requires forall j :: i < j < n && Selected(slots[j], key, value) ==> !Overlap(slots[i], slots[j])
    requires r == Apply(t, slots, key, value, len, n)
    ensures slots[i].dataAt + slots[i].maxLen <= |r|
    ensures r[slots[i].dataAt..slots[i].dataAt + slots[i].maxLen] == Field(value, slots[i].maxLen)
  {
    ApplyStep(t, slots, key, value, len, i);
    FilledEntry(Apply(t, slots, key, value, len, i), slots[i], value, len, Apply(t, slots, key, value, len, i + 1));
    RegionStays(t, slots, key, value, len, i, n);
  }

  /** The image after the update has visited the first n entries of its own table. */
  function SetKeyUpTo(s: Bytes, key: Bytes, value: Bytes, len: Bytes, n: nat): (r: Bytes)
    requires Layout(s) && n <= Entries(s) && |len| == 4
    ensures |r| == |s|
  {
    Apply(s, Table(s), key, value, len, n)
  }

  /**
   * A byte of the header, the index table or the key table that is no data_len field is
   * never written.
   */
  predicate OffLenFields(s: Bytes, k: nat)
    requires |s| >= HEADER_BYTES
  {
    k < Entry(0) + LEN_AT || k >= Entry(Entries(s)) || !(LEN_AT <= (k - HEADER_BYTES) % ENTRY_BYTES < LEN_AT + 4)
  }

  lemma OffLenField(s: Bytes, j: nat, k: nat)
    requires |s| >= HEADER_BYTES && j < Entries(s) && OffLenFields(s, k)
    ensures !(Entry(j) + LEN_AT <= k < Entry(j) + LEN_AT + 4)
  {
  }

  /** t has the bytes of s everywhere before the data table except in the data_len fields. */
  predicate KeepsTable(s: Bytes, t: Bytes)
    requires |s| >= HEADER_BYTES
  {
    |t| == |s| && forall k :: 0 <= k < DataTable(s) && k < |s| && OffLenFields(s, k) ==> t[k] == s[k]
  }

  /** The update never writes the table bytes other than data_len. */
  lemma Untouched(s: Bytes, key: Bytes, value: Bytes, len: Bytes, n: nat)
    requires Layout(s) && n <= Entries(s) && |len| == 4
    ensures KeepsTable(s, SetKeyUpTo(s, key, value, len, n))
  {
    var slots := Table(s);
    forall k | 0 <= k < DataTable(s) && k < |s| && OffLenFields(s, k)
      ensures SetKeyUpTo(s, key, value, len, n)[k] == s[k]
    {
      forall j | 0 <= j < n && Selected(slots[j], key, value)
        ensures !Writes(slots[j], k)
      {
        TableAt(s, Entries(s), j);
        OffLenField(s, j, k);
      }
      ApplyFrame(s, slots, key, value, len, 0, n, k);
    }
  }

  /** Byte o of entry i, for a field other than data_len. */
  lemma EntryByte(s: Bytes, i: nat, o: nat)
    requires |s| >= HEADER_BYTES && i < Entries(s) && o < ENTRY_BYTES && !(LEN_AT <= o < LEN_AT + 4)
    ensures OffLenFields(s, Entry(i) + o)
  {
    assert (Entry(i) + o - HEADER_BYTES) % ENTRY_BYTES == o;
  }

  /** An image keeping the table bytes keeps the header fields the update reads. */
  lemma HeaderKept(s: Bytes, t: Bytes)
    requires Layout(s) && KeepsTable(s, t)
    ensures Indexed(t) && KeyTable(t) == KeyTable(s) && DataTable(t) == DataTable(s) && Entries(t) == Entries(s)
  {
    assert t[KEY_TABLE_AT..HEADER_BYTES] == s[KEY_TABLE_AT..HEADER_BYTES];
  }

  /** ... and the u16 fields of entry i before data_len, key_offset and data_fmt. */
  lemma U16Kept(s: Bytes, t: Bytes, i: nat, at: nat)
    requires Layout(s) && KeepsTable(s, t) && i < Entries(s) && Entry(i) <= at && at + 2 <= Entry(i) + LEN_AT
    ensures U16At(t, at) == U16At(s, at)
  {
    EntryByte(s, i, at - Entry(i));
    EntryByte(s, i, at + 1 - Entry(i));
  }

  /** ... and the u32 fields of entry i after data_len, data_max_len and data_offset. */
  lemma U32Kept(s: Bytes, t: Bytes, i: nat, at: nat)
    requires Layout(s) && KeepsTable(s, t) && i < Entries(s)
    requires Entry(i) + LEN_AT + 4 <= at && at + 4 <= Entry(i) + ENTRY_BYTES
    ensures U32At(t, at) == U32At(s, at)
  {
    forall k | at <= k < at + 4
      ensures t[k] == s[k]
    {
      EntryByte(s, i, k - Entry(i));
    }
  }

  /** ... and every key string, terminator included. */
  lemma KeyKept(s: Bytes, t: Bytes, i: nat)
    requires Layout(s) && KeepsTable(s, t) && i < Entries(s)
    ensures KeyStart(s, i) < |s|
    ensures NulFrom(t, KeyStart(s, i)) == NulFrom(s, KeyStart(s, i))
    ensures CStringAt(t, KeyStart(s, i)) == CStringAt(s, KeyStart(s, i))
  {
    assert EntryOk(s, i);
    var from := KeyStart(s, i);
    forall k | from <= k <= NulFrom(s, from) && k < |s|
      ensures t[k] == s[k]
    {
    }
    CStringSame(s, t, from);
  }

  /** Entry i of an image keeping the table bytes of s has the fields of entry i of s. */
  lemma FieldsKept(s: Bytes, t: Bytes, i: nat)
    requires Layout(s) && KeepsTable(s, t) && i < Entries(s)
    requires Indexed(t) && Entries(t) == Entries(s) && KeyTable(t) == KeyTable(s) && DataTable(t) == DataTable(s)
    ensures KeyStart(t, i) == KeyStart(s, i) && Fmt(t, i) == Fmt(s, i)
    ensures DataStart(t, i) == DataStart(s, i) && MaxLen(t, i) == MaxLen(s, i)
  {
    U16Kept(s, t, i, Entry(i));
    U16Kept(s, t, i, Entry(i) + FMT_AT);
    U32Kept(s, t, i, Entry(i) + MAX_LEN_AT);
    U32Kept(s, t, i, Entry(i) + OFFSET_AT);
  }

  /** ... so it is laid out as entry i of s and reads as it. */
  lemma SlotKept(s: Bytes, t: Bytes, i: nat)
    requires Layout(s) && KeepsTable(s, t) && i < Entries(s)
    requires Indexed(t) && Entries(t) == Entries(s) && KeyTable(t) == KeyTable(s) && DataTable(t) == DataTable(s)
    ensures EntryOk(t, i) && SlotOf(t, i) == SlotOf(s, i)
  {
    assert EntryOk(s, i);
    FieldsKept(s, t, i);
    KeyKept(s, t, i);
  }

  lemma {:induction false} TableUpToKept(s: Bytes, t: Bytes, n: nat)
    requires Layout(s) && KeepsTable(s, t) && Layout(t) && n <= Entries(s)
    requires Entries(t) == Entries(s) && KeyTable(t) == KeyTable(s) && DataTable(t) == DataTable(s)
    ensures TableUpTo(t, n) == TableUpTo(s, n)
  {
    if n > 0 {
      TableUpToKept(s, t, n - 1);
      SlotKept(s, t, n - 1);
    }
  }

  /** An image keeping the table bytes of s is laid out as s and has its index table. */
  lemma TableKept(s: Bytes, t: Bytes)
    requires Layout(s) && KeepsTable(s, t)
    ensures Layout(t) && Table(t) == Table(s)
  {
    HeaderKept(s, t);
    forall i | 0 <= i < Entries(t)
      ensures EntryOk(t, i)
    {
      SlotKept(s, t, i);
    }
    TableUpToKept(s, t, Entries(s));
  }

  /** The data_len the update stores: the length of the value with its NUL, as a u32. */
  function LenField(value: Bytes): (r: Bytes)
    ensures |r| == 4
  {
    LeBytes((|value| + 1) % 0x1_0000_0000)
  }

  lemma LenFieldValue(value: Bytes)
    requires |value| + 1 < 0x1_0000_0000
    ensures LenField(value) == LeBytes(|value| + 1)
  {
    var v := |value| + 1;
    assert v % 0x1_0000_0000 == v;
  }

  /** param_sfo_set_key on the image s: every entry visited in index order, none skipped. */
  function SetKey(s: Bytes, key: Bytes, value: Bytes): (r: Bytes)
    requires Layout(s)
    ensures |r| == |s|
  {
    SetKeyUpTo(s, key, value, LenField(value), Entries(s))
  }

  /** The updated image is laid out as s and has its index table, so updates can follow each other. */
  lemma SetKeyTable(s: Bytes, key: Bytes, value: Bytes)
    requires Layout(s)
    ensures Layout(SetKey(s, key, value)) && Table(SetKey(s, key, value)) == Table(s)
  {
    Untouched(s, key, value, LenField(value), Entries(s));
    TableKept(s, SetKey(s, key, value));
  }

  /** Every selected entry ends with data_len == |value| + 1. */
  lemma SetKeyLength(s: Bytes, key: Bytes, value: Bytes, i: nat)
    requires Layout(s) && i < |Table(s)| && Selected(Table(s)[i], key, value)
    ensures U32At(SetKey(s, key, value), Table(s)[i].lenAt) == |value| + 1
  {
    var slots, len := Table(s), LenField(value);
    assert SlotFits(slots[i], |s|);
    TableSeparate(s);
    WrittenLen(s, slots, key, value, len, i, |slots|, SetKey(s, key, value));
    LenFieldValue(value);
    LeBytesRead(SetKey(s, key, value), slots[i].lenAt, |value| + 1);
  }

  /**
   * Every selected entry's data region holds the value padded with NULs, unless a later
   * selected entry's region overlaps it.
   */
  lemma SetKeyRegion(s: Bytes, key: Bytes, value: Bytes, i: nat)
    requires Layout(s) && i < |Table(s)| && Selected(Table(s)[i], key, value)
    requires forall j :: i < j < |Table(s)| && Selected(Table(s)[j], key, value) ==> !Overlap(Table(s)[i], Table(s)[j])
    ensures SetKey(s, key, value)[Table(s)[i].dataAt..Table(s)[i].dataAt + Table(s)[i].maxLen] ==
      Field(value, Table(s)[i].maxLen)
  {
    TableSeparate(s);
    WrittenRegion(s, Table(s), key, value, LenField(value), i, |Table(s)|, SetKey(s, key, value));
  }

  /** The data region of an entry in an image. */
  function Region(t: Bytes, e: Slot): (r: Bytes)
    requires SlotFits(e, |t|)
    ensures |r| == e.maxLen
  {
    t[e.dataAt..e.dataAt + e.maxLen]
  }

  /** SetKeyRegion, for an entry named by its record. */
  lemma SetKeyRegionAt(s: Bytes, key: Bytes, value: Bytes, i: nat, e: Slot)
    requires Layout(s) && i < |Table(s)| && e == Table(s)[i] && Selected(e, key, value)
    requires forall j :: i < j < |Table(s)| && Selected(Table(s)[j], key, value) ==> !Overlap(e, Table(s)[j])
    ensures |SetKey(s, key, value)| == |s| && Region(SetKey(s, key, value), e) == Field(value, e.maxLen)
  {
    SetKeyRegion(s, key, value, i);
  }

  /**
   * No byte outside the data regions and data_len fields of the selected entries changes;
   * in particular, an image with no selected entry is left as it was.
   */
  lemma SetKeyFrame(s: Bytes, key: Bytes, value: Bytes, k: nat)
    requires Layout(s) && k < |s|
    requires forall j :: 0 <= j < Entries(s) && Selected(Table(s)[j], key, value) ==> !Writes(Table(s)[j], k)
    ensures SetKey(s, key, value)[k] == s[k]
  {
    ApplyFrame(s, Table(s), key, value, LenField(value), 0, Entries(s), k);
  }

  lemma SetKeyNoMatch(s: Bytes, key: Bytes, value: Bytes)
    requires Layout(s)
    requires forall j :: 0 <= j < Entries(s) ==> !Selected(Table(s)[j], key, value)
    ensures SetKey(s, key, value) == s
  {
    forall k | 0 <= k < |s|
      ensures SetKey(s, key, value)[k] == s[k]
    {
      SetKeyFrame(s, key, value, k);
    }
  }

  // ---------------------------------------------------------------- the update, in place

  /** memset(dest, 0, max_len); strcpy(dest, value) */
  method FillData(sfo: array<bv8>, dest: nat, maxLen: nat, value: Bytes)
    requires NoNul(value) && |value| + 1 <= maxLen && dest + maxLen <= sfo.Length
    modifies sfo
    ensures sfo[..] == Put(old(sfo[..]), dest, Field(value, maxLen))
  {
    ghost var s := sfo[..];
    var k := 0;
    while k < maxLen
      invariant k <= maxLen
      invariant forall p :: 0 <= p < sfo.Length ==> sfo[p] == if dest <= p < dest + k then 0 else s[p]
    {
      sfo[dest + k] := 0;
      k := k + 1;
    }
    k := 0;
    while k < |value|
      invariant k <= |value|
      invariant forall p :: 0 <= p < sfo.Length ==>
        sfo[p] == if dest <= p < dest + k then value[p - dest] else if dest + k <= p < dest + maxLen then 0 else s[p]
    {
      sfo[dest + k] := value[k];
      k := k + 1;
    }
    sfo[dest + |value|] := 0;
    assert sfo[..] == Put(s, dest, Field(value, maxLen));
  }

  /** index_table[i].data_len = v, a little-endian u32 store. */
  method StoreU32(sfo: array<bv8>, at: nat, v: nat)
    requires v < 0x1_0000_0000 && at + 4 <= sfo.Length
    modifies sfo
    ensures sfo[..] == Put(old(sfo[..]), at, LeBytes(v))
  {
    var b := LeBytes(v);
    sfo[at] := b[0];
    sfo[at + 1] := b[1];
    sfo[at + 2] := b[2];
    sfo[at + 3] := b[3];
  }

  /** The write of a selected entry, as memset, strcpy and the data_len store perform it. */
  method FillEntry(sfo: array<bv8>, value: Bytes, e: Slot)
    requires NoNul(value) && SlotFits(e, sfo.Length) && |value| + 1 <= e.maxLen
    modifies sfo
    ensures sfo[..] == Filled(old(sfo[..]), e, value, LenField(value))
  {
    FillData(sfo, e.dataAt, e.maxLen, value);
    LenFieldValue(value);
    StoreU32(sfo, e.lenAt, |value| + 1);
  }

  /** An image that keeps the index table of s describes, at entry i, the slot s has there. */
  lemma EntryNow(s: Bytes, t: Bytes, i: nat)
    requires Layout(s) && KeepsTable(s, t) && i < Entries(s)
    ensures Layout(t) && i < Entries(t) && SlotOf(t, i) == Table(s)[i]
  {
    TableKept(s, t);
    TableAt(t, Entries(t), i);
  }

  /** Reads index entry i of the image: its key, format, data_len field and data region. */
  method ReadEntry(sfo: array<bv8>, i: nat, ghost s: Bytes) returns (entry: Slot)
    requires Layout(s) && KeepsTable(s, sfo[..]) && i < Entries(s)
    ensures entry == Table(s)[i] && NoNul(entry.key)
  {
    EntryNow(s, sfo[..], i);
    entry := SlotOf(sfo[..], i);
  }

  /** The image once the loop of param_sfo_set_key has visited entries 0 to i - 1 of s. */
  ghost predicate VisitedUpTo(t: Bytes, s: Bytes, key: Bytes, value: Bytes, i: nat) {
    Layout(s) && i <= Entries(s) && t == SetKeyUpTo(s, key, value, LenField(value), i)
  }

  /** Once every entry is visited, the image is the result of the update. */
  lemma VisitedAll(t: Bytes, s: Bytes, key: Bytes, value: Bytes, i: nat)
    requires VisitedUpTo(t, s, key, value, i) && i == Entries(s)
    ensures t == SetKey(s, key, value)
  {
  }

  /** One pass of the loop of param_sfo_set_key: entry i is updated when it is selected. */
  method SetKeyEntry(sfo: array<bv8>, key: Bytes, value: Bytes, i: nat, ghost s: Bytes)
    requires NoNul(key) && NoNul(value) && VisitedUpTo(sfo[..], s, key, value, i) && i < Entries(s)
    modifies sfo
    ensures VisitedUpTo(sfo[..], s, key, value, i + 1)
  {
    Untouched(s, key, value, LenField(value), i);
    var entry := ReadEntry(sfo, i, s);
    Editor.StrCmpZeroIff(entry.key, key);
    if Editor.StrCmp(entry.key, key) == 0 {
      if entry.fmt == FMT_UTF8 {
        if |value| + 1 <= entry.maxLen {
          FillEntry(sfo, value, entry);
        }
      }
    }
  }

  /**
   * param_sfo_set_key: for every index entry whose key is `key` and whose format is UTF-8,
   * if value and NUL fit in data_max_len, the data region becomes the value padded with NULs
   * and data_len its length with the NUL.
   */
  method ParamSfoSetKey(sfo: array<bv8>, key: Bytes, value: Bytes)
    requires Layout(sfo[..]) && NoNul(key) && NoNul(value)
    modifies sfo
    ensures sfo[..] == SetKey(old(sfo[..]), key, value)
  {
    ghost var s := sfo[..];
    var n := Entries(sfo[..]);
    var i := 0;
    while i < n
      invariant n == Entries(s) && VisitedUpTo(sfo[..], s, key, value, i)
    {
      SetKeyEntry(sfo, key, value, i, s);
      i := i + 1;
    }
    VisitedAll(sfo[..], s, key, value, i);
  }

  // ---------------------------------------------------------------- saveskin_decrypt

  /** What decrypt_data, foreign code, reports: its status, the buffer and the length it leaves. */
  datatype Decryption = Decryption(status: int, buf: Bytes, len: int)

  /** decrypt_data applied to a buffer and its length as an int. */
  type Decryptor = (Bytes, int) -> Decryption

  /** saveskin_decrypt's answer, the buffer after the call and *len after the call. */
  datatype Decrypted = Decrypted(ok: bool, buf: Bytes, len: nat)

  /** The size of a save that was never encrypted, and of its payload. */
  const PLAIN_SAVE_LEN: nat := 24816
  const PLAIN_DATA_LEN: nat := 24800

  /** A save whose bytes 8 to 15 are zero and whose length is 24816 is taken as plaintext. */
  predicate PlainSave(buf: Bytes, len: nat)
    requires 16 <= |buf|
  {
    buf[8..16] == Zeros(8) && len == PLAIN_SAVE_LEN
  }

  /** size_t to int, as the assignment `int len_int = *len` converts on a 64-bit target. */
  function IntOfSize(len: nat): (r: int)
    ensures -0x8000_0000 <= r < 0x8000_0000
    ensures len < 0x8000_0000 ==> r == len
  {
    var low := len % 0x1_0000_0000;
    if low < 0x8000_0000 then low else low - 0x1_0000_0000
  }

  /** int to size_t, as `*len = len_int` converts. */
  function SizeOfInt(v: int): (r: nat)
    ensures 0 <= v ==> r == v % 0x1_0000_0000_0000_0000
  {
    v % 0x1_0000_0000_0000_0000
  }

  /**
   * saveskin_decrypt: a plaintext save keeps its bytes and its length becomes 24800; any other
   * save goes through decrypt_data, succeeds exactly when it returns 0, and only then takes
   * the length decrypt_data reports.
   */
  function SaveskinDecrypt(buf: Bytes, len: nat, decrypt: Decryptor): (r: Decrypted)
    requires 16 <= |buf|
    ensures PlainSave(buf, len) ==> r.ok && r.buf == buf && r.len == PLAIN_DATA_LEN
    ensures !PlainSave(buf, len) ==> r.ok == (decrypt(buf, IntOfSize(len)).status == 0)
    ensures !PlainSave(buf, len) ==> r.buf == decrypt(buf, IntOfSize(len)).buf
    ensures !r.ok ==> r.len == len
  {
    if PlainSave(buf, len) then Decrypted(true, buf, PLAIN_DATA_LEN)
    else
      var d := decrypt(buf, IntOfSize(len));
      if d.status != 0 then Decrypted(false, d.buf, len) else Decrypted(true, d.buf, SizeOfInt(d.len))
  }

  /** A plaintext save never reaches decrypt_data: any two decryptors give the same answer. */
  lemma PlainIgnoresDecryptor(buf: Bytes, len: nat, d1: Decryptor, d2: Decryptor)
    requires 16 <= |buf| && PlainSave(buf, len)
    ensures SaveskinDecrypt(buf, len, d1) == SaveskinDecrypt(buf, len, d2) == Decrypted(true, buf, PLAIN_DATA_LEN)
  {
  }

  /** A successful decryption of a length below 2^31 reports the length decrypt_data leaves. */
  lemma DecryptedLength(buf: Bytes, len: nat, decrypt: Decryptor)
    requires 16 <= |buf| && !PlainSave(buf, len) && len < 0x8000_0000
    requires decrypt(buf, len).status == 0 && 0 <= decrypt(buf, len).len < 0x8000_0000
    ensures SaveskinDecrypt(buf, len, decrypt) == Decrypted(true, decrypt(buf, len).buf, decrypt(buf, len).len)
  {
  }

  // ---------------------------------------------------------------- saveskin_save strings

  /** The bytes of an ASCII text. */
  function Ascii(text: string): (r: Bytes)
    requires forall i :: 0 <= i < |text| ==> text[i] as int < 128
    ensures |r| == |text| && forall i :: 0 <= i < |text| ==> ByteValue(r[i]) == text[i] as int
  {
    seq(|text|, i requires 0 <= i < |text| => ByteOf(text[i] as int))
  }

  /** An ASCII text without NUL characters is a C string. */
  lemma AsciiNoNul(text: string)
    requires forall i :: 0 <= i < |text| ==> 0 < text[i] as int < 128
    ensures NoNul(Ascii(text))
  {
    var r := Ascii(text);
    forall i | 0 <= i < |r|
      ensures r[i] != 0
    {
      assert ByteValue(r[i]) > 0;
    }
  }

  /** The ASCII digit of d. */
  function Digit(d: nat): (r: bv8)
    requires d < 10
    ensures ByteValue(r) == 0x30 + d
  {
    ByteOf(0x30 + d)
  }

  predicate IsDigits(s: Bytes) {
    forall i :: 0 <= i < |s| ==> 0x30 <= ByteValue(s[i]) < 0x3A
  }

  /** The number a string of decimal digits spells, the last digit the least significant. */
  function DigitsValue(s: Bytes): nat
    requires IsDigits(s)
    decreases |s|
  {
    if s == [] then 0 else 10 * DigitsValue(s[..|s| - 1]) + (ByteValue(s[|s| - 1]) - 0x30)
  }

  function Pow10(k: nat): (r: nat)
    ensures r >= 1
  {
    if k == 0 then 1 else 10 * Pow10(k - 1)
  }

  /** %d of a non-negative number: its decimal digits without leading zeros. */
  function Decimal(n: nat): (r: Bytes)
    ensures IsDigits(r) && 1 <= |r|
  {
    if n < 10 then [Digit(n)] else Decimal(n / 10) + [Digit(n % 10)]
  }

  /** The digits of n spell n. */
  lemma {:induction false} DecimalValue(n: nat)
    ensures DigitsValue(Decimal(n)) == n
  {
    if n >= 10 {
      DecimalValue(n / 10);
      var r := Decimal(n);
      assert r[..|r| - 1] == Decimal(n / 10);
    }
  }

  /** A number below 10^k has at most k digits. */
  lemma {:induction false} DecimalShort(n: nat, k: nat)
    requires 1 <= k && n < Pow10(k)
    ensures |Decimal(n)| <= k
  {
    if n >= 10 {
      assert k != 1;
      DecimalShort(n / 10, k - 1);
    }
  }

  /** A number of at least 10^(k-1) has at least k digits. */
  lemma {:induction false} DecimalLong(n: nat, k: nat)
    requires 1 <= k && Pow10(k - 1) <= n
    ensures k <= |Decimal(n)|
  {
    if k >= 2 {
      DecimalLong(n / 10, k - 1);
    }
  }

  /** k zero digits. */
  function ZeroDigits(k: nat): (r: Bytes)
    ensures |r| == k && IsDigits(r)
  {
    seq(k, _ => Digit(0))
  }

  lemma {:induction false} ZeroDigitsValue(k: nat)
    ensures DigitsValue(ZeroDigits(k)) == 0
  {
    if k > 0 {
      ZeroDigitsValue(k - 1);
      assert ZeroDigits(k)[..k - 1] == ZeroDigits(k - 1);
    }
  }

  /** Leading zeros do not change the number. */
  lemma {:induction false} LeadingZeros(k: nat, s: Bytes)
    requires IsDigits(s)
    ensures IsDigits(ZeroDigits(k) + s) && DigitsValue(ZeroDigits(k) + s) == DigitsValue(s)
    decreases |s|
  {
    var z := ZeroDigits(k) + s;
    assert IsDigits(z) by {
      forall i | 0 <= i < |z|
        ensures 0x30 <= ByteValue(z[i]) < 0x3A
      {
        if i >= k {
          assert z[i] == s[i - k];
        }
      }
    }
    if s == [] {
      assert z == ZeroDigits(k);
      ZeroDigitsValue(k);
    } else {
      LeadingZeros(k, s[..|s| - 1]);
      assert z[..|z| - 1] == ZeroDigits(k) + s[..|s| - 1];
    }
  }

  /** %04d of a non-negative number: its digits, padded with zeros on the left to four. */
  function Pad4(n: nat): (r: Bytes)
    ensures IsDigits(r)
  {
    var d := Decimal(n);
    if |d| >= 4 then d else ZeroDigits(4 - |d|) + d
  }

  /** The padded digits still spell n; they are four exactly when n is below 10000. */
  lemma Pad4Value(n: nat)
    ensures DigitsValue(Pad4(n)) == n
    ensures 4 <= |Pad4(n)| && (|Pad4(n)| == 4 <==> n < 10000)
  {
    var d := Decimal(n);
    DecimalValue(n);
    if |d| < 4 {
      LeadingZeros(4 - |d|, d);
    }
    if n < 10000 {
      DecimalShort(n, 4);
    } else {
      DecimalLong(n, 5);
    }
  }

  const FOLDER_PREFIX: Bytes := Ascii("UCES00465DTEAMSKIN")

  /** The save folder of a slot: "UCES00465DTEAMSKIN" and the slot as %04d. */
  function FolderName(slot: nat): (r: Bytes)
    ensures |r| == |FOLDER_PREFIX| + |Pad4(slot)|
  {
    FOLDER_PREFIX + Pad4(slot)
  }

  /** The folder name starts with the product code prefix and then spells the slot. */
  lemma FolderNameReads(slot: nat)
    ensures |FOLDER_PREFIX| == 18 && FolderName(slot)[..18] == FOLDER_PREFIX
    ensures IsDigits(FolderName(slot)[18..]) && DigitsValue(FolderName(slot)[18..]) == slot
    ensures |FolderName(slot)| == 22 <==> slot < 10000
  {
    assert FolderName(slot)[18..] == Pad4(slot);
    Pad4Value(slot);
  }

  /** Different slots get different folders. */
  lemma FolderNameInjective(a: nat, b: nat)
    requires FolderName(a) == FolderName(b)
    ensures a == b
  {
    FolderNameReads(a);
    FolderNameReads(b);
  }

  lemma DigitsNoNul(s: Bytes)
    requires IsDigits(s)
    ensures NoNul(s)
  {
    forall i | 0 <= i < |s|
      ensures s[i] != 0
    {
      assert ByteValue(s[i]) >= 0x30;
    }
  }

  lemma FolderNameNoNul(slot: nat)
    ensures NoNul(FolderName(slot))
  {
    AsciiNoNul("UCES00465DTEAMSKIN");
    DigitsNoNul(Pad4(slot));
    NoNulJoin(FOLDER_PREFIX, Pad4(slot));
  }

  lemma NoNulJoin(a: Bytes, b: Bytes)
    requires NoNul(a) && NoNul(b)
    ensures NoNul(a + b)
  {
    forall i | 0 <= i < |a + b|
      ensures (a + b)[i] != 0
    {
      if i >= |a| {
        assert (a + b)[i] == b[i - |a|];
      }
    }
  }

  const TEAM_LABEL: Bytes := Ascii("Team: ")
  const SLOT_LABEL: Bytes := Ascii("\nShip Skin Slot ")
  const CREDIT_LINE: Bytes := Ascii("\nCreated with thp's shipedit\n")

  /** The detail text of a saved skin: the team name, then the slot counted from 1. */
  function DetailText(team: Bytes, slot: nat): (r: Bytes)
    ensures |r| == |TEAM_LABEL| + |team| + |SLOT_LABEL| + |Decimal(slot + 1)| + |CREDIT_LINE|
  {
    TEAM_LABEL + team + SLOT_LABEL + Decimal(slot + 1) + CREDIT_LINE
  }

  /** The detail text shows the team name and the slot plus one, in their places. */
  lemma DetailTextReads(team: Bytes, slot: nat)
    ensures |TEAM_LABEL| == 6 && |SLOT_LABEL| == 16 && |CREDIT_LINE| == 29
    ensures var r := DetailText(team, slot);
      var digits := r[6 + |team| + 16..|r| - 29];
      r[..6] == TEAM_LABEL && r[6..6 + |team|] == team &&
      IsDigits(digits) && DigitsValue(digits) == slot + 1
  {
    var r := DetailText(team, slot);
    assert r[..6] == TEAM_LABEL;
    assert r[6..6 + |team|] == team;
    assert r[6 + |team| + 16..|r| - 29] == Decimal(slot + 1);
    DecimalValue(slot + 1);
  }

  /** For one team, different slots give different detail texts. */
  lemma DetailTextInjective(team: Bytes, a: nat, b: nat)
    requires DetailText(team, a) == DetailText(team, b)
    ensures a == b
  {
    DetailTextReads(team, a);
    DetailTextReads(team, b);
  }

  /** The detail text is a C string when the team name is. */
  lemma DetailTextNoNul(team: Bytes, slot: nat)
    requires NoNul(team)
    ensures NoNul(DetailText(team, slot))
  {
    AsciiNoNul("Team: ");
    AsciiNoNul("\nShip Skin Slot ");
    AsciiNoNul("\nCreated with thp's shipedit\n");
    DigitsNoNul(Decimal(slot + 1));
    NoNulJoin(TEAM_LABEL, team);
    NoNulJoin(TEAM_LABEL + team, SLOT_LABEL);
    NoNulJoin(TEAM_LABEL + team + SLOT_LABEL, Decimal(slot + 1));
    NoNulJoin(TEAM_LABEL + team + SLOT_LABEL + Decimal(slot + 1), CREDIT_LINE);
  }

  // ---------------------------------------------------------------- saveskin_save

  const TITLE_KEY: Bytes := Ascii("SAVEDATA_TITLE")
  const DETAIL_KEY: Bytes := Ascii("SAVEDATA_DETAIL")
  const DIRECTORY_KEY: Bytes := Ascii("SAVEDATA_DIRECTORY")
  const TITLE: Bytes := Ascii("Custom Ship Skin")

  lemma ConstantsNoNul()
    ensures NoNul(TITLE_KEY) && NoNul(DETAIL_KEY) && NoNul(DIRECTORY_KEY) && NoNul(TITLE)
  {
    AsciiNoNul("SAVEDATA_TITLE");
    AsciiNoNul("SAVEDATA_DETAIL");
    AsciiNoNul("SAVEDATA_DIRECTORY");
    AsciiNoNul("Custom Ship Skin");
  }

  /**
   * The PARAM.SFO image saveskin_save writes from the template s: the title, then the detail
   * text naming the team and the slot, then the folder name. Each update keeps the layout
   * and the index table, so the next one applies to the same entries.
   */
  function SavedParamSfo(s: Bytes, team: Bytes, slot: nat): (r: Bytes)
    requires Layout(s)
    ensures |r| == |s| && Layout(r) && Table(r) == Table(s)
  {
    var s1 := SetKey(s, TITLE_KEY, TITLE);
    SetKeyTable(s, TITLE_KEY, TITLE);
    var s2 := SetKey(s1, DETAIL_KEY, DetailText(team, slot));
    SetKeyTable(s1, DETAIL_KEY, DetailText(team, slot));
    SetKeyTable(s2, DIRECTORY_KEY, FolderName(slot));
    SetKey(s2, DIRECTORY_KEY, FolderName(slot))
  }

  /** The saved image is the template after the first two updates, updated with the folder name. */
  lemma SavedLast(s: Bytes, team: Bytes, slot: nat) returns (s2: Bytes)
    requires Layout(s)
    ensures Layout(s2) && Table(s2) == Table(s) && SavedParamSfo(s, team, slot) == SetKey(s2, DIRECTORY_KEY, FolderName(slot))
  {
    var s1 := SetKey(s, TITLE_KEY, TITLE);
    SetKeyTable(s, TITLE_KEY, TITLE);
    s2 := SetKey(s1, DETAIL_KEY, DetailText(team, slot));
    SetKeyTable(s1, DETAIL_KEY, DetailText(team, slot));
  }

  /**
   * Every SAVEDATA_DIRECTORY entry of the template that is a UTF-8 string with room for the
   * folder name ends up holding it, NUL-padded (unless a later such entry overlaps it) ...
   */
  lemma SavedDirectory(s: Bytes, team: Bytes, slot: nat, i: nat)
    requires Layout(s) && i < |Table(s)| && Selected(Table(s)[i], DIRECTORY_KEY, FolderName(slot))
    requires forall j :: i < j < |Table(s)| && Selected(Table(s)[j], DIRECTORY_KEY, FolderName(slot)) ==>
      !Overlap(Table(s)[i], Table(s)[j])
    ensures Region(SavedParamSfo(s, team, slot), Table(s)[i]) == Field(FolderName(slot), Table(s)[i].maxLen)
  {
    var s1 := SetKey(s, TITLE_KEY, TITLE);
    SetKeyTable(s, TITLE_KEY, TITLE);
    var s2 := SetKey(s1, DETAIL_KEY, DetailText(team, slot));
    SetKeyTable(s1, DETAIL_KEY, DetailText(team, slot));
    SetKeyRegionAt(s2, DIRECTORY_KEY, FolderName(slot), i, Table(s)[i]);
  }

  /** ... and with data_len the folder name's length plus one. */
  lemma SavedDirectoryLength(s: Bytes, team: Bytes, slot: nat, i: nat)
    requires Layout(s) && i < |Table(s)| && Selected(Table(s)[i], DIRECTORY_KEY, FolderName(slot))
    ensures U32At(SavedParamSfo(s, team, slot), Table(s)[i].lenAt) == |FolderName(slot)| + 1
  {
    var s2 := SavedLast(s, team, slot);
    SetKeyLength(s2, DIRECTORY_KEY, FolderName(slot), i);
  }

  /**
   * The PARAM.SFO part of saveskin_save: the team name is the C string at the start of the
   * skin buffer.
   */
  method SaveParamSfo(sfo: array<bv8>, buf: Bytes, slot: nat)
    requires Layout(sfo[..])
    modifies sfo
    ensures sfo[..] == SavedParamSfo(old(sfo[..]), CStringAt(buf, 0), slot)
  {
    ghost var s0 := sfo[..];
    var team := CStringAt(buf, 0);
    ConstantsNoNul();
    ParamSfoSetKey(sfo, TITLE_KEY, TITLE);
    SetKeyTable(s0, TITLE_KEY, TITLE);
    ghost var s1 := sfo[..];
    var detail := DetailText(team, slot);
    DetailTextNoNul(team, slot);
    ParamSfoSetKey(sfo, DETAIL_KEY, detail);
    SetKeyTable(s1, DETAIL_KEY, detail);
    var folder := FolderName(slot);
    FolderNameNoNul(slot);
    ParamSfoSetKey(sfo, DIRECTORY_KEY, folder);
  }
}
