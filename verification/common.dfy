/** Types and byte-level helpers shared by every component of the editor model. */
module Common {

  /** A byte as the C code stores it in `char`/`uint8_t` buffers. */
  type Bytes = seq<bv8>

  datatype Option<T> = None | Some(value: T)

  /** Two to the power `n`. */
  function Pow2(n: nat): (r: nat)
    ensures r >= 1
  {
    if n == 0 then 1 else 2 * Pow2(n - 1)
  }

  lemma MulDouble(v: int, e: int)
    ensures v * (2 * e) == (2 * v) * e
  {
  }

  lemma MulDistrib(a: int, b: int, c: int)
    ensures (a + b) * c == a * c + b * c
  {
  }

  /** The unsigned value of a byte. */
  function ByteValue(b: bv8): (r: nat)
    ensures r < 256
  {
    b as nat
  }

  /** A value below 256 survives the round trip through a byte. */
  lemma ByteOfValue(v: nat)
    requires v < 256
    ensures ByteValue(v as bv8) == v
  {
  }

  /** The little-endian unsigned 16-bit value stored at `off`. */
  function U16At(s: Bytes, off: nat): (r: nat)
    requires off + 2 <= |s|
    ensures r < 0x1_0000
  {
    ByteValue(s[off]) + 256 * ByteValue(s[off + 1])
  }

  /** The little-endian unsigned 32-bit value stored at `off`. */
  function U32At(s: Bytes, off: nat): (r: nat)
    requires off + 4 <= |s|
    ensures r < 0x1_0000_0000
  {
    ByteValue(s[off]) + 256 * ByteValue(s[off + 1]) + 0x1_0000 * ByteValue(s[off + 2]) + 0x100_0000 * ByteValue(s[off + 3])
  }

  /** The four little-endian bytes of a 32-bit word. */
  function WordBytes(w: bv32): (r: Bytes)
    ensures |r| == 4
  {
    [(w & 0xFF) as bv8, ((w >> 8) & 0xFF) as bv8, ((w >> 16) & 0xFF) as bv8, ((w >> 24) & 0xFF) as bv8]
  }

  /** The 32-bit word whose little-endian bytes start at `off`. */
  function WordAt(s: Bytes, off: nat): bv32
    requires off + 4 <= |s|
  {
    (s[off] as bv32) | ((s[off + 1] as bv32) << 8) | ((s[off + 2] as bv32) << 16) | ((s[off + 3] as bv32) << 24)
  }

  lemma WordRoundTrip(w: bv32)
    ensures WordAt(WordBytes(w), 0) == w
  {
  }

  /** Four bytes holding the encoding of w read back as w, wherever they sit. */
  lemma WordAtBytes(s: Bytes, off: nat, w: bv32)
    requires off + 4 <= |s| && s[off..off + 4] == WordBytes(w)
    ensures WordAt(s, off) == w
  {
    var b := WordBytes(w);
    assert s[off] == b[0] && s[off + 1] == b[1] && s[off + 2] == b[2] && s[off + 3] == b[3];
    WordRoundTrip(w);
  }

  lemma WordAtUnchanged(s: Bytes, t: Bytes, off: nat)
    requires off + 4 <= |s| && off + 4 <= |t|
    requires s[off..off + 4] == t[off..off + 4]
    ensures WordAt(s, off) == WordAt(t, off)
  {
    assert s[off] == t[off] && s[off + 1] == t[off + 1];
    assert s[off + 2] == t[off + 2] && s[off + 3] == t[off + 3];
  }

  /** A C string has no NUL byte inside it. */
  predicate NoNul(s: Bytes) {
    forall i :: 0 <= i < |s| ==> s[i] != 0
  }

  /** The index of the first NUL byte of `s` at or after `from`, or `|s|` if there is none. */
  function NulFrom(s: Bytes, from: nat): (r: nat)
    requires from <= |s|
    ensures from <= r <= |s|
    ensures r < |s| ==> s[r] == 0
    ensures NoNul(s[from..r])
    decreases |s| - from
  {
    if from == |s| || s[from] == 0 then from
    else
      var r := NulFrom(s, from + 1);
      assert s[from..r] == [s[from]] + s[from + 1..r];
      r
  }

  /** The first NUL from `from` on is at `e` when `e` holds one (or is the end) and no byte before it does. */
  lemma {:induction false} NulFromIs(s: Bytes, from: nat, e: nat)
    requires from <= e <= |s| && (e < |s| ==> s[e] == 0)
    requires forall i :: from <= i < e ==> s[i] != 0
    ensures NulFrom(s, from) == e
    decreases e - from
  {
    if from < e {
      NulFromIs(s, from + 1, e);
    }
  }

  /** The NUL-terminated string starting at `from` (up to the end of `s` if it is not terminated). */
  function CStringAt(s: Bytes, from: nat): (r: Bytes)
    requires from <= |s|
    ensures NoNul(r)
  {
    s[from..NulFrom(s, from)]
  }
}
