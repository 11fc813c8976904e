/**
 * The imperative LZ77 decoder of the archive store: a decompression context holding a
 * bit cursor over the compressed input and the 8192-byte lookback window, with
 * read_bits and unpack proved against the reference semantics in LzSpec.
 */
module LzDecoder {
  import opened Common
  import opened LzSpec

  /** How many not yet consumed bits the current byte still holds, given the cursor mask. */
  function PendingBits(mask: bv8): (r: nat)
    ensures r < 8
  {
    if mask == 0x40 then 7 else if mask == 0x20 then 6 else if mask == 0x10 then 5
    else if mask == 0x08 then 4 else if mask == 0x04 then 3 else if mask == 0x02 then 2
    else if mask == 0x01 then 1 else 0
  }

  /** The cursor mask of a stream position, and how it moves on by one bit. */
  lemma MaskStep(j: nat)
    requires j < 8
    ensures (BitMask(j) == 0x80) <==> j == 0
    ensures j > 0 ==> PendingBits(BitMask(j)) == 8 - j
    ensures j == 0 ==> PendingBits(BitMask(j)) == 0
    ensures var m := BitMask(j) >> 1; (if m == 0 then 0x80 else m) == BitMask((j + 1) % 8)
  {
    if j == 0 {} else if j == 1 {} else if j == 2 {} else if j == 3 {}
    else if j == 4 {} else if j == 5 {} else if j == 6 {} else {}
  }

  /** The byte and the bit within it of the stream position a cursor stands at. */
  lemma Position(readPos: nat, bitIdx: nat, p: nat)
    requires bitIdx < 8 && p == 8 * readPos - (if bitIdx == 0 then 0 else 8 - bitIdx)
    ensures p / 8 == (if bitIdx == 0 then readPos else readPos - 1) && p % 8 == bitIdx
  {
  }

  class DecompressionContext {
    /** The compressed input. */
    const buf: Bytes
    /** The circular history of emitted bytes (the context's inline 8192-byte buffer). */
    const lookback: array<bv8>
    var writeIndex: nat
    /** The mask of the next bit to read within the current byte (bit_in_current_byte). */
    var mask: bv8
    var currentByte: bv8
    /** The index of the next input byte to fetch. */
    var readPos: nat
    /** The number of bits consumed so far, and how many of them lie in the current byte. */
    ghost var bitPos: nat
    ghost var bitIdx: nat

    /**
     * The bit cursor stands at stream bit `bitPos`: the mask selects bit bitIdx of the
     * current byte, which is the last one fetched whenever the mask is not at 0x80.
     */
    ghost predicate CursorValid()
      reads this`mask, this`currentByte, this`readPos, this`bitPos, this`bitIdx
    {
      bitPos <= 8 * |buf| && bitIdx < 8 &&
      mask == BitMask(bitIdx) &&
      bitPos == 8 * readPos - (if bitIdx == 0 then 0 else 8 - bitIdx) &&
      (bitIdx != 0 ==> currentByte == buf[readPos - 1])
    }

    ghost predicate WindowValid()
      reads this`writeIndex
    {
      lookback.Length == WINDOW_SIZE && writeIndex < WINDOW_SIZE
    }

    ghost predicate Valid()
      reads this`mask, this`currentByte, this`readPos, this`bitPos, this`bitIdx, this`writeIndex
    {
      CursorValid() && WindowValid()
    }

    /** The window and its write cursor, as the reference semantics sees them. */
    ghost function State(): LzState
      reads this`writeIndex, lookback
    {
      LzState(lookback[..], writeIndex)
    }

    /**
     * A fresh context (DecompressionContext_init): mask 0x80, read position 0, write
     * index 1. The window is zero-filled here; the C code leaves it uninitialised.
     */
    constructor (input: Bytes)
      ensures Valid() && fresh(lookback)
      ensures buf == input && bitPos == 0 && readPos == 0 && mask == 0x80
      ensures State() == InitialState()
    {
      buf := input;
      lookback := new bv8[WINDOW_SIZE](_ => 0);
      writeIndex := INITIAL_WRITE_INDEX;
      readPos := 0;
      currentByte := 0;
      mask := 0x80;
      bitPos := 0;
      bitIdx := 0;
    }

    /** Whether `n` more bits remain in the input, computed from the cursor alone. */
    method HasBits(n: nat) returns (ok: bool)
      requires CursorValid()
      ensures ok <==> bitPos + n <= 8 * |buf|
    {
      MaskStep(bitIdx);
      ok := 8 * readPos + n <= 8 * |buf| + PendingBits(mask);
    }

    /**
     * One step of read_bits' loop: fetch a new byte when the mask is back at 0x80, test
     * the masked bit, and move the mask one bit to the right, wrapping to 0x80.
     */
    method NextBit() returns (bit: nat)
      requires CursorValid() && bitPos < 8 * |buf|
      modifies this`currentByte, this`readPos, this`mask, this`bitPos, this`bitIdx
      ensures CursorValid() && bitPos == old(bitPos) + 1
      ensures bit == Bit(buf, old(bitPos))
    {
      ghost var p := bitPos;
      MaskStep(bitIdx);
      Position(readPos, bitIdx, p);
      if mask == 0x80 {
        currentByte := buf[readPos];
        readPos := readPos + 1;
      }
      bit := if currentByte & mask != 0 then 1 else 0;
      mask := mask >> 1;
      if mask == 0 {
        mask := 0x80;
      }
      bitPos := bitPos + 1;
      bitIdx := (bitIdx + 1) % 8;
    }

    /**
     * read_bits: the next `n` bits, most significant first. A byte is fetched exactly
     * when the mask is 0x80 at the start of a bit, so the read position is always the
     * number of consumed bits rounded up to whole bytes.
     */
    method ReadBits(n: nat) returns (r: nat)
      requires CursorValid() && 1 <= n <= 32 && bitPos + n <= 8 * |buf|
      modifies this`currentByte, this`readPos, this`mask, this`bitPos, this`bitIdx
      ensures CursorValid() && bitPos == old(bitPos) + n
      ensures r == BitsValue(buf, old(bitPos), n) && r < Pow2(n)
    {
      ghost var p := bitPos;
      r := 0;
      var currentBit := Pow2(n - 1);
      ghost var k: nat := 0;
      while currentBit != 0
        invariant CursorValid() && k <= n && bitPos == p + k
        invariant currentBit == if k < n then Pow2(n - 1 - k) else 0
        invariant r == WeightedBits(buf, p, k, n)
        decreases n - k
      {
        var bit := NextBit();
        AccumulateBit(buf, p, k, n, r, bit, currentBit);
        if bit != 0 {
          r := r + currentBit;
        }
        currentBit := currentBit / 2;
        k := k + 1;
      }
      WeightedBitsValue(buf, p, n, n);
    }

    /**
     * Emit one byte: store it at the output position and in the window at the write
     * cursor, then advance the cursor modulo 8192 (the `& 0x1fff` of the C code).
     */
    method Put(buffer: array<bv8>, out: nat, b: bv8)
      requires WindowValid() && buffer != lookback && out < buffer.Length
      modifies buffer, lookback, this`writeIndex
      ensures WindowValid() && State() == Emit(old(State()), b)
      ensures buffer[..] == old(buffer[..])[out := b]
    {
      buffer[out] := b;
      lookback[writeIndex] := b;
      writeIndex := (writeIndex + 1) % WINDOW_SIZE;
    }

    /**
     * The copy loop of unpack: `count` bytes read from window slots offset, offset + 1, ...
     * (modulo 8192), each written back at the write cursor before the next is read.
     */
    method CopyMatch(buffer: array<bv8>, out: nat, offset: nat, count: nat)
      requires WindowValid() && buffer != lookback && out + count <= buffer.Length
      modifies buffer, lookback, this`writeIndex
      ensures WindowValid()
      ensures buffer[..out] == old(buffer[..out])
      ensures buffer[out..out + count] == CopyRun(old(State()), offset, 0, count).0
      ensures State() == CopyRun(old(State()), offset, 0, count).1
    {
      ghost var run := CopyRun(State(), offset, 0, count);
      var i := 0;
      while i < count
        invariant WindowValid() && i <= count
        invariant buffer[..out] == old(buffer[..out])
        invariant buffer[out..out + i] + CopyRun(State(), offset, i, count).0 == run.0
        invariant CopyRun(State(), offset, i, count).1 == run.1
        decreases count - i
      {
        ghost var before := State();
        ghost var done := buffer[out..out + i];
        var tmp := lookback[(offset + i) % WINDOW_SIZE];
        assert CopyRun(before, offset, i, count).0 == [tmp] + CopyRun(Emit(before, tmp), offset, i + 1, count).0;
        Put(buffer, out + i, tmp);
        assert buffer[out..out + i + 1] == done + [tmp];
        i := i + 1;
      }
    }

    /**
     * The reading half of one pass of unpack's loop: a flag bit, then either 8 literal
     * bits or a 13-bit offset and a 4-bit length field. The token read is the one the
     * reference parser finds at the old cursor, and the cursor ends just after it.
     */
    method ReadToken() returns (r: Option<Token>)
      requires CursorValid()
      modifies this`currentByte, this`readPos, this`mask, this`bitPos, this`bitIdx
      ensures CursorValid()
      ensures r.None? <==> ParseToken(buf, old(bitPos)).None?
      ensures r.Some? ==> ParseToken(buf, old(bitPos)) == Some((r.value, bitPos))
    {
      ghost var p := bitPos;
      var more := HasBits(1);
      if !more {
        return None;
      }
      var flag := ReadBits(1);
      ParseFlagAt(buf, p, flag);
      if flag != 0 {
        r := ReadLiteral(p, flag);
      } else {
        r := ReadBackRef(p, flag);
      }
    }

    /** The eight bits of a literal, after its flag bit was read at `p`. */
    method ReadLiteral(ghost p: nat, flag: nat) returns (r: Option<Token>)
      requires CursorValid() && bitPos == p + 1 && flag == BitsValue(buf, p, 1) && flag != 0
      modifies this`currentByte, this`readPos, this`mask, this`bitPos, this`bitIdx
      ensures CursorValid()
      ensures r.None? <==> p + 9 > 8 * |buf|
      ensures r.Some? ==> ParseToken(buf, p) == Some((r.value, bitPos))
    {
      var more := HasBits(8);
      if !more {
        return None;
      }
      ghost var p1 := bitPos;
      var v := ReadBits(8);
      Pow2Facts();
      ParseLiteralAt(buf, p, flag, p1, v, bitPos);
      r := Some(Literal(v as bv8));
    }

    /** The 13-bit offset and 4-bit length field of a back-reference, after its flag bit was read at `p`. */
    method ReadBackRef(ghost p: nat, flag: nat) returns (r: Option<Token>)
      requires CursorValid() && bitPos == p + 1 && flag == BitsValue(buf, p, 1) && flag == 0
      modifies this`currentByte, this`readPos, this`mask, this`bitPos, this`bitIdx
      ensures CursorValid()
      ensures r.None? <==> p + 18 > 8 * |buf|
      ensures r.Some? ==> ParseToken(buf, p) == Some((r.value, bitPos))
    {
      var more := HasBits(17);
      if !more {
        return None;
      }
      ghost var p1 := bitPos;
      var offset := ReadBits(13);
      ghost var p2 := bitPos;
      var field := ReadBits(4);
      ParseBackRefAt(buf, p, flag, p1, offset, p2, field, bitPos);
      r := Some(BackRef(offset, MIN_MATCH + field));
    }

    /** The writing half of one pass of unpack's loop: the bytes of token `t`, emitted at `out`. */
    method EmitToken(buffer: array<bv8>, out: nat, t: Token)
      requires WindowValid() && buffer != lookback && out + TokenLength(t) <= buffer.Length
      modifies buffer, lookback, this`writeIndex
      ensures WindowValid() && buffer[..out] == old(buffer[..out])
      ensures buffer[out..out + TokenLength(t)] == ExpandToken(old(State()), t).0
      ensures State() == ExpandToken(old(State()), t).1
    {
      match t
      case Literal(b) =>
        Put(buffer, out, b);
        assert buffer[out..out + 1] == [b];
      case BackRef(offset, count) =>
        CopyMatch(buffer, out, offset, count);
    }

    /**
     * One pass of unpack's loop: read a token and emit its bytes at `out`. On success the
     * token `t` is the one parsed at the old cursor and its `n` bytes were emitted; on
     * failure the reference decoder fails with the same error.
     */
    method UnpackStep(buffer: array<bv8>, out: nat, len: nat) returns (err: Option<DecodeError>, n: nat, ghost t: Token)
      requires Valid() && buffer != lookback && out + len == buffer.Length && 0 < len
      modifies this`currentByte, this`readPos, this`mask, this`bitPos, this`bitIdx, this`writeIndex, lookback, buffer
      ensures Valid()
      ensures err.Some? ==> Decode(buf, old(bitPos), old(State()), len) == DecodeFailed(err.value)
      ensures err.None? ==> ParseToken(buf, old(bitPos)) == Some((t, bitPos)) && n == TokenLength(t) <= len
      ensures err.None? ==> buffer[..out] == old(buffer[..out])
      ensures err.None? ==> buffer[out..out + n] == ExpandToken(old(State()), t).0
      ensures err.None? ==> State() == ExpandToken(old(State()), t).1
    {
      ghost var p := bitPos;
      ghost var st := State();
      var token := ReadToken();
      if token.None? {
        DecodeFails(buf, p, st, len, UnexpectedEndOfStream);
        return Some(UnexpectedEndOfStream), 0, Literal(0);
      }
      var tok := token.value;
      t := tok;
      n := TokenLength(tok);
      if n > len {
        DecodeFails(buf, p, st, len, TokenOverrun);
        return Some(TokenOverrun), 0, t;
      }
      EmitToken(buffer, out, tok);
      err := None;
    }

    /**
     * unpack: decode exactly `length` bytes into `buffer`, updating the window as it goes.
     * The result agrees with the reference decoder; the C code has no end-of-input check
     * and lets an over-long back-reference underflow its length counter, and both cases
     * are reported as errors here.
     */
    method Unpack(buffer: array<bv8>, length: nat) returns (r: DecodeResult)
      requires Valid() && buffer.Length == length && buffer != lookback
      modifies this`currentByte, this`readPos, this`mask, this`bitPos, this`bitIdx, this`writeIndex, lookback, buffer
      ensures Valid()
      ensures r == Decode(buf, old(bitPos), old(State()), length)
      ensures r.Decoded? ==> r.out == buffer[..]
    {
      ghost var p0 := bitPos;
      ghost var st0 := State();
      var out: nat := 0;
      var len: nat := length;
      while len > 0
        invariant Valid() && out + len == length
        invariant Prepend(buffer[..out], Decode(buf, bitPos, State(), len)) == Decode(buf, p0, st0, length)
        decreases len
      {
        ghost var p := bitPos;
        ghost var st := State();
        ghost var prefix := buffer[..out];
        var err, n, t := UnpackStep(buffer, out, len);
        if err.Some? {
          return DecodeFailed(err.value);
        }
        ghost var q := bitPos;
        ghost var piece := buffer[out..out + n];
        assert buffer[..out + n] == prefix + piece;
        ghost var st2 := State();
        DecodeAfterStep(buf, p0, st0, length, p, st, len, prefix, t, q, piece, st2);
        ghost var rest := Decode(buf, q, st2, len - n);
        out := out + n;
        len := len - n;
        assert buffer[..out] == prefix + piece && bitPos == q && State() == st2;
        assert Prepend(buffer[..out], rest) == Decode(buf, p0, st0, length);
      }
      assert buffer[..out] == buffer[..];
      return Decoded(buffer[..]);
    }
  }

  /** Where no token can be parsed, or the parsed one is too long, the reference decoder fails. */
  lemma DecodeFails(buf: Bytes, p: nat, st: LzState, len: nat, e: DecodeError)
    requires ValidState(st) && 0 < len
    requires e == UnexpectedEndOfStream ==> ParseToken(buf, p).None?
    requires e == TokenOverrun ==> ParseToken(buf, p).Some? && TokenLength(ParseToken(buf, p).value.0) > len
    ensures Decode(buf, p, st, len) == DecodeFailed(e)
  {
  }

  /**
   * One pass of unpack's loop keeps its invariant: the bytes emitted so far followed by
   * the decoding of what is left are the decoding of the whole entry.
   */
  lemma DecodeAfterStep(buf: Bytes, p0: nat, st0: LzState, length: nat, p: nat, st: LzState, len: nat,
                        prefix: Bytes, t: Token, q: nat, piece: Bytes, st2: LzState)
    requires ValidState(st0) && ValidState(st) && 0 < len
    requires Prepend(prefix, Decode(buf, p, st, len)) == Decode(buf, p0, st0, length)
    requires ParseToken(buf, p) == Some((t, q)) && TokenLength(t) <= len
    requires piece == ExpandToken(st, t).0 && st2 == ExpandToken(st, t).1
    ensures Prepend(prefix + piece, Decode(buf, q, st2, len - TokenLength(t))) == Decode(buf, p0, st0, length)
  {
    DecodeStep(buf, p, st, len, t, q);
    PrependConcat(prefix, piece, Decode(buf, q, st2, len - TokenLength(t)));
  }

  /** Prepending two pieces one after the other is prepending their concatenation. */
  lemma PrependConcat(a: Bytes, b: Bytes, r: DecodeResult)
    ensures Prepend(a, Prepend(b, r)) == Prepend(a + b, r)
  {
    if r.Decoded? {
      assert a + (b + r.out) == (a + b) + r.out;
    }
  }

  /**
   * What read_bits has accumulated after `k` of `n` bits: each set bit i contributes
   * its weight 2^(n-1-i).
   */
  ghost function WeightedBits(buf: Bytes, p: nat, k: nat, n: nat): nat
    requires k <= n && p + k <= 8 * |buf|
  {
    if k == 0 then 0
    else WeightedBits(buf, p, k - 1, n) + (if Bit(buf, p + k - 1) == 1 then Pow2(n - k) else 0)
  }

  /** The first `k` bits, weighted as read_bits weighs them, are their value shifted left by n - k. */
  lemma {:induction false} WeightedBitsValue(buf: Bytes, p: nat, k: nat, n: nat)
    requires k <= n && p + k <= 8 * |buf|
    ensures WeightedBits(buf, p, k, n) == BitsValue(buf, p, k) * Pow2(n - k)
  {
    if k > 0 {
      WeightedBitsValue(buf, p, k - 1, n);
      var v := BitsValue(buf, p, k - 1);
      var e := Pow2(n - k);
      assert Pow2(n - (k - 1)) == 2 * e;
      MulDouble(v, e);
      MulDistrib(2 * v, Bit(buf, p + k - 1), e);
    }
  }

  /** One pass of read_bits' loop adds the bit just read at its weight and halves the weight. */
  lemma AccumulateBit(buf: Bytes, p: nat, k: nat, n: nat, r: nat, bit: nat, weight: nat)
    requires k < n && p + k < 8 * |buf|
    requires r == WeightedBits(buf, p, k, n) && bit == Bit(buf, p + k) && weight == Pow2(n - 1 - k)
    ensures (if bit != 0 then r + weight else r) == WeightedBits(buf, p, k + 1, n)
    ensures weight / 2 == if k + 1 < n then Pow2(n - 1 - (k + 1)) else 0
  {
    if k + 1 < n {
      assert Pow2(n - 1 - k) == 2 * Pow2(n - 1 - (k + 1));
    }
  }

  /**
   * The decoding of one archive entry by a fresh context: `length` bytes from the
   * compressed input, starting with a zero-filled window and write index 1.
   */
  method DecompressEntry(input: Bytes, length: nat) returns (r: DecodeResult)
    ensures r == Decode(input, 0, InitialState(), length)
    ensures r.Decoded? ==> |r.out| == length
  {
    var ctx := new DecompressionContext(input);
    var buffer := new bv8[length];
    r := ctx.Unpack(buffer, length);
  }
}
