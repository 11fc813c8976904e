/**
 * xtea8: eight rounds of XTEA encipherment of one 64-bit block. The scene metadata uses it
 * as a keystream: the key word for metadata word i is the first half of the block (crc, i)
 * enciphered under the 128-bit key "SceneMetaPixels!".
 *
 * The additions of the C code are on uint32_t; here a word is a natural number below 2^32
 * and every addition and subtraction wraps explicitly modulo 2^32. The shifts and XORs of
 * the mixing function are done on bv32.
 */
module Xtea {
  import opened Common

  const WORD: nat := 0x1_0000_0000

  /** A uint32_t value. */
  type Word = n: nat | n < 0x1_0000_0000

  /** The round constant of XTEA. */
  const DELTA: Word := 0x9e37_79b9
  const ROUNDS: nat := 8

  /** A 64-bit block as the two words genkey[0] and genkey[1]. */
  datatype Block = Block(v0: Word, v1: Word)

  /** A 128-bit key as its four words key[0..4]. */
  datatype Key = Key(k0: Word, k1: Word, k2: Word, k3: Word)

  /** key[sel & 3]. */
  function KeyWord(key: Key, sel: Word): Word {
    var i := sel % 4;
    if i == 0 then key.k0 else if i == 1 then key.k1 else if i == 2 then key.k2 else key.k3
  }

  /** uint32_t addition and subtraction. */
  function Add(a: Word, b: Word): Word {
    (a + b) % WORD
  }

  function Sub(a: Word, b: Word): Word {
    (a - b) % WORD
  }

  /** Subtraction undoes addition, in uint32_t arithmetic. */
  lemma SubAdd(a: Word, b: Word)
    ensures Sub(Add(a, b), b) == a
  {
  }

  /** A word as its 32 bits, and back. */
  function BitsOf(w: Word): bv32 {
    w as bv32
  }

  function WordOf(b: bv32): Word {
    b as nat
  }

  /** (v << 4 ^ v >> 5) + v on uint32_t. */
  function Mix(v: bv32): bv32 {
    ((v << 4) ^ (v >> 5)) + v
  }

  /**
   * What a half-round adds to one half: the mixed other half XOR (key[sel & 3] + sum).
   */
  function Feistel(key: Key, v: Word, sel: Word, sum: Word): Word {
    WordOf(Mix(BitsOf(v)) ^ BitsOf(Add(KeyWord(key, sel), sum)))
  }

  /** The Feistel function of a key, as the value the rounds are built from. */
  function FeistelOf(key: Key): (Word, Word, Word) -> Word {
    (v: Word, sel: Word, sum: Word) => Feistel(key, v, sel, sum)
  }

  /**
   * The round structure below is stated for any Feistel function f; xtea8 uses FeistelOf(key).
   * A round's inverse depends only on the additions, not on what f computes.
   */
  type F = (Word, Word, Word) -> Word

  /** The sum of the round constants after n rounds started at `sum`. */
  function SumAfter(sum: Word, n: nat): Word {
    if n == 0 then sum else Add(SumAfter(sum, n - 1), DELTA)
  }

  /**
   * One round entered with running sum `sum`: the first half gains the Feistel value of the
   * second under key[sum & 3], then, with sum advanced by DELTA, the second half gains the
   * Feistel value of the new first half under key[(sum >> 11) & 3].
   */
  function Round(f: F, b: Block, sum: Word): Block
  {
    var v0 := Add(b.v0, f(b.v1, sum, sum));
    var next := Add(sum, DELTA);
    Block(v0, Add(b.v1, f(v0, next / 2048, next)))
  }

  /** The inverse of the round entered with `sum`: the second half first, then the first. */
  function Unround(f: F, b: Block, sum: Word): Block
  {
    var next := Add(sum, DELTA);
    var v1 := Sub(b.v1, f(b.v0, next / 2048, next));
    Block(Sub(b.v0, f(v1, sum, sum)), v1)
  }

  /** n rounds from running sum `sum`. */
  function Encipher(f: F, b: Block, sum: Word, n: nat): Block
  {
    if n == 0 then b else Round(f, Encipher(f, b, sum, n - 1), SumAfter(sum, n - 1))
  }

  /** The n rounds from running sum `sum` undone, last round first. */
  function Decipher(f: F, b: Block, sum: Word, n: nat): Block
    decreases n
  {
    if n == 0 then b else Decipher(f, Unround(f, b, SumAfter(sum, n - 1)), sum, n - 1)
  }

  /** xtea8 on (v0, v1): eight rounds from sum 0. */
  function Xtea8(key: Key, b: Block): Block {
    Encipher(FeistelOf(key), b, 0, ROUNDS)
  }

  /** Undoing a round gives back the second half first. */
  lemma SecondHalfBack(f: F, b: Block, sum: Word)
    ensures Unround(f, Round(f, b, sum), sum).v1 == b.v1
  {
    var r := Round(f, b, sum);
    var next := Add(sum, DELTA);
    SubAdd(b.v1, f(r.v0, next / 2048, next));
  }

  /** Each round is undone by its inverse. */
  lemma UnroundRound(f: F, b: Block, sum: Word)
    ensures Unround(f, Round(f, b, sum), sum) == b
  {
    SecondHalfBack(f, b, sum);
    var x := f(b.v1, sum, sum);
    SubAdd(b.v0, x);
    assert Round(f, b, sum).v0 == Add(b.v0, x);
  }

  /** Deciphering undoes enciphering, for any number of rounds and any start sum. */
  lemma {:induction false} DecipherEncipher(f: F, b: Block, sum: Word, n: nat)
    ensures Decipher(f, Encipher(f, b, sum, n), sum, n) == b
  {
    if n > 0 {
      var before := Encipher(f, b, sum, n - 1);
      UnroundRound(f, before, SumAfter(sum, n - 1));
      DecipherEncipher(f, b, sum, n - 1);
    }
  }

  /**
   * xtea8 is a permutation of the 64-bit blocks: two different blocks never encipher to
   * the same block under the same key.
   */
  lemma Xtea8Injective(key: Key, a: Block, b: Block)
    requires Xtea8(key, a) == Xtea8(key, b)
    ensures a == b
  {
    DecipherEncipher(FeistelOf(key), a, 0, ROUNDS);
    DecipherEncipher(FeistelOf(key), b, 0, ROUNDS);
  }

  /** The halves after one more round are Encipher of one more round. */
  lemma RoundStep(f: F, start: Block, i: nat, before: Block, after: Block)
    requires before == Encipher(f, start, 0, i)
    requires after == Round(f, before, SumAfter(0, i))
    ensures after == Encipher(f, start, 0, i + 1)
  {
  }

  /** One round on the halves, advancing the running sum by DELTA between the two updates. */
  method RoundOnce(f: F, v0: Word, v1: Word, sum: Word) returns (r0: Word, r1: Word, sum': Word)
    ensures Block(r0, r1) == Round(f, Block(v0, v1), sum) && sum' == Add(sum, DELTA)
  {
    r0 := Add(v0, f(v1, sum, sum));
    sum' := Add(sum, DELTA);
    r1 := Add(v1, f(r0, sum' / 2048, sum'));
  }

  /** The loop of xtea8 for any round function: `rounds` rounds from a zero sum. */
  method Rounds(f: F, v0: Word, v1: Word, rounds: nat) returns (r0: Word, r1: Word)
    ensures Block(r0, r1) == Encipher(f, Block(v0, v1), 0, rounds)
  {
    r0, r1 := v0, v1;
    var sum: Word := 0;
    var i := 0;
    while i < rounds
      invariant i <= rounds && sum == SumAfter(0, i)
      invariant Block(r0, r1) == Encipher(f, Block(v0, v1), 0, i)
    {
      ghost var before := Block(r0, r1);
      r0, r1, sum := RoundOnce(f, r0, r1, sum);
      RoundStep(f, Block(v0, v1), i, before, Block(r0, r1));
      i := i + 1;
    }
  }

  /** xtea8: genkey[0] and genkey[1] are replaced by their encipherment. */
  method Xtea8InPlace(genkey: array<Word>, key: Key)
    requires genkey.Length == 2
    modifies genkey
    ensures Block(genkey[0], genkey[1]) == Xtea8(key, Block(old(genkey[0]), old(genkey[1])))
  {
    var v0, v1 := Rounds(FeistelOf(key), genkey[0], genkey[1], ROUNDS);
    genkey[0] := v0;
    genkey[1] := v1;
  }
}
