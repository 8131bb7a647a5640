/**
 * MurmurHash64A, the 64-bit variant of Austin Appleby's MurmurHash2, which the
 * sketch uses to turn every key into a 64-bit hash.  All arithmetic is on
 * `bv64`, that is modulo 2^64, as `uint64_t` arithmetic is in C++.
 *
 * Each kind of statement of the C++ function (`x *= m`, `x ^= x >> r`, `h ^= k`,
 * `uint64_t(b) << 8j`) is one small function below.  The methods execute them
 * statement by statement, and the specification `Hash` composes the same
 * functions, so implementation and specification are compared step by step.
 * Separate lemmas then relate the specification to a reference description:
 * the key's full words and its tail are read little-endian (`LittleEndian`),
 * and the words are folded in order (`Fold`).
 *
 * The source reads each full 8-byte word with a raw, possibly unaligned, load.
 * The model assumes a little-endian host: byte j of a word supplies bits
 * 8j..8j+7 (`LoadWord`).
 */
module Murmur {

  /** The multiplicative mixing constant `m`. */
  const M: bv64 := 0xc6a4a7935bd1e995
  /** The xor-shift distance `r`. */
  const R := 47
  /** The longest key the `int len` parameter can carry. */
  const MaxLen := 0x7FFF_FFFF

  // ---------------------------------------------------------------------
  // The statements of the source, one function each

  /** `x *= m` */
  function MulM(x: bv64): bv64
  {
    x * M
  }

  /** `x ^= x >> r` */
  function XorShift(x: bv64): bv64
  {
    x ^ (x >> R)
  }

  /** `h ^= k` */
  function Xor(h: bv64, k: bv64): bv64
  {
    h ^ k
  }

  /** `uint64_t(b) << 8j`: byte `b` placed at bits 8j..8j+7 (each shift a
      constant, as in the source). */
  function Place(b: bv8, j: nat): bv64
    requires j < 8
  {
    var w := b as bv64;
    if j == 0 then w
    else if j == 1 then w << 8
    else if j == 2 then w << 16
    else if j == 3 then w << 24
    else if j == 4 then w << 32
    else if j == 5 then w << 40
    else if j == 6 then w << 48
    else w << 56
  }

  /** `uint64_t(len)`: the key length as a 64-bit word. */
  function LenWord(len: nat): bv64
    requires len <= MaxLen
  {
    len as bv64
  }

  /** `*data`: the 8-byte word at offset `off`, composed little-endian
      (byte `off + j` lands at bits 8j..8j+7). */
  function LoadWord(key: seq<bv8>, off: nat): bv64
    requires off + 8 <= |key|
  {
    Xor(Xor(Xor(Xor(Xor(Xor(Xor(
      Place(key[off], 0), Place(key[off + 1], 1)), Place(key[off + 2], 2)),
      Place(key[off + 3], 3)), Place(key[off + 4], 4)), Place(key[off + 5], 5)),
      Place(key[off + 6], 6)), Place(key[off + 7], 7))
  }

  // ---------------------------------------------------------------------
  // Specification

  /** The initial state `seed ^ (len * m)`, the 32-bit seed zero-extended. */
  function Seeded(seed: bv32, len: nat): bv64
    requires len <= MaxLen
  {
    Xor(seed as bv64, MulM(LenWord(len)))
  }

  /** The scrambling of one word: k *= m; k ^= k >> r; k *= m. */
  function MixWord(k: bv64): bv64
  {
    MulM(XorShift(MulM(k)))
  }

  /** Folding one word into the state: h ^= (mixed k); h *= m. */
  function Absorb(h: bv64, k: bv64): bv64
  {
    MulM(Xor(h, MixWord(k)))
  }

  /** The `i`-th full word of `key`. */
  function Word(key: seq<bv8>, i: nat): bv64
    requires 8 * i + 8 <= |key|
  {
    LoadWord(key, 8 * i)
  }

  /** The state after words `i`, ..., `n - 1` of `key` are folded into `h`, in order. */
  function Body(h: bv64, key: seq<bv8>, i: nat, n: nat): bv64
    requires i <= n && 8 * n <= |key|
    decreases n - i
  {
    if i == n then h else Body(Absorb(h, Word(key, i)), key, i + 1, n)
  }

  /** The tail cases `n`, `n - 1`, ..., 1 of the fall-through `switch`: byte j of
      `tail` is xored in at bits 8j..8j+7, the highest byte first. */
  function XorTail(h: bv64, tail: seq<bv8>, n: nat): bv64
    requires n <= |tail| < 8
    decreases n
  {
    if n == 0 then h else XorTail(Xor(h, Place(tail[n - 1], n - 1)), tail, n - 1)
  }

  /** The whole `switch (len & 7)`: every tail byte xored in, then exactly one
      `h *= m`; with no tail bytes, nothing at all. */
  function Tail(h: bv64, tail: seq<bv8>): bv64
    requires |tail| < 8
  {
    if |tail| == 0 then h else MulM(XorTail(h, tail, |tail|))
  }

  /** The finaliser: h ^= h >> r; h *= m; h ^= h >> r. */
  function Finalize(h: bv64): bv64
  {
    XorShift(MulM(XorShift(h)))
  }

  /** MurmurHash64A of `key` under `seed`. */
  function Hash(key: seq<bv8>, seed: bv32): bv64
    requires |key| <= MaxLen
  {
    var n := |key| / 8;
    Finalize(Tail(Body(Seeded(seed, |key|), key, 0, n), key[8 * n..]))
  }

  // ---------------------------------------------------------------------
  // Implementation

  /** The word loop: `len / 8` full words, read in order, each scrambled and
      folded into `h`. */
  method MixBlocks(h0: bv64, key: seq<bv8>) returns (h: bv64)
    ensures h == Body(h0, key, 0, |key| / 8)
  {
    h := h0;
    var blocks := |key| / 8;
    var i := 0;
    while i < blocks
      invariant 0 <= i <= blocks
      invariant Body(h, key, i, blocks) == Body(h0, key, 0, blocks)
    {
      var k := LoadWord(key, 8 * i);
      k := MulM(k);
      k := XorShift(k);
      k := MulM(k);
      h := Xor(h, k);
      h := MulM(h);
      i := i + 1;
    }
  }

  /** The fall-through `switch (len & 7)` over the `len % 8` bytes of `key` from
      offset `off` on: cases 7 down to 1 each xor one byte in, and case 1 ends
      with `h *= m`. */
  method MixTail(h0: bv64, key: seq<bv8>, off: nat) returns (h: bv64)
    requires off <= |key| && |key| - off < 8
    ensures h == Tail(h0, key[off..])
  {
    h := h0;
    ghost var tail := key[off..];
    var t := |key| - off;
    ghost var left := t;
    if t >= 7 { h := Xor(h, Place(key[off + 6], 6)); left := 6; }
    assert XorTail(h0, tail, t) == XorTail(h, tail, left);
    if t >= 6 { h := Xor(h, Place(key[off + 5], 5)); left := 5; }
    assert XorTail(h0, tail, t) == XorTail(h, tail, left);
    if t >= 5 { h := Xor(h, Place(key[off + 4], 4)); left := 4; }
    assert XorTail(h0, tail, t) == XorTail(h, tail, left);
    if t >= 4 { h := Xor(h, Place(key[off + 3], 3)); left := 3; }
    assert XorTail(h0, tail, t) == XorTail(h, tail, left);
    if t >= 3 { h := Xor(h, Place(key[off + 2], 2)); left := 2; }
    assert XorTail(h0, tail, t) == XorTail(h, tail, left);
    if t >= 2 { h := Xor(h, Place(key[off + 1], 1)); left := 1; }
    assert XorTail(h0, tail, t) == XorTail(h, tail, left);
    if t >= 1 {
      h := Xor(h, Place(key[off], 0));
      h := MulM(h);
    }
  }

  /** MurmurHash64A: the seeding, the word loop, the tail and the finaliser. */
  method MurmurHash64A(key: seq<bv8>, seed: bv32) returns (h: bv64)
    requires |key| <= MaxLen
    ensures h == Hash(key, seed)
  {
    var len := |key|;
    h := Xor(seed as bv64, MulM(LenWord(len)));
    h := MixBlocks(h, key);
    h := MixTail(h, key, 8 * (len / 8));
    h := XorShift(h);
    h := MulM(h);
    h := XorShift(h);
  }

  // ---------------------------------------------------------------------
  // Reference description and its agreement with the specification

  /** The little-endian value of at most 8 bytes: byte j at bits 8j..8j+7. */
  function LittleEndian(bytes: seq<bv8>): bv64
    requires |bytes| <= 8
  {
    if |bytes| == 0 then 0
    else Xor(LittleEndian(bytes[..|bytes| - 1]), Place(bytes[|bytes| - 1], |bytes| - 1))
  }

  /** The full words of `key` in order, each read little-endian. */
  function Words(key: seq<bv8>): (ws: seq<bv64>)
    ensures |ws| == |key| / 8
  {
    seq(|key| / 8, i requires 0 <= i < |key| / 8 => LittleEndian(key[8 * i..8 * i + 8]))
  }

  /** Absorbing the words `ws` one after the other, first to last. */
  function Fold(h: bv64, ws: seq<bv64>): bv64
    decreases |ws|
  {
    if |ws| == 0 then h else Fold(Absorb(h, ws[0]), ws[1..])
  }

  lemma XorAssoc(a: bv64, b: bv64, c: bv64)
    ensures Xor(Xor(a, b), c) == Xor(a, Xor(b, c))
  {
  }

  lemma XorComm(a: bv64, b: bv64)
    ensures Xor(a, b) == Xor(b, a)
  {
  }

  lemma XorZero(a: bv64)
    ensures Xor(0, a) == a && Xor(a, 0) == a
  {
  }

  /** `LittleEndian` of `k + 1` consecutive key bytes adds byte `k` at bits 8k..8k+7. */
  lemma LittleEndianStep(key: seq<bv8>, off: nat, k: nat)
    requires k < 8 && off + k + 1 <= |key|
    ensures LittleEndian(key[off..off + k + 1])
         == Xor(LittleEndian(key[off..off + k]), Place(key[off + k], k))
  {
    var s := key[off..off + k + 1];
    assert s[..k] == key[off..off + k];
  }

  /** The raw word load reads the 8 bytes from `off` on little-endian. */
  lemma {:induction false} LoadWordIsLittleEndian(key: seq<bv8>, off: nat)
    requires off + 8 <= |key|
    ensures LoadWord(key, off) == LittleEndian(key[off..off + 8])
  {
    var p0, p1, p2, p3 := Place(key[off], 0), Place(key[off + 1], 1), Place(key[off + 2], 2), Place(key[off + 3], 3);
    var p4, p5, p6, p7 := Place(key[off + 4], 4), Place(key[off + 5], 5), Place(key[off + 6], 6), Place(key[off + 7], 7);
    assert LittleEndian(key[off..off + 1]) == p0 by {
      assert LittleEndian(key[off..off]) == 0;
      LittleEndianStep(key, off, 0);
      XorZero(p0);
    }
    var w2 := Xor(p0, p1);
    assert LittleEndian(key[off..off + 2]) == w2 by { LittleEndianStep(key, off, 1); }
    var w3 := Xor(w2, p2);
    assert LittleEndian(key[off..off + 3]) == w3 by { LittleEndianStep(key, off, 2); }
    var w4 := Xor(w3, p3);
    assert LittleEndian(key[off..off + 4]) == w4 by { LittleEndianStep(key, off, 3); }
    var w5 := Xor(w4, p4);
    assert LittleEndian(key[off..off + 5]) == w5 by { LittleEndianStep(key, off, 4); }
    var w6 := Xor(w5, p5);
    assert LittleEndian(key[off..off + 6]) == w6 by { LittleEndianStep(key, off, 5); }
    var w7 := Xor(w6, p6);
    assert LittleEndian(key[off..off + 7]) == w7 by { LittleEndianStep(key, off, 6); }
    LittleEndianStep(key, off, 7);
  }

  /** The `i`-th of the key's little-endian words is the word the loop loads. */
  lemma WordsAt(key: seq<bv8>, i: nat)
    requires 8 * i + 8 <= |key|
    ensures i < |Words(key)| && Words(key)[i] == Word(key, i)
  {
    LoadWordIsLittleEndian(key, 8 * i);
  }

  /** The word loop folds in the key's full little-endian words, in order:
      words `i`, ..., `n - 1` are absorbed first to last. */
  lemma {:induction false} BodyIsFold(h: bv64, key: seq<bv8>, i: nat, n: nat)
    requires i <= n && 8 * n <= |key|
    ensures Body(h, key, i, n) == Fold(h, Words(key)[i..n])
    decreases n - i
  {
    var ws := Words(key)[i..n];
    if i == n {
      assert ws == [];
    } else {
      WordsAt(key, i);
      assert ws[0] == Word(key, i);
      assert ws[1..] == Words(key)[i + 1..n];
      BodyIsFold(Absorb(h, Word(key, i)), key, i + 1, n);
    }
  }

  /** Cases `n` down to 1 of the tail `switch` xor in the little-endian value of
      the first `n` tail bytes. */
  lemma {:induction false} XorTailIsXor(h: bv64, tail: seq<bv8>, n: nat)
    requires n <= |tail| < 8
    ensures XorTail(h, tail, n) == Xor(h, LittleEndian(tail[..n]))
    decreases n
  {
    if n == 0 {
      assert LittleEndian(tail[..0]) == 0;
      XorZero(h);
    } else {
      var p := Place(tail[n - 1], n - 1);
      XorTailIsXor(Xor(h, p), tail, n - 1);
      assert tail[..n][..n - 1] == tail[..n - 1];
      XorAssoc(h, p, LittleEndian(tail[..n - 1]));
      XorComm(p, LittleEndian(tail[..n - 1]));
    }
  }

  /** The tail step: with no tail bytes `h` is unchanged; otherwise the tail's
      little-endian value is xored in and `h` is multiplied by `m` exactly once. */
  lemma TailIsLittleEndian(h: bv64, tail: seq<bv8>)
    requires |tail| < 8
    ensures |tail| == 0 ==> Tail(h, tail) == h
    ensures |tail| > 0 ==> Tail(h, tail) == MulM(Xor(h, LittleEndian(tail)))
  {
    XorTailIsXor(h, tail, |tail|);
    assert tail[..|tail|] == tail;
  }

  /** MurmurHash64A, stated from the reference description: the seeded state
      absorbs the little-endian words in order, then the little-endian tail
      (when there is one) and the finaliser. */
  lemma HashIsReference(key: seq<bv8>, seed: bv32)
    requires |key| <= MaxLen
    ensures var body := Fold(Xor(seed as bv64, MulM(LenWord(|key|))), Words(key));
            var tail := key[8 * (|key| / 8)..];
            Hash(key, seed) == Finalize(if |tail| == 0 then body else MulM(Xor(body, LittleEndian(tail))))
  {
    var n := |key| / 8;
    BodyIsFold(Seeded(seed, |key|), key, 0, n);
    assert Words(key)[0..n] == Words(key);
    TailIsLittleEndian(Body(Seeded(seed, |key|), key, 0, n), key[8 * n..]);
  }

  /** The empty key: no words, no tail, only the finaliser over the zero-extended seed. */
  lemma EmptyKey(seed: bv32)
    ensures Hash([], seed) == Finalize(seed as bv64)
  {
  }
}
