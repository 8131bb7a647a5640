/**
 * How the sketch reads a 64-bit hash: its top `b` bits choose a register
 * (`RegisterIndex`), and the position of the first set bit among the remaining
 * `64 - b` bits, counted from the top, is the rank stored there
 * (`PositionOfLeftMostOne`).
 *
 * Bit `i` of a hash is bit `i` counted from the least significant end.
 */
module HashBits {

  // ---------------------------------------------------------------------
  // Powers of two

  function Pow2(n: nat): (r: nat)
    ensures r >= 1
  {
    if n == 0 then 1 else 2 * Pow2(n - 1)
  }

  lemma {:induction false} Pow2Add(a: nat, b: nat)
    ensures Pow2(a + b) == Pow2(a) * Pow2(b)
    decreases a
  {
    if a > 0 {
      Pow2Add(a - 1, b);
    }
  }

  lemma Pow2Plus8(n: nat)
    ensures Pow2(n + 8) == 256 * Pow2(n)
  {
    assert Pow2(n + 8) == 2 * Pow2(n + 7) == 4 * Pow2(n + 6) == 8 * Pow2(n + 5);
    assert Pow2(n + 5) == 2 * Pow2(n + 4) == 4 * Pow2(n + 3) == 8 * Pow2(n + 2);
    assert Pow2(n + 2) == 2 * Pow2(n + 1) == 4 * Pow2(n);
  }

  lemma Pow2Of64()
    ensures Pow2(64) == 0x1_0000_0000_0000_0000
  {
    assert Pow2(8) == 0x100 by { Pow2Plus8(0); }
    assert Pow2(16) == 0x1_0000 by { Pow2Plus8(8); }
    assert Pow2(24) == 0x100_0000 by { Pow2Plus8(16); }
    assert Pow2(32) == 0x1_0000_0000 by { Pow2Plus8(24); }
    assert Pow2(40) == 0x100_0000_0000 by { Pow2Plus8(32); }
    assert Pow2(48) == 0x1_0000_0000_0000 by { Pow2Plus8(40); }
    assert Pow2(56) == 0x100_0000_0000_0000 by { Pow2Plus8(48); }
    Pow2Plus8(56);
  }

  lemma HashBelow(h: bv64)
    ensures h as int < 0x1_0000_0000_0000_0000
  {
  }

  lemma DivBelow(x: nat, a: nat, q: nat)
    requires q > 0 && x < a * q
    ensures 0 <= x / q < a
  {
  }

  /** The quotient of a 64-bit value by 2^(64-b) is below 2^b. */
  lemma TopBitsBelow(x: nat, b: nat)
    requires b <= 64 && x < 0x1_0000_0000_0000_0000
    ensures 0 <= x / Pow2(64 - b) < Pow2(b)
  {
    Pow2Of64();
    Pow2Add(b, 64 - b);
    DivBelow(x, Pow2(b), Pow2(64 - b));
  }

  // ---------------------------------------------------------------------
  // The register index: `hash >> (64 - b)`

  /** The top `b` bits of `hash` as an unsigned number: shifting an unsigned
      64-bit value right by `64 - b` is floor division by 2^(64-b).  It names one
      of the 2^b registers. */
  function RegisterIndex(hash: bv64, b: nat): (idx: nat)
    requires 1 <= b <= 64
    ensures idx < Pow2(b)
  {
    HashBelow(hash);
    TopBitsBelow(hash as int, b);
    (hash as int) / Pow2(64 - b)
  }

  // ---------------------------------------------------------------------
  // The rank

  /** Bit `i` of `h`, counted from the least significant end. */
  function Bit(h: bv64, i: nat): bool
    requires i < 64
  {
    (h >> i) & 1 == 1
  }

  /** The number of clear bits of `h` from bit `i` down, before the first set
      bit; `i + 1` when bits `i`, ..., 0 are all clear. */
  function Clz(h: bv64, i: int): (n: nat)
    requires -1 <= i < 64
    ensures n <= i + 1
    decreases i + 1
  {
    if i < 0 then 0 else if Bit(h, i) then 0 else 1 + Clz(h, i - 1)
  }

  /** The rank of `h` under precision `b`: the 1-based position of the first set
      bit, scanning from bit `63 - b` down; `(64 - b) + 1` when there is none. */
  function Rank(h: bv64, b: nat): (r: nat)
    requires b <= 64
    ensures 1 <= r <= 65 - b
  {
    Clz(h, 63 - b) + 1
  }

  /** The scan of the source: the loop returns at the first set bit from bit
      `63 - b` down, and falls through to the sentinel `(64 - b) + 1`. */
  method PositionOfLeftMostOne(hash: bv64, b: nat) returns (p: nat)
    requires b <= 64
    ensures p == Rank(hash, b)
  {
    var i: int := 63 - b;
    while i >= 0
      invariant -1 <= i <= 63 - b
      invariant Clz(hash, 63 - b) == (63 - b - i) + Clz(hash, i)
      decreases i
    {
      if Bit(hash, i) {
        return (63 - b - i) + 1;
      }
      i := i - 1;
    }
    return (64 - b) + 1;
  }

  /** `Clz(h, i) == i + 1` exactly when bits `i`, ..., 0 are all clear. */
  lemma {:induction false} ClzAllClear(h: bv64, i: int)
    requires -1 <= i < 64
    ensures Clz(h, i) == i + 1 <==> forall j :: 0 <= j <= i ==> !Bit(h, j)
    decreases i + 1
  {
    if i >= 0 {
      ClzAllClear(h, i - 1);
      if Bit(h, i) {
        assert Clz(h, i) == 0 != i + 1;
      }
    }
  }

  /** When `Clz(h, i) <= i`, bit `i - Clz(h, i)` is set and every bit above it,
      up to and including bit `i`, is clear. */
  lemma {:induction false} ClzFirstSet(h: bv64, i: int)
    requires -1 <= i < 64 && Clz(h, i) <= i
    ensures Bit(h, i - Clz(h, i))
    ensures forall j :: i - Clz(h, i) < j <= i ==> !Bit(h, j)
    decreases i + 1
  {
    if !Bit(h, i) {
      ClzFirstSet(h, i - 1);
    }
  }

  /** The sentinel `(64 - b) + 1` is returned exactly when bits `63 - b`, ..., 0
      of the hash are all clear. */
  lemma RankSentinel(h: bv64, b: nat)
    requires b <= 64
    ensures Rank(h, b) == 65 - b <==> forall j :: 0 <= j <= 63 - b ==> !Bit(h, j)
  {
    ClzAllClear(h, 63 - b);
  }

  /** Any other rank `r` marks bit `64 - b - r` as set and bits `63 - b`, ...,
      `65 - b - r` as clear. */
  lemma RankFirstSet(h: bv64, b: nat)
    requires b <= 64 && Rank(h, b) <= 64 - b
    ensures Bit(h, 64 - b - Rank(h, b))
    ensures forall j :: 64 - b - Rank(h, b) < j <= 63 - b ==> !Bit(h, j)
  {
    ClzFirstSet(h, 63 - b);
  }
}
