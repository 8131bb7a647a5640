/**
 * The `HyperLogLog` sketch: `2^b` registers, each holding the largest rank
 * seen among the elements whose hash selects it, and the cardinality
 * estimate computed from them.
 *
 * Elements are byte strings. The object keeps, as ghost state, the elements
 * added so far, and its invariant ties the registers to them: the registers
 * are exactly `Sketch(b, elems)`.
 */
module HyperLogLog {
  import opened Murmur
  import opened HashBits
  import opened Registers

  /** The seed `CalculateHash` passes to MurmurHash64A. */
  const Seed: bv32 := 0x9747b28c

  /** The hash of one element. */
  method CalculateHash(val: seq<bv8>) returns (h: bv64)
    requires |val| <= MaxLen
    ensures h == Hash(val, Seed)
  {
    h := MurmurHash64A(val, Seed);
  }

  /** The bias correction constant for `m` registers, over exact reals. */
  function GetAlpha(m: nat): (alpha: real)
    requires m >= 1
    ensures 0.0 < alpha < 0.7213
  {
    if m == 16 then 0.673
    else if m == 32 then 0.697
    else if m == 64 then 0.709
    else
      var d := 1.0 + 1.079 / (m as real);
      assert 0.7213 / d < 0.7213 by { BelowWhenDividedByMore(0.7213, d); }
      0.7213 / d
  }

  lemma BelowWhenDividedByMore(x: real, d: real)
    requires x > 0.0 && d > 1.0
    ensures 0.0 < x / d < x
  {
    assert (x / d) * d == x;
  }

  /** Beyond the three tabulated sizes, the constant grows with `m`. */
  lemma AlphaMonotone(m: nat, n: nat)
    requires 1 <= m <= n
    requires m != 16 && m != 32 && m != 64 && n != 16 && n != 32 && n != 64
    ensures GetAlpha(m) <= GetAlpha(n)
  {
    var dm, dn := 1.0 + 1.079 / (m as real), 1.0 + 1.079 / (n as real);
    assert 1.079 / (n as real) <= 1.079 / (m as real) by {
      DivAntitone(1.079, m as real, n as real);
    }
    DivAntitone(0.7213, dn, dm);
  }

  /** The hashes of `vs`, in order. */
  function HashesOf(vs: seq<seq<bv8>>): (hs: seq<bv64>)
    requires forall v :: v in vs ==> |v| <= MaxLen
    ensures |hs| == |vs|
    ensures forall h :: h in hs <==> exists v :: v in vs && h == Hash(v, Seed)
    decreases |vs|
  {
    if |vs| == 0 then []
    else
      var init := vs[..|vs| - 1];
      assert forall v :: v in vs <==> v in init || v == vs[|vs| - 1];
      HashesOf(init) + [Hash(vs[|vs| - 1], Seed)]
  }

  function Zeros(m: nat): (r: seq<int>)
    ensures |r| == m && NonNegative(r)
  {
    seq(m, _ => 0)
  }

  /** The registers of a fresh sketch of precision `b` after the elements `vs`
      are added in order. */
  function Sketch(b: nat, vs: seq<seq<bv8>>): (r: seq<int>)
    requires 1 <= b <= 64
    requires forall v :: v in vs ==> |v| <= MaxLen
    ensures |r| == Pow2(b) && InRange(r, b)
  {
    AddAll(Zeros(Pow2(b)), b, HashesOf(vs))
  }

  /** Adding one more element is one more observation of its hash. */
  lemma SketchAppend(b: nat, vs: seq<seq<bv8>>, v: seq<bv8>)
    requires 1 <= b <= 64
    requires forall u :: u in vs ==> |u| <= MaxLen
    requires |v| <= MaxLen
    ensures forall u :: u in vs + [v] ==> |u| <= MaxLen
    ensures Sketch(b, vs + [v]) == AddHash(Sketch(b, vs), b, Hash(v, Seed))
  {
    assert (vs + [v])[..|vs|] == vs;
  }

  /** Two sketches of the same precision that were given the same elements, in
      any order and with any repetitions, hold the same registers. */
  lemma SketchOfSameSet(b: nat, vs: seq<seq<bv8>>, ws: seq<seq<bv8>>)
    requires 1 <= b <= 64
    requires forall v :: v in vs ==> |v| <= MaxLen
    requires forall v :: v in vs <==> v in ws
    ensures forall v :: v in ws ==> |v| <= MaxLen
    ensures Sketch(b, vs) == Sketch(b, ws)
  {
    AddAllOfSameSet(Zeros(Pow2(b)), b, HashesOf(vs), HashesOf(ws));
  }

  class HyperLogLog {
    /** Number of bits of the hash that select a register. */
    const b: nat
    /** Number of registers, `2^b`. */
    const m: nat
    const alpha: real
    const registers: array<int>
    /** The elements added so far. */
    ghost var elems: seq<seq<bv8>>

    ghost predicate Valid()
      reads this, registers
    {
      && 1 <= b <= 30
      && m == Pow2(b)
      && alpha == GetAlpha(m)
      && (forall v :: v in elems ==> |v| <= MaxLen)
      && registers[..] == Sketch(b, elems)
      && InRange(registers[..], b)
    }

    /** A sketch of precision `b`: `2^b` registers, all zero. */
    constructor (b: nat)
      requires 1 <= b <= 30
      ensures Valid() && fresh(registers)
      ensures this.b == b && m == Pow2(b) && elems == []
      ensures forall j :: 0 <= j < registers.Length ==> registers[j] == 0
    {
      this.b := b;
      m := Pow2(b);
      alpha := GetAlpha(Pow2(b));
      registers := new int[Pow2(b)](_ => 0);
      elems := [];
      new;
      assert registers[..] == Zeros(Pow2(b));
    }

    function GetB(): (r: nat)
      requires Valid()
      reads this, registers
      ensures 1 <= r <= 30 && Pow2(r) == registers.Length
    {
      b
    }

    function GetM(): (r: nat)
      requires Valid()
      reads this, registers
      ensures r == Pow2(GetB()) == registers.Length
    {
      m
    }

    /** Hash `val`, pick its register from the top `b` bits, and raise that
        register to the rank of the hash if it is lower. */
    method AddElem(val: seq<bv8>)
      requires Valid() && |val| <= MaxLen
      modifies this, registers
      ensures Valid() && elems == old(elems) + [val]
      ensures registers[..] == AddHash(old(registers[..]), b, Hash(val, Seed))
    {
      var hash := CalculateHash(val);
      var index := RegisterIndex(hash, b);
      var p := PositionOfLeftMostOne(hash, b);
      registers[index] := Max(registers[index], p);
      SketchAppend(b, elems, val);
      elems := elems + [val];
    }

    /** `floor(alpha * m * m / Σ 2^-register)`, accumulating the sum over the
        registers in order. */
    method ComputeCardinality() returns (estimate: int)
      requires Valid()
      ensures NonNegative(registers[..]) && estimate == Estimate(alpha, registers[..])
    {
      var denominator := 0.0;
      var i := 0;
      while i < registers.Length
        invariant 0 <= i <= registers.Length
        invariant denominator == Denominator(registers[..i])
      {
        assert registers[..i + 1][..i] == registers[..i];
        denominator := denominator + Weight(registers[i]);
        i := i + 1;
      }
      assert registers[..registers.Length] == registers[..];
      estimate := (Numerator(alpha, m) / denominator).Floor;
    }
  }
}
