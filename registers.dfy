/**
 * The register bank as a value: what one observation does to it
 * (register `idx` raised to `p` if it was lower), what a whole stream of
 * hashes does to it, and the estimate computed from it.
 *
 * The estimate is taken over exact real numbers: the weight of a register
 * holding `v` is exactly 2^-v, and no floating-point rounding is modelled.
 */
module Registers {
  import opened HashBits

  function Max(x: int, y: int): (r: int)
    ensures r >= x && r >= y && (r == x || r == y)
  {
    if x >= y then x else y
  }

  // ---------------------------------------------------------------------
  // One observation

  /** Register `idx` raised to `p` if it was lower; the others unchanged. */
  function Observe(regs: seq<int>, idx: nat, p: int): seq<int>
    requires idx < |regs|
  {
    regs[idx := Max(regs[idx], p)]
  }

  /** Observing `p` at `idx` raises register `idx` to `p` if it was lower and
      leaves the count of registers and every other register as it was. */
  lemma ObserveFrame(regs: seq<int>, idx: nat, p: int)
    requires idx < |regs|
    ensures |Observe(regs, idx, p)| == |regs|
    ensures Observe(regs, idx, p)[idx] == (if regs[idx] < p then p else regs[idx])
    ensures forall j :: 0 <= j < |regs| && j != idx ==> Observe(regs, idx, p)[j] == regs[j]
  {
  }

  /** No register ever decreases. */
  lemma ObserveGrows(regs: seq<int>, idx: nat, p: int)
    requires idx < |regs|
    ensures forall j :: 0 <= j < |regs| ==> regs[j] <= Observe(regs, idx, p)[j]
  {
  }

  /** Observing the same value twice is the same as observing it once. */
  lemma ObserveIdempotent(regs: seq<int>, idx: nat, p: int)
    requires idx < |regs|
    ensures Observe(Observe(regs, idx, p), idx, p) == Observe(regs, idx, p)
  {
  }

  /** The order of two observations does not matter. */
  lemma ObserveCommutes(regs: seq<int>, i: nat, p: int, k: nat, q: int)
    requires i < |regs| && k < |regs|
    ensures Observe(Observe(regs, i, p), k, q) == Observe(Observe(regs, k, q), i, p)
  {
  }

  // ---------------------------------------------------------------------
  // Observing hashes

  ghost predicate NonNegative(regs: seq<int>)
  {
    forall j :: 0 <= j < |regs| ==> regs[j] >= 0
  }

  /** Every register lies between 0 and the largest rank `65 - b`. */
  ghost predicate InRange(regs: seq<int>, b: nat)
  {
    forall j :: 0 <= j < |regs| ==> 0 <= regs[j] <= 65 - b
  }

  /** What `AddElem` does with the hash of its element. */
  function AddHash(regs: seq<int>, b: nat, h: bv64): (r: seq<int>)
    requires 1 <= b <= 64 && |regs| == Pow2(b)
    ensures |r| == |regs|
    ensures InRange(regs, b) ==> InRange(r, b)
  {
    Observe(regs, RegisterIndex(h, b), Rank(h, b))
  }

  /** Adding the same hash again changes nothing. */
  lemma AddHashIdempotent(regs: seq<int>, b: nat, h: bv64)
    requires 1 <= b <= 64 && |regs| == Pow2(b)
    ensures AddHash(AddHash(regs, b, h), b, h) == AddHash(regs, b, h)
  {
    ObserveIdempotent(regs, RegisterIndex(h, b), Rank(h, b));
  }

  /** The bank after the hashes `hs` are added, first to last. */
  function AddAll(regs: seq<int>, b: nat, hs: seq<bv64>): (r: seq<int>)
    requires 1 <= b <= 64 && |regs| == Pow2(b)
    ensures |r| == |regs|
    ensures InRange(regs, b) ==> InRange(r, b)
    decreases |hs|
  {
    if |hs| == 0 then regs else AddHash(AddAll(regs, b, hs[..|hs| - 1]), b, hs[|hs| - 1])
  }

  /** The largest rank among the hashes of `hs` that select register `j`; 0 when
      none does. */
  function MaxRank(b: nat, hs: seq<bv64>, j: nat): (r: nat)
    requires 1 <= b <= 64
    ensures forall h :: h in hs && RegisterIndex(h, b) == j ==> Rank(h, b) <= r
    ensures r == 0 || exists h :: h in hs && RegisterIndex(h, b) == j && Rank(h, b) == r
    decreases |hs|
  {
    if |hs| == 0 then 0
    else
      var h := hs[|hs| - 1];
      var rest := MaxRank(b, hs[..|hs| - 1], j);
      assert forall g :: g in hs ==> g in hs[..|hs| - 1] || g == h;
      if RegisterIndex(h, b) == j && Rank(h, b) > rest then Rank(h, b) else rest
  }

  /** After a stream of hashes, each register holds the larger of its old value
      and the largest rank among the hashes that select it. */
  lemma {:induction false} AddAllIsMax(regs: seq<int>, b: nat, hs: seq<bv64>, j: nat)
    requires 1 <= b <= 64 && |regs| == Pow2(b) && j < |regs| && NonNegative(regs)
    ensures AddAll(regs, b, hs)[j] == Max(regs[j], MaxRank(b, hs, j))
    decreases |hs|
  {
    if |hs| > 0 {
      var init, h := hs[..|hs| - 1], hs[|hs| - 1];
      AddAllIsMax(regs, b, init, j);
      var before := AddAll(regs, b, init);
      assert AddAll(regs, b, hs) == Observe(before, RegisterIndex(h, b), Rank(h, b));
      assert MaxRank(b, hs, j) ==
        if RegisterIndex(h, b) == j && Rank(h, b) > MaxRank(b, init, j) then Rank(h, b) else MaxRank(b, init, j);
      if RegisterIndex(h, b) == j {
        assert AddAll(regs, b, hs)[j] == Max(before[j], Rank(h, b));
      } else {
        assert AddAll(regs, b, hs)[j] == before[j];
      }
    }
  }

  /** `MaxRank` depends only on which hashes occur, not on their order or on
      how often they repeat. */
  lemma MaxRankOfSameSet(b: nat, hs: seq<bv64>, gs: seq<bv64>, j: nat)
    requires 1 <= b <= 64
    requires forall h :: h in hs <==> h in gs
    ensures MaxRank(b, hs, j) == MaxRank(b, gs, j)
  {
  }

  /** The bank is a function of the set of hashes added: the same hashes in any
      order, any number of times, give the same registers. */
  lemma AddAllOfSameSet(regs: seq<int>, b: nat, hs: seq<bv64>, gs: seq<bv64>)
    requires 1 <= b <= 64 && |regs| == Pow2(b) && NonNegative(regs)
    requires forall h :: h in hs <==> h in gs
    ensures AddAll(regs, b, hs) == AddAll(regs, b, gs)
  {
    forall j | 0 <= j < |regs|
      ensures AddAll(regs, b, hs)[j] == AddAll(regs, b, gs)[j]
    {
      AddAllIsMax(regs, b, hs, j);
      AddAllIsMax(regs, b, gs, j);
      MaxRankOfSameSet(b, hs, gs, j);
    }
  }

  // ---------------------------------------------------------------------
  // The estimate

  /** The weight 2^-v of a register holding `v`, exactly. */
  function Weight(v: nat): (w: real)
    ensures 0.0 < w <= 1.0
  {
    1.0 / (Pow2(v) as real)
  }

  /** The denominator `Σ 2^-regs[j]`, accumulated first to last. */
  function Denominator(regs: seq<int>): (d: real)
    requires NonNegative(regs)
    ensures 0.0 <= d <= |regs| as real
    ensures |regs| > 0 ==> d > 0.0
  {
    if |regs| == 0 then 0.0
    else Denominator(regs[..|regs| - 1]) + Weight(regs[|regs| - 1])
  }

  /** The numerator `alpha * m * m` of the estimate. */
  function Numerator(alpha: real, m: nat): (x: real)
    ensures alpha >= 0.0 ==> x >= 0.0
  {
    NonNegativeProduct(m as real, m as real);
    alpha * ((m as real) * (m as real))
  }

  /** `floor(Numerator(alpha, m) / Denominator(regs))` over exact reals, with
      `m` the number of registers. */
  function Estimate(alpha: real, regs: seq<int>): int
    requires NonNegative(regs) && |regs| > 0
  {
    (Numerator(alpha, |regs|) / Denominator(regs)).Floor
  }

  lemma {:induction false} Pow2Monotone(u: nat, v: nat)
    requires u <= v
    ensures Pow2(u) <= Pow2(v)
    decreases v
  {
    if u < v {
      Pow2Monotone(u, v - 1);
    }
  }

  /** A larger register contributes less to the denominator. */
  lemma WeightAntitone(u: nat, v: nat)
    requires u <= v
    ensures Weight(v) <= Weight(u)
  {
    Pow2Monotone(u, v);
    DivAntitone(1.0, Pow2(u) as real, Pow2(v) as real);
  }

  /** With every register zero, the denominator is the register count `m`. */
  lemma {:induction false} DenominatorOfZeros(regs: seq<int>)
    requires forall j :: 0 <= j < |regs| ==> regs[j] == 0
    ensures Denominator(regs) == |regs| as real
  {
    if |regs| > 0 {
      DenominatorOfZeros(regs[..|regs| - 1]);
    }
  }

  /** Registers that grow pointwise can only shrink the denominator. */
  lemma {:induction false} DenominatorAntitone(small: seq<int>, large: seq<int>)
    requires NonNegative(small) && |small| == |large|
    requires forall j :: 0 <= j < |small| ==> small[j] <= large[j]
    ensures NonNegative(large) && Denominator(large) <= Denominator(small)
  {
    if |small| > 0 {
      var n := |small| - 1;
      DenominatorAntitone(small[..n], large[..n]);
      WeightAntitone(small[n], large[n]);
    }
  }

  /** The estimate never decreases as registers grow. */
  lemma EstimateMonotone(alpha: real, small: seq<int>, large: seq<int>)
    requires alpha >= 0.0
    requires NonNegative(small) && |small| == |large| > 0
    requires forall j :: 0 <= j < |small| ==> small[j] <= large[j]
    ensures NonNegative(large) && Estimate(alpha, small) <= Estimate(alpha, large)
  {
    DenominatorAntitone(small, large);
    var x := Numerator(alpha, |small|);
    var ds, dl := Denominator(small), Denominator(large);
    assert x / ds <= x / dl by { DivAntitone(x, dl, ds); }
    FloorMonotone(x / ds, x / dl);
  }

  lemma NonNegativeProduct(x: real, y: real)
    requires x >= 0.0 && y >= 0.0
    ensures x * y >= 0.0
  {
  }

  /** Dividing by a larger positive number gives a smaller quotient. */
  lemma DivAntitone(x: real, lo: real, hi: real)
    requires x >= 0.0 && 0.0 < lo <= hi
    ensures x / hi <= x / lo
  {
    var qh, ql := x / hi, x / lo;
    assert qh * hi == x && ql * lo == x;
    assert qh >= 0.0;
    if qh > ql {
      assert false;
    }
  }

  lemma FloorMonotone(u: real, v: real)
    requires u <= v
    ensures u.Floor <= v.Floor
  {
  }

  /** With every register zero the estimate is `floor(alpha * m)`. */
  lemma EstimateOfZeros(alpha: real, regs: seq<int>)
    requires |regs| > 0 && forall j :: 0 <= j < |regs| ==> regs[j] == 0
    ensures NonNegative(regs) && Estimate(alpha, regs) == (alpha * (|regs| as real)).Floor
  {
    DenominatorOfZeros(regs);
    var m := |regs| as real;
    assert Numerator(alpha, |regs|) / m == alpha * m;
  }

  /** Adding a hash never lowers the estimate. */
  lemma AddHashEstimate(alpha: real, regs: seq<int>, b: nat, h: bv64)
    requires alpha >= 0.0 && 1 <= b <= 64 && |regs| == Pow2(b) && NonNegative(regs)
    ensures NonNegative(AddHash(regs, b, h))
    ensures Estimate(alpha, regs) <= Estimate(alpha, AddHash(regs, b, h))
  {
    ObserveGrows(regs, RegisterIndex(h, b), Rank(h, b));
    EstimateMonotone(alpha, regs, AddHash(regs, b, h));
  }
}
