/** The clamped retarget of pkg/blockchain/forkhalcyon.go and the checkpoint bound of difficulty.go. */
module Difficulty {
  import opened Radix
  import opened Bits

  datatype Params = Params(
    minTimespan: int, maxTimespan: int, averagingTimespan: int,
    powLimit: nat, adjustmentFactor: nat, maxRetargetTimespan: int)

  predicate ParamsOk(p: Params) {
    0 < p.minTimespan <= p.maxTimespan && 0 < p.averagingTimespan &&
    p.adjustmentFactor > 0 && p.maxRetargetTimespan > 0 && CompactFits(p.powLimit)
  }

  function Clamped(p: Params, actual: int): int {
    if actual < p.minTimespan then p.minTimespan else if actual > p.maxTimespan then p.maxTimespan else actual
  }

  /** The new target before it is written in compact form. */
  function NewTarget(p: Params, oldTarget: nat, limit: nat, actual: int): (t: nat)
    requires ParamsOk(p)
    ensures t <= limit
  {
    ScaledPositive(oldTarget, Clamped(p, actual), p.averagingTimespan);
    Min(oldTarget * Clamped(p, actual) / p.averagingTimespan, limit)
  }

  lemma ScaledPositive(oldTarget: nat, span: int, target: int)
    requires span > 0 && target > 0
    ensures 0 <= oldTarget * span / target && oldTarget * span / target * target <= oldTarget * span
  {
    MulMonotone(0, oldTarget, span);
    QuotientRest(oldTarget * span, target);
  }

  /**
   The bits after a block: the old target scaled by the clamped time the averaging window took, but never
   easier than the algorithm's limit, and never easier than the old target scaled by the longest time.
   */
  method Retarget(p: Params, prevBits: nat, actualTimespan: int, minBits: nat) returns (bits: nat)
    requires ParamsOk(p) && CompactToBig(prevBits) >= 0 && CompactToBig(minBits) >= 0 && minBits < 0x1_0000_0000
    ensures bits == BigToCompact(NewTarget(p, CompactToBig(prevBits), CompactToBig(minBits), actualTimespan))
    ensures 0 <= CompactToBig(bits) <= CompactToBig(minBits)
    ensures CompactToBig(bits) * p.averagingTimespan <= CompactToBig(prevBits) * p.maxTimespan
    ensures forall span: int ::
      (actualTimespan < p.minTimespan ==> span == p.minTimespan) &&
      (p.minTimespan <= actualTimespan <= p.maxTimespan ==> span == actualTimespan) &&
      (actualTimespan > p.maxTimespan ==> span == p.maxTimespan) ==>
      NearProduct(p, CompactToBig(prevBits), span, CompactToBig(minBits), CompactToBig(bits))
    ensures actualTimespan == p.averagingTimespan && p.minTimespan <= p.averagingTimespan <= p.maxTimespan && prevBits < 0x1_0000_0000 ==>
      CompactToBig(bits) == if CompactToBig(prevBits) <= CompactToBig(minBits) then CompactToBig(prevBits) else CompactToBig(minBits)
  {
    var adjusted := actualTimespan;
    if actualTimespan < p.minTimespan {
      adjusted := p.minTimespan;
    } else if actualTimespan > p.maxTimespan {
      adjusted := p.maxTimespan;
    }
    var oldTarget: nat := CompactToBig(prevBits);
    ScaledPositive(oldTarget, adjusted, p.averagingTimespan);
    var target: nat := oldTarget * adjusted / p.averagingTimespan;
    if target > CompactToBig(minBits) {
      target := CompactToBig(minBits);
    }
    bits := BigToCompact(target);
    DecodedFits(minBits);
    TwoSided(p, oldTarget, minBits, adjusted);
    if prevBits < 0x1_0000_0000 {
      KeepsTarget(p, prevBits, minBits);
    }
    BoundedResult(p, oldTarget, CompactToBig(minBits), actualTimespan);
  }

  /** `next` is the limit when the scaled target is above it, and otherwise just below the scaled target. */
  predicate NearProduct(p: Params, prev: int, span: int, limit: int, next: int) {
    if prev * span >= (limit + 1) * p.averagingTimespan then next == limit
    else
      next * p.averagingTimespan <= prev * span &&
      (prev * span - p.averagingTimespan) * 0x8000 < next * p.averagingTimespan * 0x8001
  }

  /** A scaled target is at most one part in 2^15 and the rounding of a division below the product, or it is the limit. */
  lemma TwoSided(p: Params, oldTarget: nat, minBits: nat, span: int)
    requires ParamsOk(p) && span > 0 && minBits < 0x1_0000_0000 && CompactToBig(minBits) >= 0
    ensures NearProduct(p, oldTarget, span, CompactToBig(minBits),
      CompactToBig(BigToCompact(Min(oldTarget * span / p.averagingTimespan, CompactToBig(minBits)))))
  {
    hide CompactToBig, BigToCompact, CompactFits, NearProduct;
    ScaledPositive(oldTarget, span, p.averagingTimespan);
    var limit: nat, a, x: nat := CompactToBig(minBits), p.averagingTimespan, oldTarget * span;
    var q: nat := x / a;
    DecodedFits(minBits);
    QuotientAgainst(x, a, limit);
    if x >= (limit + 1) * a {
      DecodedKept(minBits);
      AtLimit(p, oldTarget, span, limit);
    } else {
      FitsLess(q, limit);
      CompactRounding(q);
      BelowLimit(p, oldTarget, span, limit, q, CompactToBig(BigToCompact(q)));
    }
  }

  lemma QuotientAgainst(x: nat, a: nat, limit: nat)
    requires a > 0
    ensures x / a > limit <==> x >= (limit + 1) * a
  {
    var q := x / a;
    QuotientRest(x, a);
    Distribute(q, 1, a);
    if q > limit {
      MulMonotone(limit + 1, q, a);
    } else {
      MulMonotone(q + 1, limit + 1, a);
    }
  }

  lemma AtLimit(p: Params, prev: int, span: int, limit: int)
    requires prev * span >= (limit + 1) * p.averagingTimespan
    ensures NearProduct(p, prev, span, limit, limit)
  {
  }

  lemma BelowLimit(p: Params, prev: int, span: int, limit: int, q: nat, d: nat)
    requires p.averagingTimespan > 0 && 0 <= prev * span < (limit + 1) * p.averagingTimespan && q == prev * span / p.averagingTimespan
    requires d <= q && (q > 0 ==> q * 0x8000 < d * 0x8001)
    ensures NearProduct(p, prev, span, limit, d)
  {
    var a, x := p.averagingTimespan, prev * span;
    QuotientRest(x, a);
    Distribute(q, 1, a);
    MulMonotone(d, q, a);
    MulMonotone(q * 0x8000, d * 0x8001, a);
    Reorder(q, 0x8000, a);
    Reorder(d, 0x8001, a);
  }

  lemma Reorder(x: int, k: int, a: int)
    ensures x * k * a == x * a * k
  {
    MulAssoc(x, k, a);
    MulAssoc(x, a, k);
  }

  /** A window of exactly the averaging time keeps the target, up to the limit. */
  lemma KeepsTarget(p: Params, prevBits: nat, minBits: nat)
    requires ParamsOk(p) && prevBits < 0x1_0000_0000 && minBits < 0x1_0000_0000 && CompactToBig(prevBits) >= 0 && CompactToBig(minBits) >= 0
    ensures var o, limit := CompactToBig(prevBits), CompactToBig(minBits);
      o * p.averagingTimespan / p.averagingTimespan == o && CompactToBig(BigToCompact(Min(o, limit))) == Min(o, limit)
  {
    hide CompactToBig, BigToCompact;
    DivUnique(CompactToBig(prevBits) * p.averagingTimespan, CompactToBig(prevBits), 0, p.averagingTimespan);
    DecodedKept(prevBits);
    DecodedKept(minBits);
  }

  lemma BoundedResult(p: Params, oldTarget: nat, limit: nat, actual: int)
    requires ParamsOk(p) && CompactFits(limit)
    ensures var d := CompactToBig(BigToCompact(NewTarget(p, oldTarget, limit, actual)));
      0 <= d <= limit && d * p.averagingTimespan <= oldTarget * p.maxTimespan
  {
    hide CompactToBig, BigToCompact, CompactFits;
    var t, span := NewTarget(p, oldTarget, limit, actual), Clamped(p, actual);
    FitsLess(t, limit);
    CompactRounding(t);
    ScaledPositive(oldTarget, span, p.averagingTimespan);
    MulMonotone(CompactToBig(BigToCompact(t)), oldTarget * span / p.averagingTimespan, p.averagingTimespan);
    Commute(oldTarget, span, p.maxTimespan);
  }

  lemma Commute(a: nat, x: int, y: int)
    requires x <= y
    ensures a * x <= a * y
  {
    MulMonotone(x, y, a);
  }

  /** A window that took longer never makes the target harder. */
  lemma RetargetMonotone(p: Params, oldTarget: nat, limit: nat, fast: int, slow: int)
    requires ParamsOk(p) && CompactFits(limit) && fast <= slow
    ensures CompactToBig(BigToCompact(NewTarget(p, oldTarget, limit, fast))) <= CompactToBig(BigToCompact(NewTarget(p, oldTarget, limit, slow)))
  {
    hide CompactToBig, BigToCompact, CompactFits;
    var t, u := NewTarget(p, oldTarget, limit, fast), NewTarget(p, oldTarget, limit, slow);
    Commute(oldTarget, Clamped(p, fast), Clamped(p, slow));
    DivMonotone(oldTarget * Clamped(p, fast), oldTarget * Clamped(p, slow), p.averagingTimespan);
    FitsLess(u, limit);
    CompactMonotone(t, u);
  }

  lemma DivMonotone(x: int, y: int, d: nat)
    requires x <= y && d > 0
    ensures x / d <= y / d
  {
    QuotientRest(x, d);
    QuotientRest(y, d);
    if x / d > y / d {
      MulMonotone(y / d + 1, x / d, d);
      Distribute(y / d, 1, d);
    }
  }

  // ----- the easiest difficulty after a duration -----

  /** The number of retargets a duration has room for, rounded up. */
  function Retargets(d: int, span: nat): nat
    requires span > 0
    decreases if d > 0 then d else 0
  {
    if d <= 0 then 0 else 1 + Retargets(d - span, span)
  }

  lemma {:induction false} RetargetsIsCeiling(d: int, span: nat)
    requires span > 0
    ensures var k := Retargets(d, span);
      (d <= 0 ==> k == 0) && (d > 0 ==> k * span - span < d <= k * span)
    decreases if d > 0 then d else 0
  {
    if d > 0 {
      RetargetsIsCeiling(d - span, span);
      var k: int := Retargets(d - span, span);
      Distribute(k, 1, span);
    }
  }

  /** The target after all retargets at the largest factor, limited at the end. */
  function EasiestTarget(p: Params, target: nat, d: int): (t: nat)
    requires ParamsOk(p)
    ensures t <= p.powLimit
  {
    MulMonotone(0, target, Pow(p.adjustmentFactor, Retargets(d, p.maxRetargetTimespan)));
    Min(target * Pow(p.adjustmentFactor, Retargets(d, p.maxRetargetTimespan)), p.powLimit)
  }

  lemma GrowsOnly(target: nat, f: nat, k: nat)
    requires f > 0
    ensures target * Pow(f, k) >= target
  {
    PowPositive(f, k);
    MulMonotone(1, Pow(f, k), target);
  }

  /** The loop stops early at the limit; the result is as if all retargets had been made. */
  method CalcEasiestDifficulty(p: Params, bits: nat, durationVal: int) returns (r: nat)
    requires ParamsOk(p) && CompactToBig(bits) >= 0
    ensures r == BigToCompact(EasiestTarget(p, CompactToBig(bits), durationVal))
    ensures 0 <= CompactToBig(r) <= p.powLimit
    ensures forall k: nat ::
      (durationVal <= 0 ==> k == 0) &&
      (durationVal > 0 ==> k * p.maxRetargetTimespan - p.maxRetargetTimespan < durationVal <= k * p.maxRetargetTimespan) ==>
      ScaledTarget(CompactToBig(bits), p.adjustmentFactor, k) >= 0 &&
      r == BigToCompact(if ScaledTarget(CompactToBig(bits), p.adjustmentFactor, k) > p.powLimit then p.powLimit
        else ScaledTarget(CompactToBig(bits), p.adjustmentFactor, k))
  {
    hide CompactToBig, BigToCompact, CompactFits, Pow;
    var newTarget: nat, d := CompactToBig(bits), durationVal;
    ghost var whole := newTarget * Pow(p.adjustmentFactor, Retargets(d, p.maxRetargetTimespan));
    while d > 0 && newTarget < p.powLimit
      invariant whole == newTarget * Pow(p.adjustmentFactor, Retargets(d, p.maxRetargetTimespan))
      decreases if d > 0 then d else 0
    {
      OneRetarget(newTarget, p.adjustmentFactor, Retargets(d - p.maxRetargetTimespan, p.maxRetargetTimespan));
      newTarget := newTarget * p.adjustmentFactor;
      d := d - p.maxRetargetTimespan;
    }
    GrowsOnly(newTarget, p.adjustmentFactor, Retargets(d, p.maxRetargetTimespan));
    NoRetarget(newTarget, p.adjustmentFactor);
    if newTarget > p.powLimit {
      newTarget := p.powLimit;
    }
    r := BigToCompact(newTarget);
    FitsLess(newTarget, p.powLimit);
    CompactRounding(newTarget);
    RoundsAre(p, CompactToBig(bits), durationVal);
  }

  /** The target times the factor to the power of `k`. */
  function ScaledTarget(target: int, f: nat, k: nat): int {
    target * Pow(f, k)
  }

  /** The number of rounds is the only one that fits the duration. */
  lemma RoundsAre(p: Params, target: nat, d: int)
    requires ParamsOk(p)
    ensures forall k: nat ::
      (d <= 0 ==> k == 0) && (d > 0 ==> k * p.maxRetargetTimespan - p.maxRetargetTimespan < d <= k * p.maxRetargetTimespan) ==>
      k == Retargets(d, p.maxRetargetTimespan) && ScaledTarget(target, p.adjustmentFactor, k) >= 0 &&
      EasiestTarget(p, target, d) == Min(ScaledTarget(target, p.adjustmentFactor, k), p.powLimit)
  {
    hide Pow;
    var span := p.maxRetargetTimespan;
    RetargetsIsCeiling(d, span);
    var m := Retargets(d, span);
    forall k: nat | (d <= 0 ==> k == 0) && (d > 0 ==> k * span - span < d <= k * span)
      ensures k == m && ScaledTarget(target, p.adjustmentFactor, k) >= 0 &&
        EasiestTarget(p, target, d) == Min(ScaledTarget(target, p.adjustmentFactor, k), p.powLimit)
    {
      OneCeiling(k, m, span, d);
      MulMonotone(0, target, Pow(p.adjustmentFactor, k));
    }
  }

  lemma OneCeiling(k: nat, m: nat, span: nat, d: int)
    requires span > 0 && (d <= 0 ==> k == 0 && m == 0)
    requires d > 0 ==> k * span - span < d <= k * span && m * span - span < d <= m * span
    ensures k == m
  {
    Distribute(k, 1, span);
    Distribute(m, 1, span);
    if k < m {
      MulMonotone(k, m - 1, span);
    } else if m < k {
      MulMonotone(m, k - 1, span);
    }
  }

  lemma NoRetarget(target: nat, f: nat)
    ensures target * Pow(f, 0) == target
  {
  }

  lemma OneRetarget(target: nat, f: nat, k: nat)
    ensures target * Pow(f, k + 1) == (target * f) * Pow(f, k) && target * f >= 0
  {
    MulAssoc(target, f, Pow(f, k));
    MulMonotone(0, target, f);
  }

  /** More elapsed time never makes the easiest target harder. */
  lemma EasiestMonotone(p: Params, target: nat, d: int, e: int)
    requires ParamsOk(p) && d <= e
    ensures CompactToBig(BigToCompact(EasiestTarget(p, target, d))) <= CompactToBig(BigToCompact(EasiestTarget(p, target, e)))
  {
    hide CompactToBig, BigToCompact, CompactFits;
    var k, m := Retargets(d, p.maxRetargetTimespan), Retargets(e, p.maxRetargetTimespan);
    RetargetsMonotone(d, e, p.maxRetargetTimespan);
    PowAdd(p.adjustmentFactor, k, m - k);
    MulAssoc(target, Pow(p.adjustmentFactor, k), Pow(p.adjustmentFactor, m - k));
    MulMonotone(0, target, Pow(p.adjustmentFactor, k));
    GrowsOnly(target * Pow(p.adjustmentFactor, k), p.adjustmentFactor, m - k);
    FitsLess(EasiestTarget(p, target, e), p.powLimit);
    CompactMonotone(EasiestTarget(p, target, d), EasiestTarget(p, target, e));
  }

  lemma {:induction false} RetargetsMonotone(d: int, e: int, span: nat)
    requires span > 0 && d <= e
    ensures Retargets(d, span) <= Retargets(e, span)
    decreases if d > 0 then d else 0
  {
    if d > 0 {
      RetargetsMonotone(d - span, e - span, span);
    }
  }
}
