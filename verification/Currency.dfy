/** The halving subsidy, its closed-form cumulative sum and the emission cap. */
module Currency {
  import opened Numerals

  datatype Policy = Policy(initialSubsidy: int, halvingInterval: int, emissionCap: int)

  /** Arithmetic right shift: the floor of `x / 2^n`, also for negative `x`. */
  function ShiftRight(x: int, n: nat): int
    decreases n
  {
    if n == 0 then x else ShiftRight(x / 2, n - 1)
  }

  function Uncapped(p: Policy, height: int): int
  {
    if height <= 0 then 0
    else if p.halvingInterval <= 0 then p.initialSubsidy
    else if height / p.halvingInterval >= 63 then 0
    else ShiftRight(p.initialSubsidy, height / p.halvingInterval)
  }

  /** The plain sum of the uncapped subsidies of heights `lo` to `hi`. */
  function SumUncapped(p: Policy, lo: int, hi: int): int
    decreases hi - lo + 1
  {
    if hi < lo then 0 else SumUncapped(p, lo, hi - 1) + Uncapped(p, hi)
  }

  lemma {:induction false} SumSplits(p: Policy, lo: int, mid: int, hi: int)
    requires lo <= mid + 1 <= hi + 1
    ensures SumUncapped(p, lo, hi) == SumUncapped(p, lo, mid) + SumUncapped(p, mid + 1, hi)
    decreases hi - mid
  {
    if mid < hi {
      SumSplits(p, lo, mid, hi - 1);
    }
  }

  lemma {:induction false} SumOfConstant(p: Policy, lo: int, hi: int, subsidy: int)
    requires lo <= hi + 1
    requires forall h | lo <= h <= hi :: Uncapped(p, h) == subsidy
    ensures SumUncapped(p, lo, hi) == subsidy * (hi - lo + 1)
    decreases hi - lo + 1
  {
    if lo <= hi {
      SumOfConstant(p, lo, hi - 1, subsidy);
      assert subsidy * (hi - lo + 1) == subsidy * (hi - lo) + subsidy;
    }
  }

  lemma QuotientUnique(x: int, n: int, q: int, r: int)
    requires n > 0 && x == q * n + r && 0 <= r < n
    ensures x / n == q && x % n == r
  {
    var d := x / n - q;
    assert x == x / n * n + x % n;
    assert d * n == r - x % n;
    assert d >= 1 ==> d * n >= n;
    assert d <= -1 ==> d * n <= -n;
  }

  lemma DivMonotone(a: int, b: int, n: int)
    requires n > 0 && a <= b
    ensures a / n <= b / n
  {
    var d := a / n - b / n;
    assert a == a / n * n + a % n && b == b / n * n + b % n;
    assert d * n == a - b - a % n + b % n;
    assert d >= 1 ==> d * n >= n;
  }

  lemma {:induction false} ShiftZeroStays(x: int, m: nat, n: nat)
    requires m <= n && ShiftRight(x, m) == 0
    ensures ShiftRight(x, n) == 0
    decreases n, m
  {
    if n > 0 {
      ShiftZeroStays(x / 2, if m > 0 then m - 1 else 0, n - 1);
    }
  }

  /** Once a subsidy is zero every later one is: this is why the loop may stop early. */
  lemma ZeroSubsidyStays(p: Policy, from: int, height: int)
    requires 1 <= from <= height && Uncapped(p, from) == 0
    ensures Uncapped(p, height) == 0
  {
    if p.halvingInterval > 0 {
      DivMonotone(from, height, p.halvingInterval);
      if height / p.halvingInterval < 63 {
        ShiftZeroStays(p.initialSubsidy, from / p.halvingInterval, height / p.halvingInterval);
      }
    }
  }

  /** Within a halving segment the subsidy does not change. */
  lemma SegmentConstant(p: Policy, from: int, height: int)
    requires p.halvingInterval > 0 && 1 <= from <= height < (from / p.halvingInterval + 1) * p.halvingInterval
    ensures Uncapped(p, height) == Uncapped(p, from)
  {
    var n := p.halvingInterval;
    var q := from / n;
    assert from == q * n + from % n && (q + 1) * n == q * n + n;
    QuotientUnique(height, n, q, height - q * n);
  }

  lemma SegmentEndsLater(from: int, interval: int)
    requires interval > 0
    ensures (from / interval + 1) * interval > from
  {
    assert from == from / interval * interval + from % interval;
    assert (from / interval + 1) * interval == from / interval * interval + interval;
  }

  /** The segment-skipping loop adds up exactly the per-height subsidies. */
  method CumulativeUncapped(p: Policy, height: int) returns (total: int)
    ensures total == SumUncapped(p, 1, height)
  {
    total := 0;
    if height <= 0 { return; }
    var current := 1;
    while current <= height
      invariant 1 <= current <= height + 1
      invariant total == SumUncapped(p, 1, current - 1)
    {
      var subsidy := Uncapped(p, current);
      if subsidy == 0 {
        forall h | current <= h <= height
          ensures Uncapped(p, h) == 0
        {
          ZeroSubsidyStays(p, current, h);
        }
        SumSplits(p, 1, current - 1, height);
        SumOfConstant(p, current, height, 0);
        break;
      }
      SumSplits(p, 1, current - 1, height);
      if p.halvingInterval <= 0 {
        SumOfConstant(p, current, height, subsidy);
        total := total + subsidy * (height - current + 1);
        break;
      }
      SegmentEndsLater(current, p.halvingInterval);
      var nextHalving := (current / p.halvingInterval + 1) * p.halvingInterval;
      var last := if nextHalving - 1 > current then nextHalving - 1 else current;
      var segmentEnd := if height < last then height else last;
      forall h | current <= h <= segmentEnd
        ensures Uncapped(p, h) == subsidy
      {
        SegmentConstant(p, current, h);
      }
      SumOfConstant(p, current, segmentEnd, subsidy);
      SumSplits(p, 1, current - 1, segmentEnd);
      total := total + subsidy * (segmentEnd - current + 1);
      current := segmentEnd + 1;
    }
  }

  function Min(a: int, b: int): int { if a < b then a else b }

  /** The subsidy a block at this height may claim. */
  function SubsidyAt(p: Policy, height: int): int
  {
    var subsidy := Uncapped(p, height);
    if p.emissionCap <= 0 || subsidy <= 0 then subsidy
    else
      var issued := SumUncapped(p, 1, height - 1);
      Min(subsidy, if p.emissionCap - issued > 0 then p.emissionCap - issued else 0)
  }

  function CumulativeSubsidy(p: Policy, height: int): int
  {
    var total := SumUncapped(p, 1, height);
    if p.emissionCap <= 0 then total else Min(total, p.emissionCap)
  }

  /** Without a cap, every height gets the initial subsidy divided by two once for each whole interval below it, and
      nothing from the sixty-third on; a cap cuts it to what the heights below left. */
  method SubsidyAtHeight(p: Policy, height: int) returns (s: int)
    ensures s == SubsidyAt(p, height)
    ensures p.emissionCap <= 0 && height >= 1 && p.halvingInterval > 0 ==>
              height / p.halvingInterval >= 0
              && s == if height / p.halvingInterval < 63 then p.initialSubsidy / Power2(height / p.halvingInterval)
                      else 0
    ensures p.emissionCap <= 0 && height >= 1 && p.halvingInterval <= 0 ==> s == p.initialSubsidy
    ensures height <= 0 ==> s == 0
    ensures p.emissionCap > 0 ==>
              s == Min(SubsidyAt(p.(emissionCap := 0), height), p.emissionCap - SumSubsidies(p, height - 1))
  {
    if p.emissionCap > 0 { CapLeaves(p, height); }
    if height >= 1 && p.halvingInterval > 0 { ShiftIsQuotient(p.initialSubsidy, height / p.halvingInterval); }
    var subsidy := Uncapped(p, height);
    if p.emissionCap <= 0 || subsidy <= 0 { return subsidy; }
    var issued := CumulativeUncapped(p, height - 1);
    var remaining := if p.emissionCap - issued > 0 then p.emissionCap - issued else 0;
    return Min(subsidy, remaining);
  }

  // ---------------------------------------------------------------- halving

  lemma QuotientOfHalf(x: int, m: int)
    requires m >= 1
    ensures x / 2 / m == x / (2 * m)
  {
    var q, r := x / (2 * m), x % (2 * m);
    QuotientUnique(x / 2, m, q, r / 2);
  }

  lemma {:induction false} ShiftIsQuotient(x: int, n: nat)
    ensures ShiftRight(x, n) == x / Power2(n)
    decreases n
  {
    if n > 0 {
      ShiftIsQuotient(x / 2, n - 1);
      QuotientOfHalf(x, Power2(n - 1));
    }
  }

  lemma {:induction false} ShiftOnce(x: int, n: nat)
    ensures ShiftRight(x, n + 1) == ShiftRight(x, n) / 2
    decreases n
  {
    if n > 0 {
      ShiftOnce(x / 2, n - 1);
    } else {
      assert ShiftRight(x, 1) == ShiftRight(x / 2, 0);
    }
  }

  /** Without a cap the subsidy starts at the initial one and halves with every interval until it ends. */
  lemma SubsidyHalves(p: Policy, height: int)
    requires p.halvingInterval > 0 && p.emissionCap <= 0
    ensures 1 <= height < p.halvingInterval ==> SubsidyAt(p, height) == p.initialSubsidy
    ensures height >= 1 && height / p.halvingInterval + 1 < 63 ==>
              SubsidyAt(p, height + p.halvingInterval) == SubsidyAt(p, height) / 2
    ensures height / p.halvingInterval >= 63 ==> SubsidyAt(p, height) == 0
  {
    var n := p.halvingInterval;
    var q := height / n;
    if height >= 1 {
      QuotientUnique(height + n, n, q + 1, height % n);
      ShiftOnce(p.initialSubsidy, q);
      if height < n { QuotientUnique(height, n, 0, height); }
    } else if q >= 1 {
      assert q * n >= n;
    }
  }

  /** Without halvings the subsidy is constant, and the genesis never has one. */
  lemma SubsidyWithoutHalvings(p: Policy, height: int)
    ensures height <= 0 ==> SubsidyAt(p, height) == 0
    ensures height >= 1 && p.halvingInterval <= 0 && p.emissionCap <= 0 ==> SubsidyAt(p, height) == p.initialSubsidy
  {
  }

  /** The sum of what blocks may claim up to a height. */
  function SumSubsidies(p: Policy, height: int): int
    decreases height
  {
    if height <= 0 then 0 else SumSubsidies(p, height - 1) + SubsidyAt(p, height)
  }

  lemma {:induction false} ShiftSign(x: int, n: nat)
    ensures x >= 0 ==> 0 <= ShiftRight(x, n) <= x
    ensures x < 0 ==> ShiftRight(x, n) < 0
    decreases n
  {
    if n > 0 {
      ShiftSign(x / 2, n - 1);
    }
  }

  lemma UncappedSign(p: Policy, height: int)
    ensures p.initialSubsidy >= 0 ==> 0 <= Uncapped(p, height) <= p.initialSubsidy
    ensures p.initialSubsidy < 0 ==> Uncapped(p, height) <= 0
  {
    if height > 0 && p.halvingInterval > 0 {
      ShiftSign(p.initialSubsidy, height / p.halvingInterval);
    }
  }

  /** The capped subsidies add up to the capped cumulative subsidy, at every height and for every policy, so
      issuance never exceeds a positive emission cap. */
  lemma {:induction false} SubsidiesSumToCumulative(p: Policy, height: int)
    ensures SumSubsidies(p, height) == CumulativeSubsidy(p, height)
    ensures p.emissionCap > 0 ==> SumSubsidies(p, height) <= p.emissionCap
    ensures p.initialSubsidy >= 0 ==> SumUncapped(p, 1, height) >= 0
    ensures p.initialSubsidy < 0 ==> SumUncapped(p, 1, height) <= 0
    decreases height
  {
    if height > 0 {
      SubsidiesSumToCumulative(p, height - 1);
      UncappedSign(p, height);
    }
  }

  /** With a cap, a block may claim what it could without one or what earlier blocks left of the cap. */
  lemma CapLeaves(p: Policy, height: int)
    requires p.emissionCap > 0
    ensures SubsidyAt(p, height)
            == Min(SubsidyAt(p.(emissionCap := 0), height), p.emissionCap - SumSubsidies(p, height - 1))
  {
    var q := p.(emissionCap := 0);
    assert Uncapped(q, height) == Uncapped(p, height);
    SubsidiesSumToCumulative(p, height - 1);
    UncappedSign(p, height);
  }

  // ---------------------------------------------------------------- total emission

  lemma {:induction false} ShiftHalves(x: int, n: nat)
    requires x >= 0
    ensures 2 * ShiftRight(x, n + 1) <= ShiftRight(x, n)
    decreases n
  {
    if n > 0 {
      ShiftHalves(x / 2, n - 1);
    } else {
      assert ShiftRight(x, 1) == ShiftRight(x / 2, 0);
    }
  }

  /** What a height leaves unissued of 2 * initial * interval: twice the rest of the current segment's subsidy. */
  lemma {:induction false} EmissionRemainder(p: Policy, height: int)
    requires p.halvingInterval > 0 && p.initialSubsidy > 0 && height >= 0
    ensures height / p.halvingInterval >= 0
    ensures SumUncapped(p, 1, height)
            + ShiftRight(p.initialSubsidy, height / p.halvingInterval)
              * (2 * p.halvingInterval - height % p.halvingInterval - 1)
            < 2 * p.initialSubsidy * p.halvingInterval
    decreases height
  {
    var n := p.halvingInterval;
    if height == 0 {
      assert 0 / n == 0 && 0 % n == 0;
      assert ShiftRight(p.initialSubsidy, 0) * (2 * n - 1) == 2 * p.initialSubsidy * n - p.initialSubsidy;
    } else {
      EmissionRemainder(p, height - 1);
      HeightStep(height, n);
      var before, now := ShiftRight(p.initialSubsidy, (height - 1) / n), ShiftRight(p.initialSubsidy, height / n);
      ShiftSign(p.initialSubsidy, height / n);
      ShiftSign(p.initialSubsidy, (height - 1) / n);
      if height % n == 0 {
        ShiftHalves(p.initialSubsidy, (height - 1) / n);
        SegmentBoundary(before, now, n);
      } else {
        assert before == now;
        SegmentInside(now, n, height % n);
      }
    }
  }

  lemma SegmentBoundary(before: int, now: int, n: int)
    requires n > 0 && now >= 0 && 2 * now <= before
    ensures now + now * (2 * n - 1) <= before * (2 * n - (n - 1) - 1)
  {
    assert now + now * (2 * n - 1) == (2 * now) * n;
    assert (2 * now) * n <= before * n;
  }

  lemma SegmentInside(now: int, n: int, r: int)
    ensures now + now * (2 * n - r - 1) == now * (2 * n - (r - 1) - 1)
  {
  }

  lemma HeightStep(height: int, n: int)
    requires n > 0 && height >= 1
    ensures height % n == 0 ==> (height - 1) / n == height / n - 1 && (height - 1) % n == n - 1
    ensures height % n != 0 ==> (height - 1) / n == height / n && (height - 1) % n == height % n - 1
    ensures (height - 1) / n >= 0
  {
    var q, r := height / n, height % n;
    assert height == q * n + r;
    if r == 0 {
      QuotientUnique(height - 1, n, q - 1, n - 1);
    } else {
      QuotientUnique(height - 1, n, q, r - 1);
    }
  }

  /** With a positive interval and initial subsidy the whole uncapped emission stays below
      2 * initial * interval. */
  lemma TotalEmissionBounded(p: Policy, height: int)
    requires p.halvingInterval > 0 && p.initialSubsidy > 0
    ensures SumUncapped(p, 1, height) < 2 * p.initialSubsidy * p.halvingInterval
  {
    assert p.initialSubsidy * p.halvingInterval > 0;
    if height > 0 {
      EmissionRemainder(p, height);
      var n := p.halvingInterval;
      ShiftSign(p.initialSubsidy, height / n);
      var now, left := ShiftRight(p.initialSubsidy, height / n), 2 * n - height % n - 1;
      assert now * left >= 0;
    }
  }
}
