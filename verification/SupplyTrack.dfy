/** Paying out a growing supply: what the blocks of a height range are rewarded when the supply grows once
    per supply cycle, evenly over the blocks of the cycle, up to a cap. The supply itself is any
    non-decreasing function of the cycle number. */
module SupplyTrack {
  import opened Common

  /** The supply at the start of each cycle, the cap, the height of the first block and the cycle length. */
  datatype Track = Track(supply: nat -> nat, cap: int, mint: int, cycle: int)
  {
    /** The height at which supply cycle `k` begins. */
    function HeightOf(k: nat): int {
      if k == 0 then mint else HeightOf(k - 1) + cycle
    }

    /** A cycle over which the supply would grow by less than one coin. */
    predicate Stuck(k: nat) {
      supply(k + 1) < supply(k) + COIN
    }

    ghost predicate Valid() {
      cycle > 0 && forall j: nat, k: nat :: j <= k ==> supply(j) <= supply(k)
    }
  }

  /** `llround` of a non-negative number. */
  function Round(x: real): int {
    (x + 0.5).Floor
  }

  // ---------------------------------------------------------------- an even split of a growth

  /** `n` blocks at `c` each. */
  function Times(c: real, n: nat): real {
    if n == 0 then 0.0 else Times(c, n - 1) + c
  }

  lemma {:induction false} TimesIsProduct(c: real, n: nat)
    ensures Times(c, n) == c * n as real
  {
    if n > 0 {
      TimesIsProduct(c, n - 1);
      assert c * n as real == c * (n - 1) as real + c;
    }
  }

  lemma {:induction false} TimesAdds(c: real, a: nat, b: nat)
    ensures Times(c, a + b) == Times(c, a) + Times(c, b)
  {
    if b > 0 {
      TimesAdds(c, a, b - 1);
    }
  }

  lemma {:induction false} TimesIsNonNegative(c: real, n: nat)
    requires c >= 0.0
    ensures Times(c, n) >= 0.0
  {
    if n > 0 {
      TimesIsNonNegative(c, n - 1);
    }
  }

  lemma QuotientSplits(growth: nat, cycle: nat)
    requires cycle > 0
    ensures growth as real / cycle as real >= 0.0
    ensures Times(growth as real / cycle as real, cycle) == growth as real
  {
    TimesIsProduct(growth as real / cycle as real, cycle);
  }

  /** What one block of a cycle mints: the same for every block, and the whole growth over the cycle. */
  ghost function Coinbase(growth: nat, cycle: nat): (c: real)
    requires cycle > 0
    ensures c >= 0.0 && Times(c, cycle) == growth as real
  {
    QuotientSplits(growth, cycle);
    var c :| c >= 0.0 && Times(c, cycle) == growth as real;
    c
  }

  lemma CoinbaseIsQuotient(growth: nat, cycle: nat)
    requires cycle > 0
    ensures Coinbase(growth, cycle) == growth as real / cycle as real
  {
    TimesIsProduct(Coinbase(growth, cycle), cycle);
  }

  // ---------------------------------------------------------------- the reward of a height range

  /** What a cycle that grows from `supply` to `next` pays: `span` is due for the blocks at hand, `before` was
      due for the blocks of the cycle that have passed. */
  function CyclePays(cap: int, supply: int, next: int, before: real, span: real): int {
    if cap >= next then Round(span) else Min(Max(0, cap - supply - Round(before)), Round(span))
  }

  /** The reward for the blocks from `height`, which lies in cycle `k`, up to and without `end`. */
  ghost function RewardFrom(t: Track, k: nat, height: int, end: int): int
    requires t.Valid() && t.HeightOf(k) <= height < t.HeightOf(k + 1)
    decreases Max(0, end - height)
  {
    if height >= end || t.supply(k) >= t.cap || t.Stuck(k) then 0
    else
      var to := Min(end, t.HeightOf(k + 1));
      var c := Coinbase(t.supply(k + 1) - t.supply(k), t.cycle);
      CyclePays(t.cap, t.supply(k), t.supply(k + 1), Times(c, height - t.HeightOf(k)), Times(c, to - height))
      + (if to == end then 0 else RewardFrom(t, k + 1, to, end))
  }

  /** Nothing is paid from a cycle at which paying stops. */
  lemma NothingFromStop(t: Track, k: nat, height: int, end: int)
    requires t.Valid() && t.HeightOf(k) <= height < t.HeightOf(k + 1) && (t.supply(k) >= t.cap || t.Stuck(k))
    ensures RewardFrom(t, k, height, end) == 0
  {
  }

  lemma {:induction false} RewardIsNonNegative(t: Track, k: nat, height: int, end: int)
    requires t.Valid() && t.HeightOf(k) <= height < t.HeightOf(k + 1)
    ensures RewardFrom(t, k, height, end) >= 0
    decreases Max(0, end - height)
  {
    if height < end && t.supply(k) < t.cap && !t.Stuck(k) {
      var to := Min(end, t.HeightOf(k + 1));
      TimesIsNonNegative(Coinbase(t.supply(k + 1) - t.supply(k), t.cycle), to - height);
      if to < end {
        RewardIsNonNegative(t, k + 1, to, end);
      }
    }
  }

  lemma {:induction false} HeightIsProduct(t: Track, k: nat)
    ensures t.HeightOf(k) == t.mint + k * t.cycle
  {
    if k > 0 {
      HeightIsProduct(t, k - 1);
      assert k * t.cycle == (k - 1) * t.cycle + t.cycle;
    }
  }

  lemma {:induction false} CyclesAreOrdered(t: Track, j: nat, k: nat)
    requires t.cycle > 0 && j <= k
    ensures j < k ==> t.HeightOf(j) + t.cycle <= t.HeightOf(k)
    decreases k - j
  {
    if j < k {
      CyclesAreOrdered(t, j, k - 1);
    }
  }

  // ---------------------------------------------------------------- whole cycles

  /** The first cycle from `k` on, at most `end`, at which paying stops. */
  function StopCycle(t: Track, k: nat, end: nat): (r: nat)
    requires k <= end
    ensures k <= r <= end && (r == end || t.supply(r) >= t.cap || t.Stuck(r))
    decreases end - k
  {
    if k == end || t.supply(k) >= t.cap || t.Stuck(k) then k else StopCycle(t, k + 1, end)
  }

  lemma RoundOfWhole(n: int)
    ensures Round(n as real) == n
  {
  }

  /** A whole cycle that starts below the cap pays its growth, clipped at the cap. */
  lemma WholeCyclePays(cap: int, supply: nat, next: nat, cycle: nat)
    requires cycle > 0 && supply < cap && supply <= next
    ensures var c := Coinbase(next - supply, cycle);
            CyclePays(cap, supply, next, Times(c, 0), Times(c, cycle)) == Min(next, cap) - supply
  {
    RoundOfWhole(0);
    RoundOfWhole(next - supply);
  }

  lemma FirstCyclePays(t: Track, k: nat, end: nat)
    requires t.Valid() && k < end && t.supply(k) < t.cap && !t.Stuck(k)
    ensures t.HeightOf(k) < t.HeightOf(k + 1) < t.HeightOf(k + 2) && t.HeightOf(k + 1) <= t.HeightOf(end)
    ensures RewardFrom(t, k, t.HeightOf(k), t.HeightOf(end)) ==
            Min(t.supply(k + 1), t.cap) - t.supply(k) + RewardFrom(t, k + 1, t.HeightOf(k + 1), t.HeightOf(end))
  {
    CyclesAreOrdered(t, k + 1, end);
    WholeCyclePays(t.cap, t.supply(k), t.supply(k + 1), t.cycle);
  }

  lemma ClippedGrowthAdds(cap: int, first: int, second: int, last: int)
    requires first < cap && first <= second <= last
    ensures Min(second, cap) - first + Max(0, Min(last, cap) - second) == Max(0, Min(last, cap) - first)
  {
  }

  lemma StopsAtOnce(t: Track, k: nat, end: nat)
    requires t.Valid() && k <= end && t.HeightOf(k) < t.HeightOf(k + 1)
    requires k == end || t.supply(k) >= t.cap || t.Stuck(k)
    ensures RewardFrom(t, k, t.HeightOf(k), t.HeightOf(end)) == 0 && StopCycle(t, k, end) == k
  {
  }

  lemma GoesOn(t: Track, k: nat, end: nat)
    requires t.Valid() && k < end && t.supply(k) < t.cap && !t.Stuck(k)
    ensures StopCycle(t, k, end) == StopCycle(t, k + 1, end) && t.supply(k) <= t.supply(k + 1) <= t.supply(StopCycle(t, k, end))
  {
  }

  /** Over whole supply cycles the reward telescopes to the growth of the supply, clipped at the cap, up to the
      cycle at which paying stops. */
  lemma {:induction false} RewardTelescopes(t: Track, k: nat, end: nat)
    requires t.Valid() && k <= end
    ensures t.HeightOf(k) < t.HeightOf(k + 1)
    ensures RewardFrom(t, k, t.HeightOf(k), t.HeightOf(end))
         == Max(0, Min(t.supply(StopCycle(t, k, end)), t.cap) - t.supply(k))
    decreases end - k
  {
    if k == end || t.supply(k) >= t.cap || t.Stuck(k) {
      StopsAtOnce(t, k, end);
    } else {
      FirstCyclePays(t, k, end);
      RewardTelescopes(t, k + 1, end);
      GoesOn(t, k, end);
      ClippedGrowthAdds(t.cap, t.supply(k), t.supply(k + 1), t.supply(StopCycle(t, k, end)));
    }
  }

  /** On aligned heights the reward is the growth of the supply clipped at the cap if and only if no cycle
      before the cap grows by less than a coin, or the supply stays flat from that cycle on. */
  lemma RewardIsSupplyGrowth(t: Track, k: nat, end: nat)
    requires t.Valid() && k <= end
    ensures t.HeightOf(k) < t.HeightOf(k + 1)
    ensures var stop := StopCycle(t, k, end);
            RewardFrom(t, k, t.HeightOf(k), t.HeightOf(end)) == Max(0, Min(t.supply(end), t.cap) - t.supply(k))
            <==> stop == end || t.supply(stop) >= t.cap || t.supply(stop) == t.supply(end)
  {
    RewardTelescopes(t, k, end);
  }

  // ---------------------------------------------------------------- heights inside a cycle

  function RealMin(a: real, b: real): real {
    if a < b then a else b
  }

  /** The supply at height `height` of cycle `k`, growing evenly over the cycle and clipped at the cap. */
  ghost function Accrued(t: Track, k: nat, height: int): real
    requires t.Valid() && t.HeightOf(k) <= height
  {
    var c := Coinbase(t.supply(k + 1) - t.supply(k), t.cycle);
    RealMin(t.cap as real, t.supply(k) as real + Times(c, height - t.HeightOf(k)))
  }

  predicate Near(x: real, y: real, d: real) {
    -d <= x - y <= d
  }

  /** Rounding moves what one cycle pays by at most half a unit. */
  lemma PieceIsNear(cap: int, supply: int, next: int, before: real, span: real)
    requires before >= 0.0 && span >= 0.0 && supply < cap && supply as real + before + span <= next as real
    ensures Near(CyclePays(cap, supply, next, before, span) as real,
                 RealMin(cap as real, supply as real + (before + span)) - RealMin(cap as real, supply as real + before), 0.5)
  {
  }

  lemma BoundaryAccrues(t: Track, k: nat)
    requires t.Valid()
    ensures t.HeightOf(k) <= t.HeightOf(k + 1)
    ensures Accrued(t, k, t.HeightOf(k + 1)) == Accrued(t, k + 1, t.HeightOf(k + 1))
  {
  }

  lemma CappedIsFlat(t: Track, k: nat, height: int)
    requires t.Valid() && t.HeightOf(k) <= height && t.supply(k) >= t.cap
    ensures Accrued(t, k, height) == t.cap as real
  {
    TimesIsNonNegative(Coinbase(t.supply(k + 1) - t.supply(k), t.cycle), height - t.HeightOf(k));
  }

  /** What the blocks from `height` to `to` of one cycle are due. */
  lemma PieceIsDue(t: Track, k: nat, height: int, to: int)
    requires t.Valid() && t.supply(k) < t.cap && t.HeightOf(k) <= height <= to <= t.HeightOf(k + 1)
    ensures var c := Coinbase(t.supply(k + 1) - t.supply(k), t.cycle);
            Near(CyclePays(t.cap, t.supply(k), t.supply(k + 1), Times(c, height - t.HeightOf(k)), Times(c, to - height)) as real,
                 Accrued(t, k, to) - Accrued(t, k, height), 0.5)
  {
    var c := Coinbase(t.supply(k + 1) - t.supply(k), t.cycle);
    var before, span, rest := height - t.HeightOf(k), to - height, t.HeightOf(k + 1) - to;
    TimesAdds(c, before, span);
    TimesAdds(c, before + span, rest);
    TimesIsNonNegative(c, before);
    TimesIsNonNegative(c, span);
    TimesIsNonNegative(c, rest);
    PieceIsNear(t.cap, t.supply(k), t.supply(k + 1), Times(c, before), Times(c, span));
  }

  /** A cycle that is paid to its end, and then the cycles after it. */
  lemma RewardOfCycle(t: Track, k: nat, height: int, end: int)
    requires t.Valid() && t.HeightOf(k) <= height < t.HeightOf(k + 1) <= end && t.supply(k) < t.cap && !t.Stuck(k)
    ensures t.HeightOf(k + 1) < t.HeightOf(k + 2)
    ensures var later := RewardFrom(t, k + 1, t.HeightOf(k + 1), end);
            Near((RewardFrom(t, k, height, end) - later) as real, Accrued(t, k, t.HeightOf(k + 1)) - Accrued(t, k, height), 0.5)
  {
    PieceIsDue(t, k, height, t.HeightOf(k + 1));
  }

  /** How far the supply accrues for a height range: to its end, or to the first cycle at which paying stops. */
  ghost function Reached(t: Track, k: nat, height: int, last: nat, end: int): real
    requires t.Valid() && k <= last && t.HeightOf(k) <= height < t.HeightOf(k + 1)
    requires t.HeightOf(last) <= end <= t.HeightOf(last + 1) && height <= end
  {
    var stop := StopCycle(t, k, last + 1);
    if stop > last then Accrued(t, last, end) else Accrued(t, stop, Max(height, t.HeightOf(stop)))
  }

  /** A cycle at which paying does not stop reaches as far as the next one. */
  lemma ReachedFromNext(t: Track, k: nat, height: int, last: nat, end: int)
    requires t.Valid() && k < last && t.HeightOf(k) <= height < t.HeightOf(k + 1)
    requires t.HeightOf(last) <= end <= t.HeightOf(last + 1) && t.supply(k) < t.cap && !t.Stuck(k)
    ensures t.HeightOf(k + 1) < t.HeightOf(k + 2) && t.HeightOf(k + 1) <= end
    ensures Reached(t, k, height, last, end) == Reached(t, k + 1, t.HeightOf(k + 1), last, end)
  {
    CyclesAreOrdered(t, k + 1, last);
    CyclesAreOrdered(t, k + 1, StopCycle(t, k + 1, last + 1));
  }

  /** Between any two heights the reward is the supply that accrues until paying stops, off by at most half a unit for
      each supply cycle touched. */
  lemma {:induction false} RewardIsNearAccrual(t: Track, k: nat, height: int, last: nat, end: int)
    requires t.Valid() && k <= last && t.HeightOf(k) <= height < t.HeightOf(k + 1)
    requires t.HeightOf(last) <= end <= t.HeightOf(last + 1) && height <= end
    ensures Near(RewardFrom(t, k, height, end) as real, Reached(t, k, height, last, end) - Accrued(t, k, height),
                 (last - k + 1) as real / 2.0)
    decreases last - k
  {
    if t.supply(k) >= t.cap || t.Stuck(k) {
      NothingFromStop(t, k, height, end);
    } else if k == last {
      if height < end {
        PieceIsDue(t, k, height, end);
      }
    } else {
      ReachedFromNext(t, k, height, last, end);
      RewardOfCycle(t, k, height, end);
      BoundaryAccrues(t, k);
      RewardIsNearAccrual(t, k + 1, t.HeightOf(k + 1), last, end);
    }
  }

  /** Where no cycle below the cap grows by less than a coin, the supply accrues to the end of the range. */
  lemma ReachesEnd(t: Track, k: nat, height: int, last: nat, end: int)
    requires t.Valid() && k <= last && t.HeightOf(k) <= height < t.HeightOf(k + 1)
    requires t.HeightOf(last) <= end <= t.HeightOf(last + 1) && height <= end
    requires forall j :: k <= j <= last && t.supply(j) < t.cap ==> !t.Stuck(j)
    ensures Reached(t, k, height, last, end) == Accrued(t, last, end)
  {
    var stop := StopCycle(t, k, last + 1);
    if stop <= last {
      CappedIsFlat(t, stop, Max(height, t.HeightOf(stop)));
      CappedIsFlat(t, last, end);
    }
  }
}
