/** The height up to which `GetMaxRewardHeight` says that a DeFi fork pays rewards, and what is paid after it. */
module DeFiMaxHeight {
  import opened Common
  import opened Arithmetic
  import opened SupplyTrack
  import opened DeFiSupply

  function Ceil(x: real): int {
    -((-x).Floor)
  }

  /** The first cycle from `k` on that grows by less than a coin or reaches the cap. It exists, because until then
      the distance to the cap falls by at least a coin in every cycle. */
  function MaxCycle(p: Profile, k: nat): (r: nat)
    requires p.supplyCycle > 0
    ensures r >= k && (p.Supply(r + 1) < p.Supply(r) + COIN || p.Supply(r + 1) >= p.Cap())
    decreases Max(0, p.Cap() - p.Supply(k))
  {
    if p.Supply(k + 1) < p.Supply(k) + COIN || p.Supply(k + 1) >= p.Cap() then k else MaxCycle(p, k + 1)
  }

  /** The blocks that a cycle needs to mint what is missing to the cap, at the rate of its first moment. */
  function BlocksToCap(cap: int, supply: nat, rate: real, cycle: int): int
    requires cycle > 0
  {
    var coinbase := supply as real * rate / cycle as real;
    if coinbase == 0.0 then 0 else Ceil((cap - supply) as real / coinbase)
  }

  function MaxRewardHeight(p: Profile, c: nat): int
    requires p.supplyCycle > 0
  {
    p.Mint() + c * p.supplyCycle - 1 +
    if p.Supply(c + 1) < p.Supply(c) + COIN then 0 else BlocksToCap(p.Cap(), p.Supply(c), p.Rate(c), p.supplyCycle)
  }

  /** The flat count of `GetMaxRewardHeight` decays the rate exactly where the nested loops of `FastForward` do. */
  lemma FlatRate(p: Profile, count: nat)
    requires p.supplyCycle > 0 && p.schedule.Fixed?
    ensures p.Rate(count + 1) ==
            if p.PerDecay() > 0 && (count + 1) % p.PerDecay() == 0
            then DecayedOnce(p.Rate(count), p.schedule.decayPercent) else p.Rate(count)
  {
    if p.PerDecay() > 0 {
      DivStep(count, p.PerDecay());
    }
  }

  lemma GrowthNeedsRate(supply: nat, rate: real)
    requires rate >= 0.0 && Grown(supply, rate) >= supply + COIN
    ensures supply as real * rate >= COIN as real
    ensures supply as real * rate >= (Grown(supply, rate) - supply) as real
  {
    assert supply as real * (1.0 + rate) == supply as real + supply as real * rate;
  }

  lemma GrowthCovers(cap: int, supply: nat, rate: real)
    requires rate >= 0.0 && Grown(supply, rate) >= supply + COIN && Grown(supply, rate) >= cap
    ensures 0.0 < supply as real * rate && (cap - supply) as real <= supply as real * rate
  {
    GrowthNeedsRate(supply, rate);
    var growth := Grown(supply, rate) - supply;
    assert (cap - supply) as real <= growth as real;
  }

  /** The end of both loops: which of the two stops it is, and the height that follows. */
  method FinishMax(p: Profile, supply: nat, next: nat, rate: real, count: nat) returns (height: int)
    requires p.supplyCycle > 0 && supply == p.Supply(count) && next == p.Supply(count + 1) && rate == p.Rate(count)
    ensures height == MaxRewardHeight(p, count)
  {
    if next < supply + COIN {
      return p.Mint() + count * p.supplyCycle - 1;
    }
    height := p.Mint() + count * p.supplyCycle + BlocksToCap(p.Cap(), supply, rate, p.supplyCycle) - 1;
  }

  /** `GetMaxRewardHeight` of a fixed schedule: its endless loop ends, at the cycle where the recurrence stops. */
  method GetMaxFixed(p: Profile) returns (height: int)
    requires p.Accepted() && p.schedule.Fixed?
    ensures height == MaxRewardHeight(p, MaxCycle(p, 0))
  {
    var supply: nat, rate, count: nat := p.amount, p.schedule.initPercent as real / 100.0, 0;
    FixedRate(p, 0, 0);
    while true
      invariant supply == p.Supply(count) && rate == p.Rate(count) && rate >= 0.0
      invariant MaxCycle(p, count) == MaxCycle(p, 0)
      decreases Max(0, p.Cap() - supply)
    {
      SupplyStep(p, count);
      var next := Grown(supply, rate);
      if next < supply + COIN || next >= p.Cap() {
        height := FinishMax(p, supply, next, rate, count);
        return;
      }
      FlatRate(p, count);
      supply, count := next, count + 1;
      if p.PerDecay() > 0 && count % p.PerDecay() == 0 {
        rate := DecayedOnce(rate, p.schedule.decayPercent);
      }
    }
  }

  /** The inner loop of `GetMaxRewardHeight` over the `cycles` cycles of one segment. */
  method MaxInSegment(p: Profile, rate: real, cycles: nat, supplyIn: nat, countIn: nat)
    returns (stopped: bool, height: int, supply: nat, count: nat)
    requires p.supplyCycle > 0 && rate >= 0.0 && supplyIn == p.Supply(countIn) && MaxCycle(p, countIn) == MaxCycle(p, 0)
    requires forall k :: countIn <= k < countIn + cycles ==> p.Rate(k) == rate
    ensures stopped ==> height == MaxRewardHeight(p, MaxCycle(p, 0))
    ensures !stopped ==> count == countIn + cycles && supply == p.Supply(count) && MaxCycle(p, count) == MaxCycle(p, 0)
  {
    stopped, height, supply, count := false, 0, supplyIn, countIn;
    var left := cycles;
    while left > 0
      invariant countIn <= count && count + left == countIn + cycles
      invariant supply == p.Supply(count) && MaxCycle(p, count) == MaxCycle(p, 0)
    {
      assert p.Rate(count) == rate;
      SupplyStep(p, count);
      var next := Grown(supply, rate);
      if next < supply + COIN || next >= p.Cap() {
        height := FinishMax(p, supply, next, rate, count);
        stopped := true;
        return;
      }
      supply, count, left := next, count + 1, left - 1;
    }
  }

  /** `GetMaxRewardHeight` of a specific schedule. */
  method GetMaxSpecific(p: Profile) returns (height: int)
    requires p.Accepted() && p.schedule.Specific?
    ensures height == MaxRewardHeight(p, MaxCycle(p, 0))
  {
    var supply: nat, count: nat := p.amount, 0;
    for n := 0 to |p.schedule.segments|
      invariant supply == p.Supply(count) && EndsAt(p, n, count) && MaxCycle(p, count) == MaxCycle(p, 0)
    {
      var rate := p.schedule.segments[n].percent as real / 100.0;
      var cycles := (p.schedule.segments[n].key - LastKey(p, n)) / p.supplyCycle;
      SegmentCycles(p, n, count, cycles);
      var stopped;
      stopped, height, supply, count := MaxInSegment(p, rate, cycles, supply, count);
      if stopped {
        return;
      }
    }
    NothingBeyond(p, count, count);
    height := p.Mint() + count * p.supplyCycle - 1;
  }

  /** `GetMaxRewardHeight`. */
  method GetMaxRewardHeight(p: Profile) returns (height: int)
    requires p.Accepted()
    ensures height == if p.mintHeight < 0 then -1 else MaxRewardHeight(p, MaxCycle(p, 0))
  {
    if p.mintHeight < 0 {
      height := -1;
    } else if p.schedule.Fixed? {
      height := GetMaxFixed(p);
    } else {
      height := GetMaxSpecific(p);
    }
  }

  lemma NeedAtMostCycle(missing: real, growth: real, cycle: int)
    requires 0.0 <= missing <= growth && growth > 0.0 && cycle > 0
    ensures growth / cycle as real > 0.0
    ensures 0.0 <= missing / (growth / cycle as real) <= cycle as real
  {
    var c := growth / cycle as real;
    assert c > 0.0;
    var y := missing / c;
    assert y * c == missing;
    assert c * cycle as real == growth;
    assert y > cycle as real ==> (y - cycle as real) * c > 0.0;
    assert y < 0.0 ==> y * c < 0.0;
  }

  /** The growth of the cycle covers what is missing, so at most one cycle of blocks is needed, and the divisor in the
      source is not zero. */
  lemma BlocksToCapFit(cap: int, supply: nat, rate: real, cycle: int)
    requires cycle > 0 && supply <= cap && rate >= 0.0
    requires Grown(supply, rate) >= supply + COIN && Grown(supply, rate) >= cap
    ensures supply as real * rate / cycle as real > 0.0
    ensures 0 <= BlocksToCap(cap, supply, rate, cycle) <= cycle
  {
    GrowthCovers(cap, supply, rate);
    NeedAtMostCycle((cap - supply) as real, supply as real * rate, cycle);
  }

  lemma {:induction false} MaxCycleIsWithinCap(p: Profile, k: nat)
    requires p.supplyCycle > 0 && p.Supply(k) <= p.Cap()
    ensures p.Supply(MaxCycle(p, k)) <= p.Cap()
    decreases Max(0, p.Cap() - p.Supply(k))
  {
    if !(p.Supply(k + 1) < p.Supply(k) + COIN || p.Supply(k + 1) >= p.Cap()) {
      MaxCycleIsWithinCap(p, k + 1);
    }
  }

  lemma MaxCycleOfCapped(p: Profile)
    requires p.supplyCycle > 0 && p.amount > p.Cap()
    ensures MaxCycle(p, 0) == 0
  {
    SupplyNeverFalls(p, 0, 1);
  }

  lemma BlocksOfCapped(cap: int, supply: nat, rate: real, cycle: int)
    requires cycle > 0 && supply > cap && rate >= 0.0 && Grown(supply, rate) >= supply + COIN
    ensures BlocksToCap(cap, supply, rate, cycle) <= 0
  {
    GrowthNeedsRate(supply, rate);
    var coinbase := supply as real * rate / cycle as real;
    assert coinbase > 0.0;
    assert (cap - supply) as real / coinbase <= 0.0;
  }

  /** The maximum reward height lies in the cycle where the recurrence stops, or is the one just before that cycle. A
      fork that starts above the cap has it before the first block. */
  lemma MaxRewardHeightIsInStopCycle(p: Profile)
    requires p.Accepted()
    ensures var c, t := MaxCycle(p, 0), p.Track();
            if p.amount <= p.Cap() then t.HeightOf(c) <= MaxRewardHeight(p, c) + 1 <= t.HeightOf(c + 1)
            else MaxRewardHeight(p, c) + 1 <= t.HeightOf(0)
  {
    var c, t := MaxCycle(p, 0), p.Track();
    HeightIsProduct(t, c);
    SupplyStep(p, c);
    if p.amount <= p.Cap() {
      MaxCycleIsWithinCap(p, 0);
      if p.Supply(c + 1) >= p.Supply(c) + COIN {
        BlocksToCapFit(p.Cap(), p.Supply(c), p.Rate(c), p.supplyCycle);
      }
    } else {
      MaxCycleOfCapped(p);
      if p.Supply(c + 1) >= p.Supply(c) + COIN {
        BlocksOfCapped(p.Cap(), p.Supply(c), p.Rate(c), p.supplyCycle);
      }
    }
  }

  // ---------------------------------------------------------------- what is paid after the maximum height

  /** No range of heights from `height` on is paid anything. */
  ghost predicate NothingAfter(p: Profile, height: int)
    requires p.supplyCycle > 0
  {
    forall k: nat, begin: int, end: int ::
      height <= begin && p.Track().HeightOf(k) <= begin < p.Track().HeightOf(k + 1) ==> RewardFrom(p.Track(), k, begin, end) == 0
  }

  /** Whether the first `blocks` blocks of a cycle that mints `growth` are paid all of the `need` that is missing to the
      cap, rounding included. */
  predicate PaidByBlocks(growth: int, need: int, blocks: int, cycle: int) {
    if need < growth then 2 * growth * blocks >= (2 * need - 1) * cycle else 2 * growth * (cycle - blocks) < cycle
  }

  /** A share of a growth, in whole numbers. */
  lemma ShareOfGrowth(growth: nat, blocks: nat, cycle: nat)
    requires cycle > 0
    ensures Times(Coinbase(growth, cycle), blocks) == (growth * blocks) as real / cycle as real
  {
    CoinbaseIsQuotient(growth, cycle);
    TimesIsProduct(Coinbase(growth, cycle), blocks);
    var g, b, c := growth as real, blocks as real, cycle as real;
    assert (g / c) * b == (g * b) / c;
  }

  lemma RoundOfShare(part: int, cycle: int, n: int)
    requires cycle > 0
    ensures Round(part as real / cycle as real) >= n <==> 2 * part >= (2 * n - 1) * cycle
  {
    var x := part as real / cycle as real;
    assert x * cycle as real == part as real;
    assert Round(x) >= n <==> x + 0.5 >= n as real;
    assert x + 0.5 >= n as real <==> 2.0 * x >= (2 * n - 1) as real;
    if 2.0 * x >= (2 * n - 1) as real {
      assert 2.0 * x * cycle as real >= (2 * n - 1) as real * cycle as real;
    } else {
      assert 2.0 * x * cycle as real < (2 * n - 1) as real * cycle as real;
    }
  }

  lemma ShareRounds(growth: nat, blocks: nat, cycle: nat, n: int)
    requires cycle > 0
    ensures Round(Times(Coinbase(growth, cycle), blocks)) >= n <==> 2 * growth * blocks >= (2 * n - 1) * cycle
  {
    ShareOfGrowth(growth, blocks, cycle);
    RoundOfShare(growth * blocks, cycle, n);
    TwiceProduct(growth, blocks);
  }

  lemma TwiceProduct(a: int, b: int)
    ensures 2 * (a * b) == 2 * a * b
  {
  }

  /** The first `blocks` blocks are paid the whole need exactly when the rounded amounts say so. */
  lemma PaidByBlocksIsRounded(growth: nat, need: int, blocks: nat, cycle: nat)
    requires cycle > 0 && need <= growth && blocks <= cycle
    ensures var c := Coinbase(growth, cycle);
            PaidByBlocks(growth, need, blocks, cycle) <==>
            if need < growth then Round(Times(c, blocks)) >= need else Round(Times(c, cycle - blocks)) <= 0
  {
    if need < growth {
      ShareRounds(growth, blocks, cycle, need);
    } else {
      ShareRounds(growth, cycle - blocks, cycle, 1);
    }
  }

  lemma TimesMono(c: real, a: nat, b: nat)
    requires c >= 0.0 && a <= b
    ensures Times(c, a) <= Times(c, b)
  {
    TimesAdds(c, a, b - a);
    TimesIsNonNegative(c, b - a);
  }

  /** The cycle that reaches the cap is the last one that pays. */
  lemma LastRewardIs(t: Track, c: nat, height: int, end: int)
    requires t.Valid() && t.supply(c) < t.cap <= t.supply(c + 1) && !t.Stuck(c) && t.HeightOf(c) <= height < t.HeightOf(c + 1)
    requires height < end
    ensures var coinbase, upTo := Coinbase(t.supply(c + 1) - t.supply(c), t.cycle), Min(end, t.HeightOf(c + 1));
            RewardFrom(t, c, height, end) ==
            CyclePays(t.cap, t.supply(c), t.supply(c + 1), Times(coinbase, height - t.HeightOf(c)), Times(coinbase, upTo - height))
  {
    if t.HeightOf(c + 1) < end {
      NothingFromStop(t, c + 1, t.HeightOf(c + 1), end);
    }
  }

  /** What the cycle that reaches the cap still pays from a height after its first `blocks` blocks, when these minted all
      but less than one unit of the need: at most one unit, and nothing when they were paid the whole need. */
  lemma LastCyclePays(t: Track, c: nat, blocks: nat, height: int, end: int)
    requires t.Valid() && t.supply(c) < t.cap <= t.supply(c + 1) && !t.Stuck(c)
    requires t.HeightOf(c) + blocks <= height < t.HeightOf(c + 1)
    requires Times(Coinbase(t.supply(c + 1) - t.supply(c), t.cycle), blocks) > (t.cap - t.supply(c) - 1) as real
    ensures 0 <= RewardFrom(t, c, height, end) <= 1
    ensures PaidByBlocks(t.supply(c + 1) - t.supply(c), t.cap - t.supply(c), blocks, t.cycle) ==> RewardFrom(t, c, height, end) == 0
  {
    var growth, need := t.supply(c + 1) - t.supply(c), t.cap - t.supply(c);
    var coinbase := Coinbase(growth, t.cycle);
    if height < end {
      var upTo := Min(end, t.HeightOf(c + 1));
      LastRewardIs(t, c, height, end);
      TimesMono(coinbase, blocks, height - t.HeightOf(c));
      TimesMono(coinbase, upTo - height, t.cycle - blocks);
      TimesAdds(coinbase, blocks, t.cycle - blocks);
      TimesIsNonNegative(coinbase, upTo - height);
      PaidByBlocksIsRounded(growth, need, blocks, t.cycle);
      LastPiece(t.cap, t.supply(c), t.supply(c + 1), Times(coinbase, blocks), Times(coinbase, t.cycle - blocks),
                Times(coinbase, height - t.HeightOf(c)), Times(coinbase, upTo - height));
    }
  }

  lemma LastPiece(cap: int, supply: int, next: int, first: real, rest: real, before: real, span: real)
    requires supply < cap <= next && first + rest == (next - supply) as real && first > (cap - supply - 1) as real
    requires first <= before && 0.0 <= span <= rest
    ensures 0 <= CyclePays(cap, supply, next, before, span) <= 1
    ensures (if cap < next then Round(first) >= cap - supply else Round(rest) <= 0) ==> CyclePays(cap, supply, next, before, span) == 0
  {
  }

  /** When the first `blocks` blocks are not paid the whole need, one unit is paid after them. */
  lemma LastCycleOwes(t: Track, c: nat, blocks: nat)
    requires t.Valid() && t.supply(c) < t.cap <= t.supply(c + 1) && !t.Stuck(c) && blocks <= t.cycle
    requires Times(Coinbase(t.supply(c + 1) - t.supply(c), t.cycle), blocks) > (t.cap - t.supply(c) - 1) as real
    requires !PaidByBlocks(t.supply(c + 1) - t.supply(c), t.cap - t.supply(c), blocks, t.cycle)
    ensures t.HeightOf(c) + blocks < t.HeightOf(c + 1)
    ensures RewardFrom(t, c, t.HeightOf(c) + blocks, t.HeightOf(c + 1)) == 1
  {
    var growth, need := t.supply(c + 1) - t.supply(c), t.cap - t.supply(c);
    var coinbase := Coinbase(growth, t.cycle);
    PaidByBlocksIsRounded(growth, need, blocks, t.cycle);
    TimesAdds(coinbase, blocks, t.cycle - blocks);
    if blocks == t.cycle {
      RoundOfWhole(growth);
      RoundOfWhole(0);
      assert false;
    }
  }

  // ---------------------------------------------------------------- the blocks that reach the cap

  /** The growth that the paying loop uses is that of `GetMaxRewardHeight`, truncated. */
  lemma GrowthIsTruncated(supply: nat, rate: real)
    requires rate >= 0.0
    ensures (Grown(supply, rate) - supply) as real <= supply as real * rate < (Grown(supply, rate) - supply + 1) as real
  {
    assert supply as real * (1.0 + rate) == supply as real + supply as real * rate;
  }

  lemma RealMono(a: real, b: real, c: real)
    requires a <= b && c >= 0.0
    ensures a * c <= b * c
  {
  }

  /** The blocks counted with the full growth mint the need. */
  lemma BlocksCover(need: real, growth: real, cycle: real, blocks: int)
    requires growth > 0.0 && cycle > 0.0 && growth / cycle > 0.0 && blocks == Ceil(need / (growth / cycle))
    ensures need * cycle <= growth * blocks as real
  {
    var c := growth / cycle;
    assert blocks as real >= need / c;
    RealMono(need / c, blocks as real, c);
    assert (need / c) * c == need;
    RealMono(need, blocks as real * c, cycle);
    assert c * cycle == growth;
    assert (blocks as real * c) * cycle == blocks as real * (c * cycle);
  }

  lemma CoversAlmost(n: real, w: real, g: real)
    requires 0.0 <= n <= w && w <= g < w + 1.0 && g > 0.0 && (n >= 1.0 || n == 0.0)
    ensures w * n > (n - 1.0) * g
  {
    if n >= 1.0 {
      RealMono(g, w + 1.0, n - 1.0);
      assert (w + 1.0) * (n - 1.0) == w * n + n - w - 1.0;
    }
  }

  /** With the truncated growth they mint all of it but less than one unit. */
  lemma BlocksAlmostCover(need: int, whole: nat, growth: real, cycle: int, blocks: nat)
    requires 0 <= need <= whole && whole as real <= growth < (whole + 1) as real && growth > 0.0 && cycle > 0
    requires need as real * cycle as real <= growth * blocks as real
    ensures (need - 1) * cycle < whole * blocks
  {
    var g, n, w, y, b := growth, need as real, whole as real, cycle as real, blocks as real;
    CoversAlmost(n, w, g);
    RealMono(n * y, g * b, w);
    assert (n * y) * w == (w * n) * y;
    assert (w * n) * y > ((n - 1.0) * g) * y;
    assert ((n - 1.0) * g) * y == ((n - 1.0) * y) * g && (g * b) * w == (w * b) * g;
    if (n - 1.0) * y >= w * b {
      RealMono(w * b, (n - 1.0) * y, g);
      assert false;
    }
  }

  /** In the cycle that reaches the cap, the blocks up to the maximum reward height mint all of the need but less than
      one unit. */
  lemma MaxHeightAlmostCovers(cap: int, supply: nat, rate: real, cycle: int)
    requires cycle > 0 && supply <= cap && rate >= 0.0
    requires Grown(supply, rate) >= supply + COIN && Grown(supply, rate) >= cap
    ensures var blocks := BlocksToCap(cap, supply, rate, cycle);
            0 <= blocks <= cycle && Times(Coinbase(Grown(supply, rate) - supply, cycle), blocks) > (cap - supply - 1) as real
  {
    var blocks, whole := BlocksToCap(cap, supply, rate, cycle), Grown(supply, rate) - supply;
    BlocksToCapFit(cap, supply, rate, cycle);
    GrowthIsTruncated(supply, rate);
    GrowthCovers(cap, supply, rate);
    BlocksCover((cap - supply) as real, supply as real * rate, cycle as real, blocks);
    BlocksAlmostCover(cap - supply, whole, supply as real * rate, cycle, blocks);
    ShareOfGrowth(whole, blocks, cycle);
    QuotientAbove(whole * blocks, cycle, cap - supply - 1);
  }

  lemma QuotientAbove(part: int, cycle: int, n: int)
    requires cycle > 0 && n * cycle < part
    ensures part as real / cycle as real > n as real
  {
    var x := part as real / cycle as real;
    assert x * cycle as real == part as real;
    if x <= n as real {
      RealMono(x, n as real, cycle as real);
      assert false;
    }
  }

  // ---------------------------------------------------------------- the maximum height against the rewards

  /** Whether the recurrence stops because it grows by less than a coin; otherwise it reaches the cap. */
  predicate StopsStuck(p: Profile)
    requires p.supplyCycle > 0
  {
    var c := MaxCycle(p, 0);
    p.Supply(c + 1) < p.Supply(c) + COIN
  }

  /** Whether cycle `k` pays nothing: it grows by less than a coin or starts at the cap. */
  predicate IsStopped(p: Profile, k: nat)
    requires p.supplyCycle > 0
  {
    p.Supply(k + 1) < p.Supply(k) + COIN || p.Supply(k) >= p.Cap()
  }

  predicate AddsNoCoin(supply: int, rate: real) {
    supply as real * rate < COIN as real
  }

  /** Whether no cycle from `k` on can pay: the cap is reached, the segments are over, or the fixed rate, which never rises,
      no longer makes the supply grow or could not add a coin even to the cap. */
  predicate IsQuiet(p: Profile, k: nat)
    requires p.Accepted()
  {
    p.Supply(k) >= p.Cap() ||
    match p.schedule
    case Fixed(_, _, _) => p.Supply(k + 1) == p.Supply(k) || AddsNoCoin(p.Cap(), p.Rate(k))
    case Specific(segments) => k >= segments[|segments| - 1].key / p.supplyCycle
  }

  /** The first quiet cycle from `k` on. */
  function QuietCycle(p: Profile, k: nat): (q: nat)
    requires p.Accepted()
    ensures q >= k && IsQuiet(p, q)
    decreases if p.schedule.Fixed? then Max(0, p.Cap() - p.Supply(k))
              else Max(0, p.schedule.segments[|p.schedule.segments| - 1].key / p.supplyCycle - k)
  {
    if IsQuiet(p, k) then k
    else
      SupplyNeverFalls(p, k, k + 1);
      QuietCycle(p, k + 1)
  }

  /** After cycle `c` no cycle below the cap grows by a coin, as far as the first quiet one. */
  predicate StaysStopped(p: Profile, c: nat)
    requires p.Accepted()
  {
    forall k :: c < k < QuietCycle(p, c) ==> IsStopped(p, k)
  }

  lemma DecayedOnceIsNoMore(rate: real, decayPercent: nat)
    requires rate >= 0.0 && decayPercent <= 100
    ensures DecayedOnce(rate, decayPercent) <= rate
  {
    RealMono(decayPercent as real, 100.0, rate);
  }

  lemma {:induction false} FixedRateNeverRises(p: Profile, j: nat, k: nat)
    requires p.Accepted() && p.schedule.Fixed? && j <= k
    ensures p.Rate(k) <= p.Rate(j)
    decreases k
  {
    if j < k {
      FixedRateNeverRises(p, j, k - 1);
      FlatRate(p, k - 1);
      RateIsNonNegative(p, k - 1);
      DecayedOnceIsNoMore(p.Rate(k - 1), p.schedule.decayPercent);
    }
  }

  lemma GrownIsMonotone(supply: nat, rate: real, larger: real)
    requires 0.0 <= rate <= larger
    ensures Grown(supply, rate) <= Grown(supply, larger)
  {
    var s, a, b := supply as real, 1.0 + rate, 1.0 + larger;
    RealMono(a, b, s);
    FloorMono(s * a, s * b);
  }

  lemma FloorMono(a: real, b: real)
    requires a <= b
    ensures a.Floor <= b.Floor
  {
  }

  /** Under a fixed schedule a supply that does not grow never grows again. */
  lemma {:induction false} FlatStaysFlat(p: Profile, j: nat, k: nat)
    requires p.Accepted() && p.schedule.Fixed? && j <= k && p.Supply(j + 1) == p.Supply(j)
    ensures p.Supply(k + 1) == p.Supply(k)
    decreases k
  {
    if j < k {
      FlatStaysFlat(p, j, k - 1);
      FixedRateNeverRises(p, k - 1, k);
      SupplyStep(p, k - 1);
      SupplyStep(p, k);
      GrownIsMonotone(p.Supply(k), p.Rate(k), p.Rate(k - 1));
    }
  }

  /** Below a rate that adds no coin to the cap, no coin is added to anything below the cap. */
  lemma SmallRateAddsNoCoin(supply: nat, cap: int, rate: real, larger: real)
    requires supply <= cap && 0.0 <= rate <= larger && AddsNoCoin(cap, larger)
    ensures AddsNoCoin(supply, rate)
  {
    RealMono(supply as real, cap as real, rate);
    RealMono(rate, larger, cap as real);
  }

  lemma SmallRateIsStuck(supply: nat, rate: real)
    requires rate >= 0.0 && AddsNoCoin(supply, rate)
    ensures Grown(supply, rate) < supply + COIN
  {
    GrowthIsTruncated(supply, rate);
  }

  lemma FixedQuietIsStopped(p: Profile, j: nat, k: nat)
    requires p.Accepted() && p.schedule.Fixed? && j <= k && p.Supply(k) < p.Cap() && AddsNoCoin(p.Cap(), p.Rate(j))
    ensures p.Supply(k + 1) < p.Supply(k) + COIN
  {
    FixedRateNeverRises(p, j, k);
    SupplyStep(p, k);
    SmallRateAddsNoCoin(p.Supply(k), p.Cap(), p.Rate(k), p.Rate(j));
    SmallRateIsStuck(p.Supply(k), p.Rate(k));
  }

  lemma SpecificQuietIsStopped(p: Profile, j: nat, k: nat)
    requires p.Accepted() && p.schedule.Specific? && j <= k
    requires j >= p.schedule.segments[|p.schedule.segments| - 1].key / p.supplyCycle
    ensures p.Supply(k + 1) == p.Supply(k)
  {
    var n := |p.schedule.segments|;
    assert EndsAt(p, n, p.schedule.segments[n - 1].key / p.supplyCycle);
    NothingBeyond(p, p.schedule.segments[n - 1].key / p.supplyCycle, k);
  }

  /** From a quiet cycle on every cycle is stopped. */
  lemma QuietIsStopped(p: Profile, j: nat, k: nat)
    requires p.Accepted() && IsQuiet(p, j) && j <= k
    ensures IsStopped(p, k)
  {
    SupplyNeverFalls(p, j, k);
    if p.Supply(k) < p.Cap() {
      if p.schedule.Specific? {
        SpecificQuietIsStopped(p, j, k);
      } else if p.Supply(j + 1) == p.Supply(j) {
        FlatStaysFlat(p, j, k);
      } else {
        FixedQuietIsStopped(p, j, k);
      }
    }
  }

  /** The cycles up to the first quiet one speak for all. */
  lemma StaysStoppedForEver(p: Profile, c: nat)
    requires p.Accepted()
    ensures StaysStopped(p, c) <==> forall k: nat :: k > c ==> IsStopped(p, k)
  {
    if StaysStopped(p, c) {
      forall k: nat | k > c ensures IsStopped(p, k) {
        if k >= QuietCycle(p, c) {
          QuietIsStopped(p, QuietCycle(p, c), k);
        }
      }
    }
  }

  /** Whether the cycle that reaches the cap is paid in full by the maximum reward height. */
  predicate SettledByMax(p: Profile)
    requires p.supplyCycle > 0
  {
    var c := MaxCycle(p, 0);
    p.Supply(c) >= p.Cap() ||
    PaidByBlocks(p.Supply(c + 1) - p.Supply(c), p.Cap() - p.Supply(c),
                 BlocksToCap(p.Cap(), p.Supply(c), p.Rate(c), p.supplyCycle), p.supplyCycle)
  }

  lemma MaxHeightIs(p: Profile)
    requires p.Accepted()
    ensures var c := MaxCycle(p, 0);
            MaxRewardHeight(p, c) + 1 == p.Track().HeightOf(c) +
              if StopsStuck(p) then 0 else BlocksToCap(p.Cap(), p.Supply(c), p.Rate(c), p.supplyCycle)
  {
    HeightIsProduct(p.Track(), MaxCycle(p, 0));
  }

  /** A cycle whose heights come after the start of another one is that cycle or a later one. */
  lemma LaterCycle(t: Track, c: nat, k: nat, height: int)
    requires t.cycle > 0 && t.HeightOf(c) <= height < t.HeightOf(k + 1)
    ensures c <= k
  {
    if k < c {
      CyclesAreOrdered(t, k + 1, c);
    }
  }

  lemma CappedPaysNothing(p: Profile, c: nat, k: nat, begin: int, end: int)
    requires p.supplyCycle > 0 && c <= k && p.Supply(c) >= p.Cap()
    requires p.Track().HeightOf(k) <= begin < p.Track().HeightOf(k + 1)
    ensures RewardFrom(p.Track(), k, begin, end) == 0
  {
    SupplyNeverFalls(p, c, k);
    NothingFromStop(p.Track(), k, begin, end);
  }

  /** When the cap stops the recurrence, every range of heights after the maximum reward height is paid at most one unit,
      and nothing when the last cycle is paid in full by then. */
  lemma AtMostOneAfterMax(p: Profile, k: nat, begin: int, end: int)
    requires p.Accepted() && !StopsStuck(p) && MaxRewardHeight(p, MaxCycle(p, 0)) < begin
    requires p.Track().HeightOf(k) <= begin < p.Track().HeightOf(k + 1)
    ensures 0 <= RewardFrom(p.Track(), k, begin, end) <= 1
    ensures SettledByMax(p) ==> RewardFrom(p.Track(), k, begin, end) == 0
  {
    var c, t := MaxCycle(p, 0), p.Track();
    MaxRewardHeightIsInStopCycle(p);
    if p.amount > p.Cap() {
      CappedPaysNothing(p, 0, k, begin, end);
    } else {
      LaterCycle(t, c, k, begin);
      if p.Supply(c) >= p.Cap() {
        CappedPaysNothing(p, c, k, begin, end);
      } else if k > c {
        CappedPaysNothing(p, c + 1, k, begin, end);
      } else {
        LastCycleAfterMax(p, begin, end);
      }
    }
  }

  lemma LastCycleAfterMax(p: Profile, begin: int, end: int)
    requires p.Accepted() && !StopsStuck(p) && p.Supply(MaxCycle(p, 0)) < p.Cap() && MaxRewardHeight(p, MaxCycle(p, 0)) < begin
    requires p.Track().HeightOf(MaxCycle(p, 0)) <= begin < p.Track().HeightOf(MaxCycle(p, 0) + 1)
    ensures 0 <= RewardFrom(p.Track(), MaxCycle(p, 0), begin, end) <= 1
    ensures SettledByMax(p) ==> RewardFrom(p.Track(), MaxCycle(p, 0), begin, end) == 0
  {
    var c := MaxCycle(p, 0);
    SupplyStep(p, c);
    MaxHeightIs(p);
    MaxHeightAlmostCovers(p.Cap(), p.Supply(c), p.Rate(c), p.supplyCycle);
    LastCyclePays(p.Track(), c, BlocksToCap(p.Cap(), p.Supply(c), p.Rate(c), p.supplyCycle), begin, end);
  }

  /** A cycle is paid something when all of it is asked for, exactly when it grows by a coin and starts below the cap. */
  lemma CyclePaysSomething(t: Track, k: nat)
    requires t.Valid()
    ensures t.HeightOf(k) < t.HeightOf(k + 1)
    ensures RewardFrom(t, k, t.HeightOf(k), t.HeightOf(k + 1)) > 0 <==> !t.Stuck(k) && t.supply(k) < t.cap
  {
    RewardTelescopes(t, k, k + 1);
  }

  /** The maximum reward height is the last one with a reward if and only if, where the recurrence stops for a growth of
      less than a coin, no later cycle below the cap grows by a coin again, and where it reaches the cap, the last cycle
      is paid in full by then. */
  lemma MaxRewardHeightIsLast(p: Profile)
    requires p.Accepted()
    ensures var c := MaxCycle(p, 0);
            NothingAfter(p, MaxRewardHeight(p, c) + 1) <==>
            if StopsStuck(p) then StaysStopped(p, c) else SettledByMax(p)
  {
    if StopsStuck(p) {
      LastWhenStuck(p);
    } else {
      LastWhenCapped(p);
    }
  }

  lemma StoppedPaysNothing(p: Profile, c: nat, k: nat, begin: int, end: int)
    requires p.Accepted() && IsStopped(p, c) && StaysStopped(p, c)
    requires p.Track().HeightOf(c) <= begin && p.Track().HeightOf(k) <= begin < p.Track().HeightOf(k + 1)
    ensures RewardFrom(p.Track(), k, begin, end) == 0
  {
    LaterCycle(p.Track(), c, k, begin);
    StaysStoppedForEver(p, c);
    assert IsStopped(p, k);
    NothingFromStop(p.Track(), k, begin, end);
  }

  lemma PaidNothingIsStopped(p: Profile, c: nat, k: nat)
    requires p.supplyCycle > 0 && k > c && NothingAfter(p, p.Track().HeightOf(c))
    ensures p.Track().Stuck(k) || p.Supply(k) >= p.Cap()
  {
    CyclesAreOrdered(p.Track(), c, k);
    CyclePaysSomething(p.Track(), k);
    assert RewardFrom(p.Track(), k, p.Track().HeightOf(k), p.Track().HeightOf(k + 1)) == 0;
  }

  lemma NothingWhenStopped(p: Profile, c: nat)
    requires p.Accepted() && IsStopped(p, c) && StaysStopped(p, c)
    ensures NothingAfter(p, p.Track().HeightOf(c))
  {
    var t := p.Track();
    forall k: nat, begin: int, end: int | t.HeightOf(c) <= begin && t.HeightOf(k) <= begin < t.HeightOf(k + 1)
      ensures RewardFrom(t, k, begin, end) == 0
    {
      StoppedPaysNothing(p, c, k, begin, end);
    }
  }

  lemma StoppedWhenNothing(p: Profile, c: nat)
    requires p.Accepted() && NothingAfter(p, p.Track().HeightOf(c))
    ensures StaysStopped(p, c)
  {
    forall k: nat | k > c ensures IsStopped(p, k) {
      PaidNothingIsStopped(p, c, k);
    }
  }

  lemma LastWhenStuck(p: Profile)
    requires p.Accepted() && StopsStuck(p)
    ensures NothingAfter(p, MaxRewardHeight(p, MaxCycle(p, 0)) + 1) <==> StaysStopped(p, MaxCycle(p, 0))
  {
    var c := MaxCycle(p, 0);
    MaxHeightIs(p);
    if StaysStopped(p, c) {
      NothingWhenStopped(p, c);
    }
    if NothingAfter(p, p.Track().HeightOf(c)) {
      StoppedWhenNothing(p, c);
    }
  }

  lemma LastWhenCapped(p: Profile)
    requires p.Accepted() && !StopsStuck(p)
    ensures NothingAfter(p, MaxRewardHeight(p, MaxCycle(p, 0)) + 1) <==> SettledByMax(p)
  {
    var c, t := MaxCycle(p, 0), p.Track();
    if SettledByMax(p) {
      forall k: nat, begin: int, end: int | MaxRewardHeight(p, c) + 1 <= begin && t.HeightOf(k) <= begin < t.HeightOf(k + 1)
        ensures RewardFrom(t, k, begin, end) == 0
      {
        AtMostOneAfterMax(p, k, begin, end);
      }
    } else {
      var blocks := BlocksToCap(p.Cap(), p.Supply(c), p.Rate(c), p.supplyCycle);
      SupplyStep(p, c);
      MaxHeightIs(p);
      MaxHeightAlmostCovers(p.Cap(), p.Supply(c), p.Rate(c), p.supplyCycle);
      LastCycleOwes(t, c, blocks);
      assert RewardFrom(t, c, t.HeightOf(c) + blocks, t.HeightOf(c + 1)) != 0;
    }
  }

  // ---------------------------------------------------------------- where it is not the last

  /** A unit is lost at the cap: the maximum reward height is that of the ninth block, and the tenth is still due one. */
  lemma UnitAfterMax(jointHeight: nat)
    ensures var p := Profile(100000069, jointHeight, 0, 109000075, 10, Fixed(10, 100, 0));
            p.Accepted() && MaxRewardHeight(p, MaxCycle(p, 0)) == p.Mint() + 8 &&
            p.Track().HeightOf(0) <= p.Mint() + 9 < p.Track().HeightOf(1) &&
            RewardFrom(p.Track(), 0, p.Mint() + 9, p.Mint() + 10) == 1
  {
    var p := Profile(100000069, jointHeight, 0, 109000075, 10, Fixed(10, 100, 0));
    assert p.Rate(0) == 0.1;
    SupplyStep(p, 0);
    assert p.Supply(0) == 100000069 && p.Supply(1) == 110000075;
    assert MaxCycle(p, 0) == 0;
    assert BlocksToCap(109000075, 100000069, 0.1, 10) == 9 by {
      var x := 9000006.0 / (100000069.0 * 0.1 / 10.0);
      assert x * 1000000.69 == 9000006.0;
      assert 8.0 < x <= 9.0;
    }
    assert !PaidByBlocks(10000006, 9000006, 9, 10);
    MaxHeightAlmostCovers(p.Cap(), p.Supply(0), p.Rate(0), 10);
    LastCycleOwes(p.Track(), 0, 9);
  }

  /** A fork of five coins that grows by a tenth is stuck at once, and its maximum reward height comes before its first
      block; but its ninth cycle grows by more than a coin and is paid. */
  lemma PaidAfterStuck(jointHeight: nat)
    ensures var p := Profile(5 * COIN, jointHeight, 0, -1, 1, Fixed(10, 100, 0));
            p.Accepted() && MaxRewardHeight(p, MaxCycle(p, 0)) == p.Mint() - 1 &&
            p.Track().HeightOf(8) < p.Track().HeightOf(9) &&
            RewardFrom(p.Track(), 8, p.Track().HeightOf(8), p.Track().HeightOf(9)) > 0
  {
    var p := Profile(5 * COIN, jointHeight, 0, -1, 1, Fixed(10, 100, 0));
    assert forall k: nat :: p.Rate(k) == 0.1;
    TenthGrowth(p);
    CyclePaysSomething(p.Track(), 8);
  }

  lemma TenthGrowth(p: Profile)
    requires p.supplyCycle > 0 && p.amount == 5000000 && forall k: nat :: p.Rate(k) == 0.1
    ensures p.Supply(1) == 5500000 && p.Supply(8) == 10717943 && p.Supply(9) == 11789737
  {
    assert p.Supply(1) == 5500000 && p.Supply(2) == 6050000 && p.Supply(3) == 6655000;
    assert p.Supply(4) == 7320500 && p.Supply(5) == 8052550 && p.Supply(6) == 8857805;
    assert p.Supply(7) == 9743585 && p.Supply(8) == 10717943;
  }
}
