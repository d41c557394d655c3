/** The coinbase of a DeFi fork: `GetFixedDecayReward` and `GetSpecificDecayReward`, each against one supply recurrence
    with one step per supply cycle.

    The source computes with `double`; here rates are exact reals, `(int64)` of a product is its floor and
    `llround` rounds half up. Amounts are unbounded. */
module DeFiSupply {
  import opened Common
  import opened Arithmetic
  import opened SupplyTrack

  const MAX_MONEY := 1_000_000_000_000 * COIN

  /** One step of `mapCoinbasePercent`: the percent that holds below the height offset `key`. */
  datatype Segment = Segment(key: int, percent: nat)

  /** How the growth of the supply changes over time. */
  datatype Schedule =
    | Fixed(initPercent: nat, decayPercent: nat, decayCycle: int)
    | Specific(segments: seq<Segment>)

  datatype Profile = Profile(
    amount: nat, jointHeight: nat, mintHeight: int, maxSupply: int, supplyCycle: int, schedule: Schedule)
  {
    function Mint(): int {
      if mintHeight == 0 then jointHeight + 2 else mintHeight
    }

    function Cap(): int {
      if maxSupply < 0 then MAX_MONEY else maxSupply
    }

    /** Supply cycles in a decay cycle; zero when the rate does not decay. */
    function PerDecay(): nat
      requires supplyCycle > 0
    {
      if schedule.Fixed? && schedule.decayCycle > 0 then schedule.decayCycle / supplyCycle else 0
    }

    /** What `ValidateOrigin` accepts. */
    predicate Accepted() {
      supplyCycle > 0 &&
      match schedule
      case Fixed(initPercent, decayPercent, decayCycle) =>
        0 < initPercent <= 10000 && decayPercent <= 100 && decayCycle >= 0 &&
        (decayCycle / supplyCycle) * supplyCycle == decayCycle
      case Specific(segments) =>
        segments != [] &&
        (forall i :: 0 <= i < |segments| ==>
           segments[i].key > 0 && (segments[i].key / supplyCycle) * supplyCycle == segments[i].key &&
           segments[i].percent > 0) &&
        (forall i, j :: 0 <= i < j < |segments| ==> segments[i].key < segments[j].key)
    }

    /** The growth rate in supply cycle `k`. */
    function Rate(k: nat): real
      requires supplyCycle > 0
    {
      match schedule
      case Fixed(initPercent, decayPercent, _) =>
        Decayed(initPercent, decayPercent, if PerDecay() > 0 then k / PerDecay() else 0)
      case Specific(segments) => PercentAt(segments, k * supplyCycle) as real / 100.0
    }

    /** The supply at the start of supply cycle `k`: one truncated growth per cycle. */
    function Supply(k: nat): nat
      requires supplyCycle > 0
    {
      if k == 0 then amount
      else
        RateIsNonNegative(this, k - 1);
        Grown(Supply(k - 1), Rate(k - 1))
    }

    ghost function Track(): (t: Track)
      requires supplyCycle > 0
      ensures t.Valid()
    {
      var t := SupplyTrack.Track.Track(k => Supply(k), Cap(), Mint(), supplyCycle);
      assert forall j: nat, k: nat :: j <= k ==> t.supply(j) <= t.supply(k) by {
        forall j: nat, k: nat | j <= k ensures t.supply(j) <= t.supply(k) {
          SupplyNeverFalls(this, j, k);
        }
      }
      t
    }
  }

  /** The rate after `n` decays. */
  function Decayed(initPercent: nat, decayPercent: nat, n: nat): (r: real)
    ensures r >= 0.0
  {
    if n == 0 then initPercent as real / 100.0
    else DecayedOnce(Decayed(initPercent, decayPercent, n - 1), decayPercent)
  }

  function DecayedOnce(rate: real, decayPercent: nat): (r: real)
    ensures rate >= 0.0 ==> r >= 0.0
  {
    rate * (decayPercent as real) / 100.0
  }

  function PercentAt(segments: seq<Segment>, offset: int): nat {
    if segments == [] then 0
    else if offset < segments[0].key then segments[0].percent
    else PercentAt(segments[1..], offset)
  }

  lemma GrownIsNoLess(s: real, rate: real)
    requires s >= 0.0 && rate >= 0.0
    ensures s * (1.0 + rate) >= s
  {
    assert s * (1.0 + rate) == s + s * rate;
  }

  /** `nSupply * (1 + fCoinbaseIncreasing)`, truncated. */
  function Grown(supply: nat, rate: real): (r: nat)
    requires rate >= 0.0
    ensures r >= supply
  {
    GrownIsNoLess(supply as real, rate);
    (supply as real * (1.0 + rate)).Floor
  }

  lemma RateIsNonNegative(p: Profile, k: nat)
    requires p.supplyCycle > 0
    ensures p.Rate(k) >= 0.0
  {
  }

  lemma {:induction false} SupplyNeverFalls(p: Profile, j: nat, k: nat)
    requires p.supplyCycle > 0 && j <= k
    ensures p.Supply(j) <= p.Supply(k)
    decreases k - j
  {
    if j < k {
      SupplyNeverFalls(p, j, k - 1);
      RateIsNonNegative(p, k - 1);
    }
  }

  /** The reward is that of the recurrence, from the cycle that holds `begin`. */
  ghost predicate IsReward(p: Profile, begin: int, end: int, reward: int)
    requires p.supplyCycle > 0
  {
    forall k: nat :: p.Track().HeightOf(k) <= begin < p.Track().HeightOf(k + 1) ==>
      reward == RewardFrom(p.Track(), k, begin, end)
  }

  lemma OnlyOneCycle(p: Profile, k: nat, begin: int, end: int, reward: int)
    requires p.supplyCycle > 0 && p.Track().HeightOf(k) <= begin < p.Track().HeightOf(k + 1)
    requires reward == RewardFrom(p.Track(), k, begin, end)
    ensures IsReward(p, begin, end, reward)
  {
    var t := p.Track();
    forall j: nat | t.HeightOf(j) <= begin < t.HeightOf(j + 1) ensures j == k {
      SameCycle(t, j, k, begin);
    }
  }

  /** What the body of the paying loops adds for one cycle. */
  method PayCycle(cap: int, supply: nat, next: nat, cycle: nat, before: nat, span: nat) returns (reward: int)
    requires cycle > 0 && supply <= next
    ensures var c := Coinbase(next - supply, cycle);
            reward == CyclePays(cap, supply, next, Times(c, before), Times(c, span))
  {
    var coinbase := (next - supply) as real / cycle as real;
    CoinbaseIsQuotient(next - supply, cycle);
    TimesIsProduct(coinbase, span);
    TimesIsProduct(coinbase, before);
    reward := Round(coinbase * span as real);
    if cap < next {
      var lastReward := Round(coinbase * before as real);
      var maxReward := Max(0, cap - supply - lastReward);
      reward := Min(maxReward, reward);
    }
  }

  /** The part of a pass that both paying loops share: pay from `height` to the end of cycle `k` or of the range. */
  method Pass(p: Profile, supply: nat, next: nat, nextSupplyHeight: int, height: int, end: int, ghost k: nat)
    returns (nextHeight: int, paid: int)
    requires p.supplyCycle > 0 && supply == p.Supply(k) && next == p.Supply(k + 1)
    requires supply < p.Cap() && next >= supply + COIN && height < end
    requires nextSupplyHeight == p.Track().HeightOf(k + 1) && p.Track().HeightOf(k) <= height < nextSupplyHeight
    ensures height < nextHeight == Min(end, nextSupplyHeight)
    ensures nextHeight < end ==> nextHeight < p.Track().HeightOf(k + 2)
    ensures RewardFrom(p.Track(), k, height, end) ==
            paid + if nextHeight < end then RewardFrom(p.Track(), k + 1, nextHeight, end) else 0
  {
    nextHeight := Min(end, nextSupplyHeight);
    paid := PayCycle(p.Cap(), supply, next, p.supplyCycle, height - (nextSupplyHeight - p.supplyCycle), nextHeight - height);
  }

  /** A growth of less than a coin is not paid: five coins growing by a tenth earn nothing in their first cycle. */
  lemma SmallGrowthIsNotPaid(jointHeight: nat, cycle: int)
    requires cycle > 0
    ensures var p := Profile(5 * COIN, jointHeight, 0, -1, cycle, Fixed(10, 100, 0));
            p.Accepted() && p.Supply(1) == 5 * COIN + COIN / 2 && p.Track().HeightOf(0) < p.Track().HeightOf(1) &&
            RewardFrom(p.Track(), 0, p.Track().HeightOf(0), p.Track().HeightOf(1)) == 0
  {
    var p := Profile(5 * COIN, jointHeight, 0, -1, cycle, Fixed(10, 100, 0));
    assert p.Rate(0) == 0.1;
    assert p.Supply(1) == Grown(p.Supply(0), p.Rate(0)) == (5 * COIN + COIN / 2);
    NothingFromStop(p.Track(), 0, p.Track().HeightOf(0), p.Track().HeightOf(1));
  }

  // ---------------------------------------------------------------- the fixed schedule

  /** The number of the first supply cycle of decay period `i`. */
  function PeriodStart(per: nat, i: nat): nat {
    if i == 0 then 0 else PeriodStart(per, i - 1) + per
  }

  lemma {:induction false} PeriodStartIsProduct(per: nat, i: nat)
    ensures PeriodStart(per, i) == i * per
  {
    if i > 0 {
      PeriodStartIsProduct(per, i - 1);
      assert i * per == (i - 1) * per + per;
    }
  }

  /** The cycle number of supply cycle `j` of decay period `i`. */
  function CycleNumber(p: Profile, i: nat, j: nat): nat
    requires p.supplyCycle > 0
  {
    PeriodStart(p.PerDecay(), i) + j
  }

  /** Inside decay period `i` the rate is constant. */
  lemma FixedRate(p: Profile, i: nat, j: nat)
    requires p.supplyCycle > 0 && p.schedule.Fixed? && (j < p.PerDecay() || (p.PerDecay() == 0 && i == 0))
    ensures p.Rate(CycleNumber(p, i, j)) == Decayed(p.schedule.initPercent, p.schedule.decayPercent, i)
  {
    if p.PerDecay() > 0 {
      PeriodStartIsProduct(p.PerDecay(), i);
      DivOf(i, p.PerDecay(), j);
    }
  }

  lemma FixedStep(p: Profile, i: nat, j: nat)
    requires p.supplyCycle > 0 && p.schedule.Fixed? && (j < p.PerDecay() || (p.PerDecay() == 0 && i == 0))
    ensures p.Supply(CycleNumber(p, i, j) + 1) ==
            Grown(p.Supply(CycleNumber(p, i, j)), Decayed(p.schedule.initPercent, p.schedule.decayPercent, i))
  {
    FixedRate(p, i, j);
  }

  /** The nested loops that bring supply and rate up to a height: after `periods` whole decay periods and `cycles`
      supply cycles they have made exactly that many steps of the recurrence. */
  method FastForward(p: Profile, periods: nat, cycles: nat) returns (supply: nat, rate: real)
    requires p.Accepted() && p.schedule.Fixed?
    requires cycles < p.PerDecay() || (p.PerDecay() == 0 && periods == 0)
    ensures supply == p.Supply(CycleNumber(p, periods, cycles))
    ensures rate == Decayed(p.schedule.initPercent, p.schedule.decayPercent, periods)
  {
    supply, rate := p.amount, p.schedule.initPercent as real / 100.0;
    for i := 0 to periods
      invariant supply == p.Supply(CycleNumber(p, i, 0))
      invariant rate == Decayed(p.schedule.initPercent, p.schedule.decayPercent, i)
    {
      for j := 0 to p.PerDecay()
        invariant supply == p.Supply(CycleNumber(p, i, j))
      {
        FixedStep(p, i, j);
        supply := Grown(supply, rate);
      }
      assert CycleNumber(p, i, p.PerDecay()) == CycleNumber(p, i + 1, 0);
      rate := DecayedOnce(rate, p.schedule.decayPercent);
    }
    for j := 0 to cycles
      invariant supply == p.Supply(CycleNumber(p, periods, j))
    {
      FixedStep(p, periods, j);
      supply := Grown(supply, rate);
    }
  }

  /** Where a height lies: `periods` decay periods and `cycles` supply cycles after the mint height. */
  lemma FixedPosition(p: Profile, begin: int, periods: int, cycles: int)
    requires p.Accepted() && p.schedule.Fixed? && begin >= p.Mint()
    requires periods == if p.schedule.decayCycle <= 0 then 0 else (begin - p.Mint()) / p.schedule.decayCycle
    requires cycles == (begin - p.Mint() - periods * p.schedule.decayCycle) / p.supplyCycle
    ensures periods >= 0 && cycles >= 0 && (cycles < p.PerDecay() || (p.PerDecay() == 0 && periods == 0))
    ensures p.Mint() + periods * p.schedule.decayCycle + cycles * p.supplyCycle == p.Track().HeightOf(CycleNumber(p, periods, cycles))
    ensures p.Track().HeightOf(CycleNumber(p, periods, cycles)) <= begin < p.Track().HeightOf(CycleNumber(p, periods, cycles) + 1)
  {
    var x, sc, dc, per := begin - p.Mint(), p.supplyCycle, p.schedule.decayCycle, p.PerDecay();
    if dc > 0 {
      DivFacts(x, dc);
      DivFacts(x - periods * dc, sc);
      PeriodIsCycles(per, sc, cycles, x - periods * dc);
      assert periods * dc == periods * per * sc by {
        assert dc == per * sc;
        MulAssociates(periods, per, sc);
      }
    } else {
      DivFacts(x, sc);
      assert periods * dc == 0 && periods * per == 0;
    }
    assert (periods * per + cycles) * sc == periods * per * sc + cycles * sc;
    PeriodStartIsProduct(per, periods);
    HeightIsProduct(p.Track(), CycleNumber(p, periods, cycles));
  }

  lemma PeriodIsCycles(per: int, sc: int, cycles: int, rest: int)
    requires sc > 0 && cycles >= 0 && cycles * sc <= rest < per * sc
    ensures cycles < per
  {
    assert cycles >= per ==> (cycles - per) * sc >= 0;
  }

  /** The variables of the paying loop when it stands at the start of supply cycle `k`, which is cycle `cycles` of
      decay period `i`. */
  ghost predicate At(p: Profile, k: nat, i: nat, cycles: int, decayHeight: int, supply: int, rate: real)
    requires p.supplyCycle > 0 && p.schedule.Fixed?
  {
    cycles >= 0 && (cycles < p.PerDecay() || (p.PerDecay() == 0 && i == 0)) && k == CycleNumber(p, i, cycles) &&
    supply == p.Supply(k) && rate == Decayed(p.schedule.initPercent, p.schedule.decayPercent, i) &&
    decayHeight + cycles * p.supplyCycle == p.Track().HeightOf(k)
  }

  /** One pass of the loop moves on by one cycle, and into the next decay period when this one is full. */
  lemma AtNext(p: Profile, k: nat, i: nat, cycles: int, decayHeight: int, supply: nat, rate: real)
    requires p.supplyCycle > 0 && p.schedule.Fixed? && rate >= 0.0 && At(p, k, i, cycles, decayHeight, supply, rate)
    ensures p.Supply(k + 1) == Grown(supply, rate)
    ensures decayHeight + (cycles + 1) * p.supplyCycle == p.Track().HeightOf(k + 1) == p.Track().HeightOf(k) + p.supplyCycle
    ensures if p.PerDecay() > 0 && (cycles + 1) % p.PerDecay() == 0
            then At(p, k + 1, i + 1, 0, p.Track().HeightOf(k + 1), p.Supply(k + 1), DecayedOnce(rate, p.schedule.decayPercent))
            else At(p, k + 1, i, cycles + 1, decayHeight, p.Supply(k + 1), rate)
  {
    FixedStep(p, i, cycles);
    assert (cycles + 1) * p.supplyCycle == cycles * p.supplyCycle + p.supplyCycle;
    if p.PerDecay() > 0 {
      FullPeriod(cycles + 1, p.PerDecay());
      assert CycleNumber(p, i, p.PerDecay()) == CycleNumber(p, i + 1, 0);
    }
  }

  /** What is still due from a height in cycle `k`, when `reward` of `total` is counted. */
  ghost predicate Owes(p: Profile, k: nat, height: int, end: int, reward: int, total: int)
    requires p.supplyCycle > 0
  {
    if height < end then
      p.Track().HeightOf(k) <= height < p.Track().HeightOf(k + 1) && total == reward + RewardFrom(p.Track(), k, height, end)
    else total == reward
  }

  /** The end of a pass: the next cycle, in the next decay period when this one is full. */
  method Advance(p: Profile, cyclesIn: int, decayHeightIn: int, rateIn: real, nextHeight: int,
                 ghost k: nat, ghost iIn: nat, ghost supply: nat)
    returns (cycles: int, decayHeight: int, rate: real, ghost i: nat)
    requires p.supplyCycle > 0 && p.schedule.Fixed? && rateIn >= 0.0 && At(p, k, iIn, cyclesIn, decayHeightIn, supply, rateIn)
    ensures nextHeight == p.Track().HeightOf(k + 1) ==> At(p, k + 1, i, cycles, decayHeight, p.Supply(k + 1), rate)
    ensures rate >= 0.0
  {
    AtNext(p, k, iIn, cyclesIn, decayHeightIn, supply, rateIn);
    cycles, decayHeight, rate, i := cyclesIn + 1, decayHeightIn, rateIn, iIn;
    if p.PerDecay() > 0 && cycles % p.PerDecay() == 0 {
      decayHeight, cycles := nextHeight, 0;
      rate := DecayedOnce(rate, p.schedule.decayPercent);
      i := i + 1;
    }
  }

  /** The paying loop of `GetFixedDecayReward`, from the variables that stand at cycle `k`. */
  method PayFixed(p: Profile, begin: int, end: int, cyclesIn: int, decayHeightIn: int, supplyIn: nat, rateIn: real,
                  ghost iIn: nat, ghost kIn: nat) returns (reward: int)
    requires p.Accepted() && p.schedule.Fixed? && At(p, kIn, iIn, cyclesIn, decayHeightIn, supplyIn, rateIn)
    requires p.Track().HeightOf(kIn) <= begin < p.Track().HeightOf(kIn + 1)
    ensures reward == RewardFrom(p.Track(), kIn, begin, end)
  {
    var cycles, decayHeight, supply: nat, rate := cyclesIn, decayHeightIn, supplyIn, rateIn;
    ghost var i: nat, k: nat, t := iIn, kIn, p.Track();
    ghost var total := RewardFrom(t, k, begin, end);
    var height := begin;
    reward := 0;
    while height < end
      invariant height < end ==> At(p, k, i, cycles, decayHeight, supply, rate)
      invariant Owes(p, k, height, end, reward, total)
      decreases end - height
    {
      AtNext(p, k, i, cycles, decayHeight, supply, rate);
      if supply >= p.Cap() {
        NothingFromStop(t, k, height, end);
        return;
      }
      var next := Grown(supply, rate);
      if next < supply + COIN {
        NothingFromStop(t, k, height, end);
        return;
      }
      var nextSupplyHeight := decayHeight + (cycles + 1) * p.supplyCycle;
      var nextHeight, paid := Pass(p, supply, next, nextSupplyHeight, height, end, k);
      cycles, decayHeight, rate, i := Advance(p, cycles, decayHeight, rate, nextHeight, k, i, supply);
      reward := reward + paid;
      height, supply, k := nextHeight, next, k + 1;
    }
  }

  /** `GetFixedDecayReward`: the reward for the heights from `begin` up to and without `end`. */
  method GetFixedDecayReward(p: Profile, begin: int, end: int) returns (reward: int)
    requires p.Accepted() && p.schedule.Fixed?
    ensures p.mintHeight < 0 || begin < p.Mint() ==> reward == -1
    ensures p.mintHeight >= 0 && begin >= p.Mint() ==> IsReward(p, begin, end, reward)
  {
    if p.mintHeight < 0 || begin < p.Mint() {
      return -1;
    }
    var periods := if p.schedule.decayCycle <= 0 then 0 else (begin - p.Mint()) / p.schedule.decayCycle;
    var decayHeight := p.Mint() + periods * p.schedule.decayCycle;
    var cycles := (begin - decayHeight) / p.supplyCycle;
    FixedPosition(p, begin, periods, cycles);
    var supply, rate := FastForward(p, periods, cycles);
    ghost var k := CycleNumber(p, periods, cycles);
    reward := PayFixed(p, begin, end, cycles, decayHeight, supply, rate, periods, k);
    OnlyOneCycle(p, k, begin, end, reward);
  }

  // ---------------------------------------------------------------- the specific schedule

  lemma {:induction false} PercentInSegment(segments: seq<Segment>, n: nat, offset: int)
    requires n <= |segments| && forall i, j :: 0 <= i < j < |segments| ==> segments[i].key < segments[j].key
    requires n > 0 ==> segments[n - 1].key <= offset
    requires n < |segments| ==> offset < segments[n].key
    ensures PercentAt(segments, offset) == if n < |segments| then segments[n].percent else 0
    decreases n
  {
    if n > 0 {
      assert segments[0].key <= segments[n - 1].key;
      PercentInSegment(segments[1..], n - 1, offset);
    }
  }

  /** The cycles of the first `n` segments: cycle `q` is the first one after them. */
  predicate EndsAt(p: Profile, n: nat, q: nat)
    requires p.schedule.Specific? && n <= |p.schedule.segments|
  {
    q * p.supplyCycle == if n == 0 then 0 else p.schedule.segments[n - 1].key
  }

  /** In every cycle of segment `n` the rate is the segment's. */
  lemma SegmentRate(p: Profile, n: nat, q: nat, count: nat, j: nat)
    requires p.Accepted() && p.schedule.Specific? && n < |p.schedule.segments|
    requires EndsAt(p, n, q) && EndsAt(p, n + 1, q + count) && j < count
    ensures p.Rate(q + j) == p.schedule.segments[n].percent as real / 100.0
  {
    var sc := p.supplyCycle;
    assert (q + j) * sc >= q * sc;
    assert (q + j) * sc < (q + count) * sc by {
      MulAtLeast(count - j, sc);
      assert (q + count) * sc == (q + j) * sc + (count - j) * sc;
    }
    PercentInSegment(p.schedule.segments, n, (q + j) * sc);
  }

  lemma GrownByNothing(supply: nat)
    ensures Grown(supply, 0.0) == supply
  {
    assert supply as real * (1.0 + 0.0) == supply as real;
  }

  /** After the last segment the supply stays as it is. */
  lemma NothingBeyond(p: Profile, q: nat, k: nat)
    requires p.Accepted() && p.schedule.Specific? && EndsAt(p, |p.schedule.segments|, q) && k >= q
    ensures p.Supply(k + 1) == p.Supply(k)
  {
    MulMono(q, k, p.supplyCycle, p.supplyCycle);
    PercentInSegment(p.schedule.segments, |p.schedule.segments|, k * p.supplyCycle);
    GrownByNothing(p.Supply(k));
  }

  lemma SupplyStep(p: Profile, k: nat)
    requires p.supplyCycle > 0
    ensures p.Rate(k) >= 0.0 && p.Supply(k + 1) == Grown(p.Supply(k), p.Rate(k))
  {
  }

  /** `count` growths inside one segment. */
  method GrowBy(p: Profile, start: nat, rate: real, count: nat, ghost q: nat) returns (supply: nat)
    requires p.supplyCycle > 0 && rate >= 0.0 && start == p.Supply(q)
    requires forall k :: q <= k < q + count ==> p.Rate(k) == rate
    ensures supply == p.Supply(q + count)
  {
    supply := start;
    for j := 0 to count
      invariant supply == p.Supply(q + j)
    {
      SupplyStep(p, q + j);
      supply := Grown(supply, rate);
    }
  }

  lemma HeightAfter(t: Track, q: nat, j: nat)
    ensures t.HeightOf(q + j) == t.HeightOf(q) + j * t.cycle
  {
    HeightIsProduct(t, q);
    HeightIsProduct(t, q + j);
    assert (q + j) * t.cycle == q * t.cycle + j * t.cycle;
  }

  /** `paid` is what is due from `heightIn` in cycle `kIn` on: up to cycle `kEnd`, unless nothing more is due before. */
  ghost predicate PaysUpTo(p: Profile, kIn: nat, heightIn: int, end: int, kEnd: nat, height: int, supply: nat, paid: int,
                           stopped: bool)
    requires p.supplyCycle > 0 && p.Track().HeightOf(kIn) <= heightIn < p.Track().HeightOf(kIn + 1)
  {
    (!stopped && height < end ==> height == p.Track().HeightOf(kEnd) && supply == p.Supply(kEnd)) &&
    RewardFrom(p.Track(), kIn, heightIn, end) ==
    paid + if stopped || height >= end then 0 else RewardFrom(p.Track(), kEnd, height, end)
  }

  /** The paying loop of `GetSpecificDecayReward` over one segment of `count` cycles, which begins with cycle `q` at
      height `segmentHeight`. */
  method PaySegment(p: Profile, segmentHeight: int, heightIn: int, end: int, supplyIn: nat, rate: real, curIn: nat, count: nat,
                    ghost q: nat, ghost kIn: nat, ghost kEnd: nat)
    returns (height: int, supply: nat, paid: int, stopped: bool)
    requires p.supplyCycle > 0 && rate >= 0.0 && curIn < count && segmentHeight == p.Track().HeightOf(q) && heightIn < end
    requires kIn == q + curIn && kEnd == q + count
    requires forall k :: q <= k < q + count ==> p.Rate(k) == rate
    requires supplyIn == p.Supply(kIn) && p.Track().HeightOf(kIn) <= heightIn < p.Track().HeightOf(kIn + 1)
    ensures PaysUpTo(p, kIn, heightIn, end, kEnd, height, supply, paid, stopped)
  {
    ghost var t, k: nat := p.Track(), kIn;
    ghost var total := RewardFrom(t, k, heightIn, end);
    var cur: nat := curIn;
    height, supply, paid, stopped := heightIn, supplyIn, 0, false;
    while height < end && cur < count
      invariant cur <= count && k == q + cur
      invariant height < end ==> supply == p.Supply(k) && (cur == count ==> height == t.HeightOf(k))
      invariant Owes(p, k, height, end, paid, total)
      decreases end - height
    {
      SupplyStep(p, k);
      var next := Grown(supply, rate);
      if supply >= p.Cap() || next < supply + COIN {
        NothingFromStop(t, k, height, end);
        stopped := true;
        return;
      }
      HeightAfter(t, q, cur + 1);
      var nextSupplyHeight := segmentHeight + (cur + 1) * p.supplyCycle;
      var nextHeight, more := Pass(p, supply, next, nextSupplyHeight, height, end, k);
      paid := paid + more;
      height, supply := nextHeight, next;
      cur, k := cur + 1, k + 1;
    }
  }

  function LastKey(p: Profile, n: nat): int
    requires p.schedule.Specific? && n <= |p.schedule.segments|
  {
    if n == 0 then 0 else p.schedule.segments[n - 1].key
  }

  /** The number of supply cycles in segment `n`. */
  lemma SegmentCycles(p: Profile, n: nat, q: nat, count: int)
    requires p.Accepted() && p.schedule.Specific? && n < |p.schedule.segments| && EndsAt(p, n, q)
    requires count == (p.schedule.segments[n].key - LastKey(p, n)) / p.supplyCycle
    ensures count > 0 && EndsAt(p, n + 1, q + count)
    ensures p.Track().HeightOf(q) == p.Mint() + LastKey(p, n)
    ensures p.Track().HeightOf(q + count) == p.Mint() + p.schedule.segments[n].key
    ensures forall k :: q <= k < q + count ==> p.Rate(k) == p.schedule.segments[n].percent as real / 100.0
  {
    var sc, key := p.supplyCycle, p.schedule.segments[n].key;
    var a := key / sc;
    assert a * sc == key && key > LastKey(p, n);
    if a <= q {
      MulMono(a, q, sc, sc);
      assert false;
    }
    assert (a - q) * sc == a * sc - q * sc;
    DivOf(a - q, sc, 0);
    assert count == a - q;
    HeightIsProduct(p.Track(), q);
    HeightIsProduct(p.Track(), a);
    forall k | q <= k < q + count ensures p.Rate(k) == p.schedule.segments[n].percent as real / 100.0 {
      SegmentRate(p, n, q, count, k - q);
    }
  }

  /** The cycle of a height inside a segment. */
  lemma CycleInSegment(t: Track, q: nat, count: nat, height: int, cur: int) returns (k: nat)
    requires t.cycle > 0 && t.HeightOf(q) <= height < t.HeightOf(q + count)
    requires cur == (height - t.HeightOf(q)) / t.cycle
    ensures 0 <= cur < count && k == q + cur && t.HeightOf(k) <= height < t.HeightOf(k + 1)
  {
    DivFacts(height - t.HeightOf(q), t.cycle);
    HeightAfter(t, q, cur);
    HeightAfter(t, q, count);
    PeriodIsCycles(count, t.cycle, cur, height - t.HeightOf(q));
    k := q + cur;
  }

  /** The cycle that holds a height is unique. */
  lemma SameCycle(t: Track, j: nat, k: nat, height: int)
    requires t.cycle > 0 && t.HeightOf(j) <= height < t.HeightOf(j + 1) && t.HeightOf(k) <= height < t.HeightOf(k + 1)
    ensures j == k
  {
    if j < k {
      CyclesAreOrdered(t, j + 1, k);
    } else if k < j {
      CyclesAreOrdered(t, k + 1, j);
    }
  }

  /** Where `GetSpecificDecayReward` stands before segment `n`: still looking for `begin`, or paying from the start of
      the segment, or done. */
  ghost predicate Standing(p: Profile, q: nat, k0: nat, begin: int, end: int, height: int, supply: int, reward: int)
    requires p.supplyCycle > 0 && p.Track().HeightOf(k0) <= begin < p.Track().HeightOf(k0 + 1)
  {
    var t := p.Track();
    var total := RewardFrom(t, k0, begin, end);
    if height >= end then total == reward
    else supply == p.Supply(q) &&
         ((height == begin && reward == 0 && q <= k0) ||
          (height == t.HeightOf(q) && total == reward + RewardFrom(t, q, height, end)))
  }

  /** A segment that ends before the height is passed over. */
  method PassSegment(p: Profile, rate: real, count: nat, begin: int, end: int, height: int, supplyIn: nat, reward: int,
                     ghost q: nat, ghost k0: nat, ghost kEnd: nat)
    returns (supply: nat)
    requires p.supplyCycle > 0 && rate >= 0.0 && height < end && kEnd == q + count
    requires p.Track().HeightOf(k0) <= begin < p.Track().HeightOf(k0 + 1) && height + 1 > p.Track().HeightOf(kEnd)
    requires forall k :: q <= k < q + count ==> p.Rate(k) == rate
    requires Standing(p, q, k0, begin, end, height, supplyIn, reward) && count > 0
    ensures Standing(p, kEnd, k0, begin, end, height, supply, reward)
  {
    supply := GrowBy(p, supplyIn, rate, count, q);
    CyclesAreOrdered(p.Track(), q, kEnd);
    if k0 < kEnd {
      CyclesAreOrdered(p.Track(), k0 + 1, kEnd);
    }
  }

  /** While the height is not found it lies in or above the segment that comes next. */
  lemma StandingAbove(p: Profile, q: nat, k0: nat, begin: int, end: int, height: int, supply: int, reward: int)
    requires p.supplyCycle > 0 && p.Track().HeightOf(k0) <= begin < p.Track().HeightOf(k0 + 1) && height < end
    requires Standing(p, q, k0, begin, end, height, supply, reward)
    ensures supply == p.Supply(q) && p.Track().HeightOf(q) <= height
  {
    if q < k0 {
      CyclesAreOrdered(p.Track(), q, k0);
    }
  }

  /** The cycle of the height in the segment that holds it, and the supply there. */
  method EnterSegment(p: Profile, last: int, rate: real, count: nat, begin: int, end: int,
                      height: int, supplyIn: nat, reward: int, ghost q: nat, ghost k0: nat)
    returns (cur: nat, supply: nat, ghost k: nat)
    requires p.supplyCycle > 0 && rate >= 0.0 && height < end
    requires p.Track().HeightOf(k0) <= begin < p.Track().HeightOf(k0 + 1)
    requires p.Track().HeightOf(q) == p.Mint() + last && height < p.Track().HeightOf(q + count)
    requires forall k :: q <= k < q + count ==> p.Rate(k) == rate
    requires Standing(p, q, k0, begin, end, height, supplyIn, reward)
    ensures cur < count && k == q + cur && supply == p.Supply(k) && p.Track().HeightOf(k) <= height < p.Track().HeightOf(k + 1)
    ensures RewardFrom(p.Track(), k0, begin, end) == reward + RewardFrom(p.Track(), k, height, end)
  {
    var n := (height - p.Mint() - last) / p.supplyCycle;
    StandingAbove(p, q, k0, begin, end, height, supplyIn, reward);
    k := CycleInSegment(p.Track(), q, count, height, n);
    cur := n;
    supply := GrowBy(p, supplyIn, rate, cur, q);
    StandingPays(p, q, k, k0, begin, end, height, supplyIn, reward);
  }

  /** A segment that holds the height is paid from there. */
  method PayFromSegment(p: Profile, last: int, rate: real, count: nat, begin: int, end: int,
                        heightIn: int, supplyIn: nat, rewardIn: int, ghost q: nat, ghost k0: nat, ghost kEnd: nat)
    returns (height: int, supply: nat, reward: int, stopped: bool)
    requires p.supplyCycle > 0 && rate >= 0.0 && heightIn < end && kEnd == q + count
    requires p.Track().HeightOf(k0) <= begin < p.Track().HeightOf(k0 + 1)
    requires p.Track().HeightOf(q) == p.Mint() + last && heightIn < p.Track().HeightOf(kEnd)
    requires forall k :: q <= k < q + count ==> p.Rate(k) == rate
    requires Standing(p, q, k0, begin, end, heightIn, supplyIn, rewardIn)
    ensures stopped ==> reward == RewardFrom(p.Track(), k0, begin, end)
    ensures !stopped ==> Standing(p, kEnd, k0, begin, end, height, supply, reward)
  {
    var cur, start;
    ghost var k;
    cur, start, k := EnterSegment(p, last, rate, count, begin, end, heightIn, supplyIn, rewardIn, q, k0);
    var paid;
    height, supply, paid, stopped := PaySegment(p, p.Mint() + last, heightIn, end, start, rate, cur, count, q, k, kEnd);
    reward := rewardIn + paid;
    StandingAfter(p, k, k0, begin, end, heightIn, rewardIn, kEnd, height, supply, paid, stopped);
  }

  /** One segment of `GetSpecificDecayReward`, with `count` cycles from `q` on: passed over when it ends before
      `begin`, else paid. */
  method DoSegment(p: Profile, last: int, key: int, rate: real, count: nat, begin: int, end: int,
                   heightIn: int, supplyIn: nat, rewardIn: int, ghost q: nat, ghost k0: nat, ghost kEnd: nat)
    returns (height: int, supply: nat, reward: int, stopped: bool)
    requires p.supplyCycle > 0 && rate >= 0.0 && heightIn < end && count > 0 && kEnd == q + count
    requires p.Track().HeightOf(k0) <= begin < p.Track().HeightOf(k0 + 1)
    requires p.Track().HeightOf(q) == p.Mint() + last && p.Track().HeightOf(kEnd) == p.Mint() + key
    requires forall k :: q <= k < q + count ==> p.Rate(k) == rate
    requires Standing(p, q, k0, begin, end, heightIn, supplyIn, rewardIn)
    ensures stopped ==> reward == RewardFrom(p.Track(), k0, begin, end)
    ensures !stopped ==> Standing(p, kEnd, k0, begin, end, height, supply, reward)
  {
    if heightIn - p.Mint() + 1 > key {
      height, reward, stopped := heightIn, rewardIn, false;
      supply := PassSegment(p, rate, count, begin, end, heightIn, supplyIn, rewardIn, q, k0, kEnd);
    } else {
      height, supply, reward, stopped :=
        PayFromSegment(p, last, rate, count, begin, end, heightIn, supplyIn, rewardIn, q, k0, kEnd);
    }
  }

  lemma StandingAfter(p: Profile, k: nat, k0: nat, begin: int, end: int, heightIn: int, rewardIn: int, kEnd: nat, height: int,
                      supply: nat, paid: int, stopped: bool)
    requires p.supplyCycle > 0 && p.Track().HeightOf(k0) <= begin < p.Track().HeightOf(k0 + 1)
    requires p.Track().HeightOf(k) <= heightIn < p.Track().HeightOf(k + 1)
    requires RewardFrom(p.Track(), k0, begin, end) == rewardIn + RewardFrom(p.Track(), k, heightIn, end)
    requires PaysUpTo(p, k, heightIn, end, kEnd, height, supply, paid, stopped)
    ensures stopped ==> rewardIn + paid == RewardFrom(p.Track(), k0, begin, end)
    ensures !stopped ==> Standing(p, kEnd, k0, begin, end, height, supply, rewardIn + paid)
  {
  }

  /** Once the cycle of the height is found, what is still due is due from there. */
  lemma StandingPays(p: Profile, q: nat, k: nat, k0: nat, begin: int, end: int, height: int, supply: int, reward: int)
    requires p.supplyCycle > 0 && height < end && p.Track().HeightOf(k0) <= begin < p.Track().HeightOf(k0 + 1)
    requires p.Track().HeightOf(k) <= height < p.Track().HeightOf(k + 1)
    requires Standing(p, q, k0, begin, end, height, supply, reward)
    ensures RewardFrom(p.Track(), k0, begin, end) == reward + RewardFrom(p.Track(), k, height, end)
  {
    if height == begin && reward == 0 && q <= k0 {
      SameCycle(p.Track(), k, k0, begin);
    } else {
      SameCycle(p.Track(), k, q, height);
    }
  }

  /** The loop of `GetSpecificDecayReward` over the segments. */
  method PaySegments(p: Profile, begin: int, end: int, ghost k0: nat) returns (reward: int)
    requires p.Accepted() && p.schedule.Specific? && p.Track().HeightOf(k0) <= begin < p.Track().HeightOf(k0 + 1)
    ensures reward == RewardFrom(p.Track(), k0, begin, end)
  {
    ghost var q: nat := 0;
    var height, supply: nat := begin, p.amount;
    reward := 0;
    for n := 0 to |p.schedule.segments|
      invariant EndsAt(p, n, q) && Standing(p, q, k0, begin, end, height, supply, reward)
    {
      if height >= end {
        return;
      }
      var segment := p.schedule.segments[n];
      var rate := segment.percent as real / 100.0;
      var count := (segment.key - LastKey(p, n)) / p.supplyCycle;
      SegmentCycles(p, n, q, count);
      ghost var kEnd: nat := q + count;
      var stopped;
      height, supply, reward, stopped :=
        DoSegment(p, LastKey(p, n), segment.key, rate, count, begin, end, height, supply, reward, q, k0, kEnd);
      if stopped {
        return;
      }
      q := kEnd;
    }
    AfterLastSegment(p, q, k0, begin, end, height, supply, reward);
  }

  /** `GetSpecificDecayReward`: the reward for the heights from `begin` up to and without `end`. */
  method GetSpecificDecayReward(p: Profile, begin: int, end: int) returns (reward: int)
    requires p.Accepted() && p.schedule.Specific?
    ensures p.mintHeight < 0 || begin < p.Mint() ==> reward == -1
    ensures p.mintHeight >= 0 && begin >= p.Mint() ==> IsReward(p, begin, end, reward)
  {
    if p.mintHeight < 0 || begin < p.Mint() {
      return -1;
    }
    ghost var k0: nat := (begin - p.Mint()) / p.supplyCycle;
    DivFacts(begin - p.Mint(), p.supplyCycle);
    HeightAfter(p.Track(), 0, k0);
    reward := PaySegments(p, begin, end, k0);
    OnlyOneCycle(p, k0, begin, end, reward);
  }

  /** After the last segment nothing more is due. */
  lemma AfterLastSegment(p: Profile, q: nat, k0: nat, begin: int, end: int, height: int, supply: int, reward: int)
    requires p.Accepted() && p.schedule.Specific? && EndsAt(p, |p.schedule.segments|, q)
    requires p.Track().HeightOf(k0) <= begin < p.Track().HeightOf(k0 + 1)
    requires Standing(p, q, k0, begin, end, height, supply, reward)
    ensures reward == RewardFrom(p.Track(), k0, begin, end)
  {
    if height < end {
      if height == begin && reward == 0 && q <= k0 {
        NothingBeyond(p, q, k0);
        NothingFromStop(p.Track(), k0, begin, end);
      } else {
        NothingBeyond(p, q, q);
        NothingFromStop(p.Track(), q, height, end);
      }
    }
  }
}
