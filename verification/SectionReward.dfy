/** `GetSectionReward`, and what the sections of a chain pay in total. A section counts the blocks of its reward cycle up to
    the maximum reward height; supply cycles and reward cycles need not be aligned. */
module SectionReward {
  import opened Common
  import opened Arithmetic
  import opened SupplyTrack
  import opened DeFiSupply
  import opened DeFiMaxHeight
  import RewardPaging

  ghost function MaxHeight(p: Profile): int
    requires p.supplyCycle > 0
  {
    MaxRewardHeight(p, MaxCycle(p, 0))
  }

  /** The supply cycle that holds a height. */
  function CycleAt(p: Profile, height: int): nat
    requires p.supplyCycle > 0 && height >= p.Mint()
  {
    DivFacts(height - p.Mint(), p.supplyCycle);
    (height - p.Mint()) / p.supplyCycle
  }

  lemma CycleHolds(p: Profile, height: int)
    requires p.supplyCycle > 0 && height >= p.Mint()
    ensures p.Track().HeightOf(CycleAt(p, height)) <= height < p.Track().HeightOf(CycleAt(p, height) + 1)
  {
    DivFacts(height - p.Mint(), p.supplyCycle);
    HeightIsProduct(p.Track(), CycleAt(p, height));
  }

  /** The reward of the blocks from `begin` up to and without `end`, as far as the maximum reward height. */
  ghost function Counted(p: Profile, begin: int, end: int): int
    requires p.supplyCycle > 0 && begin >= p.Mint()
  {
    CycleHolds(p, begin);
    if begin > MaxHeight(p) then 0 else RewardFrom(p.Track(), CycleAt(p, begin), begin, Min(end, MaxHeight(p) + 1))
  }

  /** The first block that a section counts. */
  function BeginOf(p: Profile, rewardCycle: int, height: int): int {
    Max(p.Mint(), RewardPaging.Profile(p.mintHeight, p.jointHeight, rewardCycle).PrevRewardHeight(height) + 1)
  }

  /** The reward of the section block at a height: -1 where nothing is ever minted. */
  ghost function RewardAt(p: Profile, rewardCycle: int, height: int): int
    requires p.supplyCycle > 0
  {
    if p.mintHeight < 0 || MaxHeight(p) < 0 then -1 else Counted(p, BeginOf(p, rewardCycle, height), height + 1)
  }

  /** `GetSectionReward` of the section block at a height. */
  method GetSectionReward(p: Profile, rewardCycle: int, height: int) returns (reward: int)
    requires p.Accepted() && rewardCycle > 0
    ensures reward == RewardAt(p, rewardCycle, height)
  {
    var max := GetMaxRewardHeight(p);
    if max < 0 || p.mintHeight < 0 {
      return -1;
    }
    var begin := RewardPaging.Profile(p.mintHeight, p.jointHeight, rewardCycle).PrevRewardHeight(height) + 1;
    if begin < p.Mint() {
      begin := p.Mint();
    }
    if begin > max {
      return 0;
    }
    var end := height + 1;
    if end > max + 1 {
      end := max + 1;
    }
    reward := GetDecayReward(p, begin, end);
  }

  /** The reward of a range of heights by the schedule of the fork. */
  method GetDecayReward(p: Profile, begin: int, end: int) returns (reward: int)
    requires p.Accepted() && p.mintHeight >= 0 && begin >= p.Mint()
    ensures p.Track().HeightOf(CycleAt(p, begin)) <= begin < p.Track().HeightOf(CycleAt(p, begin) + 1)
    ensures reward == RewardFrom(p.Track(), CycleAt(p, begin), begin, end)
  {
    CycleHolds(p, begin);
    if p.schedule.Fixed? {
      reward := GetFixedDecayReward(p, begin, end);
    } else {
      reward := GetSpecificDecayReward(p, begin, end);
    }
  }

  // ---------------------------------------------------------------- the sections of a chain

  /** The first block of reward cycle `j`. */
  function SectionStart(p: Profile, rewardCycle: int, j: nat): int {
    if j == 0 then p.Mint() else SectionStart(p, rewardCycle, j - 1) + rewardCycle
  }

  lemma {:induction false} SectionStartIs(p: Profile, rewardCycle: int, j: nat)
    requires rewardCycle > 0
    ensures SectionStart(p, rewardCycle, j) == p.Mint() + j * rewardCycle >= p.Mint()
  {
    if j > 0 {
      SectionStartIs(p, rewardCycle, j - 1);
      assert j * rewardCycle == (j - 1) * rewardCycle + rewardCycle;
    }
  }

  /** The section block at the end of a reward cycle counts exactly the blocks of that cycle. */
  lemma SectionCountsItsCycle(p: Profile, rewardCycle: int, j: nat)
    requires rewardCycle > 0 && p.mintHeight >= 0
    ensures BeginOf(p, rewardCycle, SectionStart(p, rewardCycle, j + 1) - 1) == SectionStart(p, rewardCycle, j)
  {
    SectionStartIs(p, rewardCycle, j);
    DivOf(j, rewardCycle, rewardCycle - 1);
  }

  /** What the first `n` sections pay: each the reward at its height, and nothing when that is negative. */
  ghost function TotalPaid(p: Profile, rewardCycle: int, n: nat): int
    requires p.supplyCycle > 0
  {
    if n == 0 then 0
    else TotalPaid(p, rewardCycle, n - 1) + Max(0, RewardAt(p, rewardCycle, SectionStart(p, rewardCycle, n) - 1))
  }

  lemma CountedIsNonNegative(p: Profile, begin: int, end: int)
    requires p.supplyCycle > 0 && begin >= p.Mint()
    ensures Counted(p, begin, end) >= 0
    ensures end <= begin ==> Counted(p, begin, end) == 0
  {
    if begin <= MaxHeight(p) {
      CycleHolds(p, begin);
      RewardIsNonNegative(p.Track(), CycleAt(p, begin), begin, Min(end, MaxHeight(p) + 1));
    }
  }

  /** Section `n` pays the reward of the blocks of its reward cycle. */
  lemma RewardAtSection(p: Profile, rewardCycle: int, n: nat)
    requires p.supplyCycle > 0 && rewardCycle > 0 && p.mintHeight >= 0 && n > 0
    ensures SectionStart(p, rewardCycle, n - 1) >= p.Mint()
    ensures Max(0, RewardAt(p, rewardCycle, SectionStart(p, rewardCycle, n) - 1)) ==
            Counted(p, SectionStart(p, rewardCycle, n - 1), SectionStart(p, rewardCycle, n))
  {
    SectionStartIs(p, rewardCycle, n - 1);
    SectionCountsItsCycle(p, rewardCycle, n - 1);
    CountedIsNonNegative(p, SectionStart(p, rewardCycle, n - 1), SectionStart(p, rewardCycle, n));
  }

  /** The supply at a height, growing evenly over its supply cycle and clipped at the cap. */
  ghost function AccruedAt(p: Profile, height: int): real
    requires p.supplyCycle > 0 && height >= p.Mint()
  {
    CycleHolds(p, height);
    Accrued(p.Track(), CycleAt(p, height), height)
  }

  lemma AccruedAtEnd(p: Profile, k: nat, height: int)
    requires p.supplyCycle > 0 && p.Track().HeightOf(k) <= height <= p.Track().HeightOf(k + 1) && height >= p.Mint()
    ensures AccruedAt(p, height) == Accrued(p.Track(), k, height) && k <= CycleAt(p, height) <= k + 1
  {
    CycleHolds(p, height);
    if height == p.Track().HeightOf(k + 1) {
      BoundaryAccrues(p.Track(), k);
      SameCycle(p.Track(), k + 1, CycleAt(p, height), height);
    } else {
      SameCycle(p.Track(), k, CycleAt(p, height), height);
    }
  }

  // ---------------------------------------------------------------- before the maximum height

  lemma {:induction false} GrowsBefore(p: Profile, k: nat, j: nat)
    requires p.supplyCycle > 0 && k <= j < MaxCycle(p, k)
    ensures !p.Track().Stuck(j)
    decreases j - k
  {
    if k < j {
      GrowsBefore(p, k + 1, j);
    }
  }

  /** Up to the maximum reward height paying never stops. */
  lemma GrowsUpToMax(p: Profile, height: int, j: nat)
    requires p.Accepted() && p.Mint() <= height <= MaxHeight(p) && j <= CycleAt(p, height)
    ensures !p.Track().Stuck(j)
  {
    var c, t := MaxCycle(p, 0), p.Track();
    MaxRewardHeightIsInStopCycle(p);
    MaxHeightIs(p);
    CycleHolds(p, height);
    var k := CycleAt(p, height);
    LaterCycle(t, k, c, height);
    if j < c {
      GrowsBefore(p, 0, j);
    }
  }

  /** One section pays what accrues over its blocks, off by at most half a unit for each supply cycle touched. */
  lemma SectionIsNear(p: Profile, begin: int, end: int)
    requires p.Accepted() && p.Mint() <= begin <= MaxHeight(p) && begin < end
    ensures var upTo := Min(end, MaxHeight(p) + 1);
            Near(Counted(p, begin, end) as real, AccruedAt(p, upTo) - AccruedAt(p, begin),
                 (CycleAt(p, upTo) - CycleAt(p, begin) + 1) as real / 2.0)
  {
    var t, upTo := p.Track(), Min(end, MaxHeight(p) + 1);
    var k, last := CycleAt(p, begin), CycleAt(p, upTo - 1);
    CycleHolds(p, begin);
    CycleHolds(p, upTo - 1);
    LaterCycle(t, k, last, upTo - 1);
    forall j | k <= j <= last ensures !t.Stuck(j) {
      GrowsUpToMax(p, upTo - 1, j);
    }
    RewardIsNearAccrual(t, k, begin, last, upTo);
    ReachesEnd(t, k, begin, last, upTo);
    AccruedAtEnd(p, last, upTo);
  }

  // ---------------------------------------------------------------- the total

  /** The height up to which the first `n` sections count. */
  ghost function CountedTo(p: Profile, rewardCycle: int, n: nat): int
    requires p.supplyCycle > 0
  {
    Min(SectionStart(p, rewardCycle, n), Max(p.Mint(), MaxHeight(p) + 1))
  }

  /** A total is the supply that accrues from the first block up to a height, off by at most half a unit for each piece. */
  ghost predicate IsNearAccrual(p: Profile, total: int, upTo: int, pieces: int)
    requires p.supplyCycle > 0 && upTo >= p.Mint()
  {
    Near(total as real, AccruedAt(p, upTo) - AccruedAt(p, p.Mint()), pieces as real / 2.0)
  }

  lemma OneMoreSection(p: Profile, total: int, begin: int, end: int, upTo: int, pieces: int, more: int)
    requires p.Accepted() && p.Mint() <= begin <= MaxHeight(p) && begin < end && IsNearAccrual(p, total, begin, pieces)
    requires upTo == Min(end, MaxHeight(p) + 1) && more == pieces + CycleAt(p, upTo) - CycleAt(p, begin) + 1
    ensures IsNearAccrual(p, total + Counted(p, begin, end), upTo, more)
  {
    SectionIsNear(p, begin, end);
  }

  lemma MorePieces(p: Profile, total: int, upTo: int, pieces: int, more: int)
    requires p.supplyCycle > 0 && upTo >= p.Mint() && IsNearAccrual(p, total, upTo, pieces) && pieces <= more
    ensures IsNearAccrual(p, total, upTo, more)
  {
  }

  /** Each section but those after the maximum reward height moves on from where the one before it stopped. */
  lemma CountedToSteps(p: Profile, rewardCycle: int, n: nat)
    requires p.supplyCycle > 0 && rewardCycle > 0 && n > 0
    ensures p.Mint() <= SectionStart(p, rewardCycle, n - 1) && p.Mint() <= CountedTo(p, rewardCycle, n)
    ensures if SectionStart(p, rewardCycle, n - 1) <= MaxHeight(p)
            then CountedTo(p, rewardCycle, n - 1) == SectionStart(p, rewardCycle, n - 1) &&
                 CountedTo(p, rewardCycle, n) == Min(SectionStart(p, rewardCycle, n), MaxHeight(p) + 1)
            else CountedTo(p, rewardCycle, n) == CountedTo(p, rewardCycle, n - 1)
  {
    SectionStartIs(p, rewardCycle, n - 1);
  }

  /** The first `n` sections of a chain pay in total the supply that accrues up to the maximum reward height, off by at
      most half a unit for each section and for each supply cycle. */
  lemma {:induction false} TotalIsNearAccrual(p: Profile, rewardCycle: int, n: nat)
    requires p.Accepted() && rewardCycle > 0
    ensures CountedTo(p, rewardCycle, n) >= p.Mint()
    ensures var upTo := CountedTo(p, rewardCycle, n);
            if p.mintHeight < 0 then TotalPaid(p, rewardCycle, n) == 0
            else IsNearAccrual(p, TotalPaid(p, rewardCycle, n), upTo, n + CycleAt(p, upTo))
  {
    if n > 0 {
      TotalIsNearAccrual(p, rewardCycle, n - 1);
      CountedToSteps(p, rewardCycle, n);
      if p.mintHeight >= 0 {
        NextTotal(p, rewardCycle, n);
      }
    }
  }

  lemma NextTotal(p: Profile, rewardCycle: int, n: nat)
    requires p.Accepted() && rewardCycle > 0 && n > 0 && p.mintHeight >= 0
    requires CountedTo(p, rewardCycle, n - 1) >= p.Mint() && CountedTo(p, rewardCycle, n) >= p.Mint()
    requires var upTo := CountedTo(p, rewardCycle, n - 1);
             IsNearAccrual(p, TotalPaid(p, rewardCycle, n - 1), upTo, n - 1 + CycleAt(p, upTo))
    ensures var upTo := CountedTo(p, rewardCycle, n);
            IsNearAccrual(p, TotalPaid(p, rewardCycle, n), upTo, n + CycleAt(p, upTo))
  {
    CountedToSteps(p, rewardCycle, n);
    RewardAtSection(p, rewardCycle, n);
    var begin, end, upTo := SectionStart(p, rewardCycle, n - 1), SectionStart(p, rewardCycle, n), CountedTo(p, rewardCycle, n);
    if begin <= MaxHeight(p) {
      OneMoreSection(p, TotalPaid(p, rewardCycle, n - 1), begin, end, upTo, n - 1 + CycleAt(p, begin), n + CycleAt(p, upTo));
    } else {
      MorePieces(p, TotalPaid(p, rewardCycle, n), upTo, n - 1 + CycleAt(p, upTo), n + CycleAt(p, upTo));
    }
  }

  lemma MaxHeightIsInCycle(p: Profile)
    requires p.Accepted() && p.amount <= p.Cap()
    ensures p.Mint() <= MaxHeight(p) + 1 && p.Supply(MaxCycle(p, 0)) <= p.Cap()
    ensures p.Track().HeightOf(MaxCycle(p, 0)) <= MaxHeight(p) + 1 <= p.Track().HeightOf(MaxCycle(p, 0) + 1)
    ensures StopsStuck(p) ==> MaxHeight(p) + 1 == p.Track().HeightOf(MaxCycle(p, 0))
  {
    MaxRewardHeightIsInStopCycle(p);
    MaxHeightIs(p);
    CyclesAreOrdered(p.Track(), 0, MaxCycle(p, 0));
    MaxCycleIsWithinCap(p, 0);
  }

  /** At the maximum reward height the supply is the one where the recurrence got stuck, or less than a unit below the
      cap. */
  lemma AccruedAtMax(p: Profile)
    requires p.Accepted() && p.amount <= p.Cap()
    ensures MaxHeight(p) + 1 >= p.Mint() && CycleAt(p, MaxHeight(p) + 1) <= MaxCycle(p, 0) + 1
    ensures if StopsStuck(p) then AccruedAt(p, MaxHeight(p) + 1) == p.Supply(MaxCycle(p, 0)) as real
            else (p.Cap() - 1) as real < AccruedAt(p, MaxHeight(p) + 1) <= p.Cap() as real
  {
    MaxHeightIsInCycle(p);
    AccruedAtEnd(p, MaxCycle(p, 0), MaxHeight(p) + 1);
    if !StopsStuck(p) {
      AccruedInLastCycle(p);
    }
  }

  lemma AccruedInLastCycle(p: Profile)
    requires p.Accepted() && !StopsStuck(p) && p.Supply(MaxCycle(p, 0)) <= p.Cap()
    requires p.Track().HeightOf(MaxCycle(p, 0)) <= MaxHeight(p) + 1
    ensures (p.Cap() - 1) as real < Accrued(p.Track(), MaxCycle(p, 0), MaxHeight(p) + 1) <= p.Cap() as real
  {
    var c := MaxCycle(p, 0);
    MaxHeightIs(p);
    SupplyStep(p, c);
    MaxHeightAlmostCovers(p.Cap(), p.Supply(c), p.Rate(c), p.supplyCycle);
  }

  /** A fork that starts above the cap pays nothing. */
  lemma CappedForkPaysNothing(p: Profile, begin: int, end: int)
    requires p.Accepted() && p.amount > p.Cap() && begin >= p.Mint()
    ensures Counted(p, begin, end) == 0
  {
    MaxRewardHeightIsInStopCycle(p);
  }

  /** Neither does a fork that never mints. */
  lemma {:induction false} NothingToPay(p: Profile, rewardCycle: int, n: nat)
    requires p.Accepted() && rewardCycle > 0 && (p.mintHeight < 0 || p.amount > p.Cap())
    ensures TotalPaid(p, rewardCycle, n) == 0
  {
    if n > 0 {
      NothingToPay(p, rewardCycle, n - 1);
      if p.mintHeight >= 0 {
        RewardAtSection(p, rewardCycle, n);
        CappedForkPaysNothing(p, SectionStart(p, rewardCycle, n - 1), SectionStart(p, rewardCycle, n));
      }
    }
  }

  /** All sections together pay what brings the supply from the initial amount to the cap, or to the supply where the
      recurrence got stuck, off by at most half a unit for each section and supply cycle, and one unit lost at the cap; and
      nothing when nothing is minted or the amount is above the cap. */
  lemma AllSectionsPay(p: Profile, rewardCycle: int, n: nat)
    requires p.Accepted() && rewardCycle > 0 && SectionStart(p, rewardCycle, n) > MaxHeight(p)
    ensures var c, total := MaxCycle(p, 0), TotalPaid(p, rewardCycle, n);
            if p.mintHeight < 0 || p.amount > p.Cap() then total == 0
            else Near(total as real, ((if StopsStuck(p) then p.Supply(c) else p.Cap()) - p.amount) as real, (n + c + 1) as real / 2.0 + 1.0)
  {
    if p.mintHeight < 0 || p.amount > p.Cap() {
      NothingToPay(p, rewardCycle, n);
    } else {
      TotalIsNearAccrual(p, rewardCycle, n);
      AccruedAtMax(p);
      var upTo := MaxHeight(p) + 1;
      NearAtMax(p, TotalPaid(p, rewardCycle, n), n + CycleAt(p, upTo), n + MaxCycle(p, 0) + 1);
    }
  }

  lemma NearAtMax(p: Profile, total: int, pieces: int, more: int)
    requires p.Accepted() && p.amount <= p.Cap() && MaxHeight(p) + 1 >= p.Mint() && pieces <= more
    requires IsNearAccrual(p, total, MaxHeight(p) + 1, pieces)
    ensures Near(total as real, ((if StopsStuck(p) then p.Supply(MaxCycle(p, 0)) else p.Cap()) - p.amount) as real,
                 more as real / 2.0 + 1.0)
  {
    AccruedAtMax(p);
    AccruedAtEnd(p, 0, p.Mint());
    assert AccruedAt(p, p.Mint()) == p.amount as real;
  }

  /** However many sections there are, together they pay no more than what is missing to the cap, but for half a unit for
      each section and supply cycle. */
  lemma TotalIsWithinCap(p: Profile, rewardCycle: int, n: nat)
    requires p.Accepted() && rewardCycle > 0
    ensures 2 * TotalPaid(p, rewardCycle, n) <= 2 * Max(0, p.Cap() - p.amount) + n + MaxCycle(p, 0) + 1
  {
    if p.mintHeight < 0 || p.amount > p.Cap() {
      NothingToPay(p, rewardCycle, n);
    } else {
      TotalIsNearAccrual(p, rewardCycle, n);
      AccruedAtMax(p);
      var upTo := CountedTo(p, rewardCycle, n);
      NearIsWithinCap(p, TotalPaid(p, rewardCycle, n), upTo, n + CycleAt(p, upTo));
      CycleIsMonotone(p, upTo, MaxHeight(p) + 1);
    }
  }

  lemma NearIsWithinCap(p: Profile, total: int, upTo: int, pieces: int)
    requires p.supplyCycle > 0 && p.amount <= p.Cap() && upTo >= p.Mint() && IsNearAccrual(p, total, upTo, pieces)
    ensures 2 * total <= 2 * (p.Cap() - p.amount) + pieces
  {
    AccruedAtEnd(p, 0, p.Mint());
    assert AccruedAt(p, p.Mint()) == p.amount as real;
    assert AccruedAt(p, upTo) <= p.Cap() as real;
  }

  lemma CycleIsMonotone(p: Profile, a: int, b: int)
    requires p.supplyCycle > 0 && p.Mint() <= a <= b
    ensures CycleAt(p, a) <= CycleAt(p, b)
  {
    DivMono(a - p.Mint(), b - p.Mint(), p.supplyCycle);
  }
}
