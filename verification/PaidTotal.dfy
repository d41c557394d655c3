/** What a whole chain pays, end to end: the sections of a DeFi fork get their rewards from the supply recurrence, share them
    among addresses, and the blocks pay the shares page by page. All of it together stays within the maximum supply. */
module PaidTotal {
  import opened Common
  import opened Arithmetic
  import opened PagedPayment
  import opened RewardPaging
  import opened SectionReward
  import DeFiMaxHeight
  import DeFiPromotion
  import DeFiSection
  import DeFiStake
  import DeFiSupply

  /** What a list of rewards pays in all. */
  function Sum(items: seq<Item>): int {
    if items == [] then 0 else items[0].reward + Sum(items[1..])
  }

  predicate NoneNegative(items: seq<Item>) {
    forall i :: 0 <= i < |items| ==> items[i].reward >= 0
  }

  lemma {:induction false} SumAppend(a: seq<Item>, b: seq<Item>)
    ensures Sum(a + b) == Sum(a) + Sum(b)
    decreases |a|
  {
    if a == [] {
      assert a + b == b;
    } else {
      HeadOfAppend(a, b);
      SumAppend(a[1..], b);
    }
  }

  lemma {:induction false} SumIsNonNegative(items: seq<Item>)
    requires NoneNegative(items)
    ensures Sum(items) >= 0
  {
    if items != [] {
      SumIsNonNegative(items[1..]);
    }
  }

  /** A longer front of a list of rewards pays no less. */
  lemma SumOfFront(items: seq<Item>, i: nat, j: nat)
    requires NoneNegative(items) && i <= j <= |items|
    ensures Sum(items[..i]) + Sum(items[i..j]) == Sum(items[..j]) && Sum(items[i..j]) >= 0
  {
    assert items[..i] + items[i..j] == items[..j];
    SumAppend(items[..i], items[i..j]);
    SumIsNonNegative(items[i..j]);
  }

  lemma FrontIsNonNegative(front: seq<Item>, items: seq<Item>)
    requires front <= items && NoneNegative(items)
    ensures NoneNegative(front)
  {
    assert forall i :: 0 <= i < |front| ==> front[i] == items[i];
  }

  /** A block that pays the rewards from `before` on and settles more of them keeps the bound. */
  lemma OneMorePage(paid: seq<Item>, below: seq<Item>, due: seq<Item>, before: nat, n: nat, settled: nat)
    requires NoneNegative(due) && below <= due && before <= |below| && before + n <= settled <= |due|
    requires Sum(paid) <= Sum(below[..before])
    ensures Sum(paid + due[before..before + n]) <= Sum(due[..settled])
  {
    assert below[..before] == due[..before];
    SumAppend(paid, due[before..before + n]);
    SumOfFront(due, before, before + n);
    SumOfFront(due, before + n, settled);
  }

  /** The rewards paid along accepted pages sum to no more than the settled front of those due. */
  lemma {:induction false} PaidIsWithinSettled(p: Pages)
    requires Grows(p) && IsAccepted(p) && NoneNegative(Due(p))
    ensures Settled(p) <= |Due(p)| && Sum(Paid(p)) <= Sum(Due(p)[..Settled(p)])
  {
    if p.Then? {
      FrontIsNonNegative(Due(p.below), p.due);
      PaidIsWithinSettled(p.below);
      BlockPays(p);
      OneMorePage(Paid(p.below), Due(p.below), p.due, Settled(p.below), |RewardsIn(p.vtx)|, Settled(p));
    }
  }

  lemma PaidIsWithinDue(p: Pages)
    requires Grows(p) && IsAccepted(p) && NoneNegative(Due(p))
    ensures Sum(Paid(p)) <= Sum(Due(p))
  {
    PaidIsWithinSettled(p);
    SumOfFront(Due(p), Settled(p), |Due(p)|);
    assert Due(p)[..|Due(p)|] == Due(p);
  }

  // ---------------------------------------------------------------- section lists

  /** The list holds the entries of a reward set, each once. */
  predicate IsListing(list: seq<Reward>, s: DeFiSection.RewardSet) {
    ProperList(list) && |list| == |s| && forall i :: 0 <= i < |list| ==> list[i].dest in s && s[list[i].dest] == list[i].reward
  }

  function SumOfList(list: seq<Reward>): int {
    if list == [] then 0 else list[0].reward + SumOfList(list[1..])
  }

  /** A listing pays in all what the set does. */
  lemma {:induction false} ListingTotal(list: seq<Reward>, s: DeFiSection.RewardSet)
    requires IsListing(list, s)
    ensures SumOfList(list) == DeFiSection.Total(s)
  {
    if list == [] {
      assert s == map[];
    } else {
      DeFiSection.TotalTake(s, list[0].dest);
      ListingRest(list, s);
      ListingTotal(list[1..], s - {list[0].dest});
    }
  }

  lemma ListingRest(list: seq<Reward>, s: DeFiSection.RewardSet)
    requires IsListing(list, s) && list != []
    ensures IsListing(list[1..], s - {list[0].dest})
  {
    var rest, t := list[1..], s - {list[0].dest};
    assert t.Keys == s.Keys - {list[0].dest};
    forall i | 0 <= i < |rest| ensures rest[i].dest in t && t[rest[i].dest] == rest[i].reward {
      assert rest[i] == list[i + 1] && list[0].dest != list[i + 1].dest;
    }
  }

  lemma {:induction false} TaggedSum(hash: nat, list: seq<Reward>)
    ensures Sum(Tagged(hash, list)) == SumOfList(list)
  {
    if list != [] {
      TaggedSum(hash, list[1..]);
      assert Tagged(hash, list)[1..] == Tagged(hash, list[1..]);
    }
  }

  /** A reward set shares out no more than the reward of the section at a height. */
  ghost predicate SharesOut(p: DeFiSupply.Profile, rewardCycle: int, height: int, s: DeFiSection.RewardSet)
    requires p.supplyCycle > 0
  {
    DeFiSection.NonNegative(s) && DeFiSection.Total(s) <= Max(0, RewardAt(p, rewardCycle, height))
  }

  /** `ComputeDeFiSection` with the reward that it asks `GetSectionReward` for. */
  method ComputeSection(p: DeFiSupply.Profile, rewardCycle: int, height: int, terms: DeFiSection.Terms,
                        amounts: seq<DeFiStake.Stake>, unspendable: set<nat>, blacklist: set<nat>, forest: seq<DeFiPromotion.Node>)
    returns (s: DeFiSection.RewardSet)
    requires p.Accepted() && rewardCycle > 0 && terms.Accepted()
    requires DeFiSection.Once(DeFiStake.StakeDests(amounts)) && DeFiSection.Once(DeFiPromotion.AllKeys(forest))
    ensures SharesOut(p, rewardCycle, height, s)
  {
    var reward := GetSectionReward(p, rewardCycle, height);
    ghost var stakes, promotions;
    s, stakes, promotions := DeFiSection.ComputeDeFiSection(reward, terms, amounts, unspendable, blacklist, forest);
  }

  /** The list of a section block holds the entries of such a set. */
  ghost predicate IsShared(p: DeFiSupply.Profile, rewardCycle: int, f: Fork, b: Block)
    requires p.supplyCycle > 0 && b.Block?
  {
    exists s :: IsListing(f.list(b.hash), s) && SharesOut(p, rewardCycle, b.height, s)
  }

  lemma SectionIsWithinReward(p: DeFiSupply.Profile, rewardCycle: int, f: Fork, b: Block)
    requires p.supplyCycle > 0 && b.Block? && IsShared(p, rewardCycle, f, b)
    ensures NoneNegative(ItemsOf(f, b)) && Sum(ItemsOf(f, b)) <= Max(0, RewardAt(p, rewardCycle, b.height))
  {
    var s :| IsListing(f.list(b.hash), s) && SharesOut(p, rewardCycle, b.height, s);
    ListingTotal(f.list(b.hash), s);
    TaggedSum(b.hash, f.list(b.hash));
    forall i | 0 <= i < |ItemsOf(f, b)| ensures ItemsOf(f, b)[i].reward >= 0 {
      assert f.list(b.hash)[i].dest in s;
    }
  }

  // ---------------------------------------------------------------- the sections of a chain

  /** The fork has the reward cycles of the profile. */
  ghost predicate FollowsProfile(p: DeFiSupply.Profile, rewardCycle: int, f: Fork) {
    rewardCycle > 0 && forall h: int :: f.prevReward(h) == Profile(p.mintHeight, p.jointHeight, rewardCycle).PrevRewardHeight(h)
  }

  /** Every section of the chain is shared out. */
  ghost predicate AllShared(p: DeFiSupply.Profile, rewardCycle: int, f: Fork, c: Block)
    requires p.supplyCycle > 0
  {
    c.Block? ==> AllShared(p, rewardCycle, f, c.prev) && (f.IsSection(c.height) ==> IsShared(p, rewardCycle, f, c))
  }

  /** How many reward cycles have ended below a height. */
  function CyclesBefore(p: DeFiSupply.Profile, rewardCycle: int, height: int): nat
    requires rewardCycle > 0
  {
    if p.mintHeight >= 0 && height >= p.Mint() then
      DivFacts(height - p.Mint(), rewardCycle);
      (height - p.Mint()) / rewardCycle
    else 0
  }

  lemma CyclesBeforeIs(p: DeFiSupply.Profile, rewardCycle: int, f: Fork, height: int)
    requires FollowsProfile(p, rewardCycle, f)
    ensures var n := CyclesBefore(p, rewardCycle, height);
            f.prevReward(height) ==
            if p.mintHeight >= 0 && height >= p.Mint() then SectionStart(p, rewardCycle, n) - 1 else -1
  {
    if p.mintHeight >= 0 && height >= p.Mint() {
      var n := CyclesBefore(p, rewardCycle, height);
      SectionStartIs(p, rewardCycle, n);
    }
  }

  /** Sections start in order. */
  lemma SectionsStartInOrder(p: DeFiSupply.Profile, rewardCycle: int, m: nat, n: nat)
    requires rewardCycle > 0
    ensures m <= n ==> SectionStart(p, rewardCycle, m) <= SectionStart(p, rewardCycle, n)
    ensures m < n ==> SectionStart(p, rewardCycle, m) < SectionStart(p, rewardCycle, n)
  {
    SectionStartIs(p, rewardCycle, m);
    SectionStartIs(p, rewardCycle, n);
    if m < n {
      assert n * rewardCycle == m * rewardCycle + (n - m) * rewardCycle;
      MulMono(1, n - m, rewardCycle, rewardCycle);
    }
  }

  /** Below the last height of reward cycle `n` that cycle has not ended. */
  lemma LastOfCycle(p: DeFiSupply.Profile, rewardCycle: int, n: nat)
    requires rewardCycle > 0 && p.mintHeight >= 0
    ensures CyclesBefore(p, rewardCycle, SectionStart(p, rewardCycle, n + 1) - 1) == n
  {
    SectionStartIs(p, rewardCycle, n);
    DivOf(n, rewardCycle, rewardCycle - 1);
  }

  /** At a section height one more reward cycle has ended than below it, or none when it is the height before the first. */
  lemma CyclesAtSection(p: DeFiSupply.Profile, rewardCycle: int, f: Fork, height: nat, limit: int)
    requires FollowsProfile(p, rewardCycle, f) && f.prevReward(limit) == height
    ensures p.mintHeight >= 0
    ensures var m, n := CyclesBefore(p, rewardCycle, height), CyclesBefore(p, rewardCycle, limit);
            height == SectionStart(p, rewardCycle, n) - 1 && m == if n == 0 then 0 else n - 1
  {
    CyclesBeforeIs(p, rewardCycle, f, limit);
    var n := CyclesBefore(p, rewardCycle, limit);
    if n > 0 {
      LastOfCycle(p, rewardCycle, n - 1);
    }
  }

  /** The height before the first block that mints is a section height, and counts nothing. */
  lemma NothingBeforeFirst(p: DeFiSupply.Profile, rewardCycle: int)
    requires p.supplyCycle > 0 && rewardCycle > 0 && p.mintHeight >= 0
    ensures RewardAt(p, rewardCycle, p.Mint() - 1) <= 0
  {
    assert BeginOf(p, rewardCycle, p.Mint() - 1) == p.Mint();
    CountedIsNonNegative(p, p.Mint(), p.Mint());
  }

  lemma OneMoreCycle(p: DeFiSupply.Profile, rewardCycle: int, f: Fork, height: nat, limit: int)
    requires FollowsProfile(p, rewardCycle, f) && p.supplyCycle > 0 && f.prevReward(limit) == height
    ensures TotalPaid(p, rewardCycle, CyclesBefore(p, rewardCycle, height)) + Max(0, RewardAt(p, rewardCycle, height)) ==
            TotalPaid(p, rewardCycle, CyclesBefore(p, rewardCycle, limit))
  {
    CyclesAtSection(p, rewardCycle, f, height, limit);
    if CyclesBefore(p, rewardCycle, limit) == 0 {
      NothingBeforeFirst(p, rewardCycle);
    }
  }

  lemma SameCycles(p: DeFiSupply.Profile, rewardCycle: int, f: Fork, height: nat, limit: int)
    requires FollowsProfile(p, rewardCycle, f) && f.prevReward(height) == f.prevReward(limit)
    ensures CyclesBefore(p, rewardCycle, height) == CyclesBefore(p, rewardCycle, limit)
  {
    var m, n := CyclesBefore(p, rewardCycle, height), CyclesBefore(p, rewardCycle, limit);
    CyclesBeforeIs(p, rewardCycle, f, height);
    CyclesBeforeIs(p, rewardCycle, f, limit);
    SectionsStartInOrder(p, rewardCycle, 0, m);
    SectionsStartInOrder(p, rewardCycle, 0, n);
    SectionsStartInOrder(p, rewardCycle, m, n);
    SectionsStartInOrder(p, rewardCycle, n, m);
  }

  /** Everything that falls due on a chain is within what the sections up to there pay. */
  lemma {:induction false} DueIsWithinTotal(p: DeFiSupply.Profile, rewardCycle: int, f: Fork, c: Block, limit: int)
    requires p.supplyCycle > 0 && f.Valid() && FollowsProfile(p, rewardCycle, f) && Follows(limit, c)
    requires (c.Block? ==> IsChain(f, c)) && AllShared(p, rewardCycle, f, c)
    ensures NoneNegative(DueAbove(f, c, limit))
    ensures Sum(DueAbove(f, c, limit)) <= TotalPaid(p, rewardCycle, CyclesBefore(p, rewardCycle, limit))
  {
    if c.Bottom? {
      TotalIsNonNegative(p, rewardCycle, CyclesBefore(p, rewardCycle, limit));
    } else {
      DueIsWithinTotal(p, rewardCycle, f, c.prev, c.height);
      Peel(f, c, limit);
      if f.prevReward(limit) == c.height {
        OneMoreCycle(p, rewardCycle, f, c.height, limit);
        OneMoreDue(p, rewardCycle, f, c, limit);
      } else {
        SameCycles(p, rewardCycle, f, c.height, limit);
      }
    }
  }

  lemma {:induction false} TotalIsNonNegative(p: DeFiSupply.Profile, rewardCycle: int, n: nat)
    requires p.supplyCycle > 0
    ensures TotalPaid(p, rewardCycle, n) >= 0
  {
    if n > 0 {
      TotalIsNonNegative(p, rewardCycle, n - 1);
    }
  }

  lemma OneMoreDue(p: DeFiSupply.Profile, rewardCycle: int, f: Fork, c: Block, limit: int)
    requires p.supplyCycle > 0 && f.Valid() && c.Block? && Follows(limit, c) && AllShared(p, rewardCycle, f, c)
    requires f.prevReward(limit) == c.height && Sections(f, c, limit) == Sections(f, c.prev, c.height) + [c]
    requires NoneNegative(DueAbove(f, c.prev, c.height))
    ensures NoneNegative(DueAbove(f, c, limit))
    ensures Sum(DueAbove(f, c, limit)) <= Sum(DueAbove(f, c.prev, c.height)) + Max(0, RewardAt(p, rewardCycle, c.height))
  {
    assert f.StepsAt(c.height);
    SectionIsWithinReward(p, rewardCycle, f, c);
    ItemsAppend(f, Sections(f, c.prev, c.height), [c]);
    ItemsOne(f, c);
    SumAppend(DueAbove(f, c.prev, c.height), ItemsOf(f, c));
  }

  // ---------------------------------------------------------------- the cap

  /** The end-to-end bound: the rewards paid on any accepted chain of a DeFi fork sum to no more than what is missing from
      the initial amount to the maximum supply, but for half a unit for each reward cycle ended and each supply cycle. */
  lemma PaidIsWithinCap(p: DeFiSupply.Profile, rewardCycle: int, f: Fork, c: Block)
    requires p.Accepted() && f.Valid() && FollowsProfile(p, rewardCycle, f)
    requires IsChain(f, c) && IsAccepted(PagesOf(f, c)) && AllShared(p, rewardCycle, f, c)
    ensures 2 * Sum(Paid(PagesOf(f, c))) <=
            2 * Max(0, p.Cap() - p.amount) + CyclesBefore(p, rewardCycle, c.height) + DeFiMaxHeight.MaxCycle(p, 0) + 1
  {
    var n := CyclesBefore(p, rewardCycle, c.height);
    PagesGrow(f, c);
    DueIsWithinTotal(p, rewardCycle, f, c.prev, c.height);
    PaidIsWithinDue(PagesOf(f, c));
    TotalIsWithinCap(p, rewardCycle, n);
  }
}
