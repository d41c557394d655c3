/** Sharing a pool by weights, and `ComputeStakeReward`, which shares the stake pool by competition rank.

    The unit reward is an exact real; `(int64)` of a product is its floor. */
module DeFiStake {
  import opened Common
  import opened SupplyTrack

  // ---------------------------------------------------------------- sharing a pool

  /** What `weight` out of `total` receives of the pool, rounded down. */
  ghost function Share(pool: nat, total: nat, weight: nat): (r: nat)
    requires total > 0
  {
    TimesIsNonNegative(Coinbase(pool, total), weight);
    Times(Coinbase(pool, total), weight).Floor
  }

  /** The source's expression for a share. */
  method ComputeShare(pool: nat, total: nat, weight: nat) returns (r: int)
    requires total > 0
    ensures r == Share(pool, total, weight)
  {
    var unit := pool as real / total as real;
    CoinbaseIsQuotient(pool, total);
    TimesIsProduct(unit, weight);
    r := (unit * weight as real).Floor;
  }

  lemma ShareIsMonotone(pool: nat, total: nat, a: nat, b: nat)
    requires total > 0 && a <= b
    ensures Share(pool, total, a) <= Share(pool, total, b)
  {
    TimesAdds(Coinbase(pool, total), a, b - a);
    TimesIsNonNegative(Coinbase(pool, total), b - a);
  }

  function Sum(s: seq<int>): int {
    if s == [] then 0 else Sum(s[..|s| - 1]) + s[|s| - 1]
  }

  /** The shares of a list of weights. */
  ghost predicate AreShares(pool: nat, total: nat, weights: seq<nat>, shares: seq<int>)
    requires total > 0
  {
    |shares| == |weights| && forall i :: 0 <= i < |weights| ==> shares[i] == Share(pool, total, weights[i])
  }

  lemma {:induction false} SharesAddUp(pool: nat, total: nat, weights: seq<nat>, shares: seq<int>)
    requires total > 0 && AreShares(pool, total, weights, shares)
    ensures Sum(weights) >= 0
    ensures Sum(shares) as real <= Times(Coinbase(pool, total), Sum(weights)) <= (Sum(shares) + |shares|) as real
    decreases |weights|
  {
    if weights != [] {
      var n := |weights| - 1;
      SharesAddUp(pool, total, weights[..n], shares[..n]);
      TimesAdds(Coinbase(pool, total), Sum(weights[..n]), weights[n]);
      assert shares[n] == Share(pool, total, weights[n]);
    }
  }

  /** A pool shared by all its weights is never exceeded, and each share leaves less than one unit behind. */
  lemma PoolIsShared(pool: nat, weights: seq<nat>, shares: seq<int>)
    requires Sum(weights) > 0 && AreShares(pool, Sum(weights), weights, shares)
    ensures pool - |shares| <= Sum(shares) <= pool
  {
    SharesAddUp(pool, Sum(weights), weights, shares);
  }

  // ---------------------------------------------------------------- the rank

  datatype Stake = Stake(dest: nat, amount: int)

  datatype StakeReward = StakeReward(dest: nat, amount: int, rank: nat, reward: int)

  /** How many stakes are strictly smaller than `amount`. */
  function CountBelow(s: seq<Stake>, amount: int): nat {
    if s == [] then 0 else CountBelow(s[..|s| - 1], amount) + if s[|s| - 1].amount < amount then 1 else 0
  }

  function Eligible(s: seq<Stake>, min: int): seq<Stake> {
    if s == [] then []
    else Eligible(s[..|s| - 1], min) + if s[|s| - 1].amount >= min then [s[|s| - 1]] else []
  }

  predicate Sorted(s: seq<Stake>) {
    forall i, j :: 0 <= i < j < |s| ==> s[i].amount <= s[j].amount
  }

  /** `multimap::insert`: after every stake that is not larger. */
  function Insert(s: seq<Stake>, e: Stake): seq<Stake> {
    if s == [] || s[|s| - 1].amount <= e.amount then s + [e]
    else Insert(s[..|s| - 1], e) + [s[|s| - 1]]
  }

  lemma {:induction false} InsertKeepsAll(s: seq<Stake>, e: Stake)
    ensures multiset(Insert(s, e)) == multiset(s) + multiset{e}
    decreases |s|
  {
    if s != [] && s[|s| - 1].amount > e.amount {
      var n := |s| - 1;
      InsertKeepsAll(s[..n], e);
      assert s == s[..n] + [s[n]];
    }
  }

  lemma {:induction false} InsertKeepsSorted(s: seq<Stake>, e: Stake)
    requires Sorted(s)
    ensures Sorted(Insert(s, e))
    ensures forall i :: 0 <= i < |Insert(s, e)| && s != [] ==>
              Insert(s, e)[i].amount <= Max(e.amount, s[|s| - 1].amount)
    decreases |s|
  {
    if s != [] && s[|s| - 1].amount > e.amount {
      InsertKeepsSorted(s[..|s| - 1], e);
    }
  }

  lemma CountBelowLast(s: seq<Stake>, e: Stake, amount: int)
    ensures CountBelow(s + [e], amount) == CountBelow(s, amount) + if e.amount < amount then 1 else 0
  {
    assert (s + [e])[..|s|] == s;
  }

  lemma {:induction false} InsertCounts(s: seq<Stake>, e: Stake, amount: int)
    ensures CountBelow(Insert(s, e), amount) == CountBelow(s + [e], amount)
    decreases |s|
  {
    CountBelowLast(s, e, amount);
    if s != [] && s[|s| - 1].amount > e.amount {
      var n := |s| - 1;
      InsertCounts(s[..n], e, amount);
      CountBelowLast(s[..n], e, amount);
      CountBelowLast(Insert(s[..n], e), s[n], amount);
    }
  }

  /** The addresses of a list of stakes. */
  function StakeDests(s: seq<Stake>): multiset<nat> {
    if s == [] then multiset{} else StakeDests(s[..|s| - 1]) + multiset{s[|s| - 1].dest}
  }

  lemma StakeDestsLast(s: seq<Stake>, e: Stake)
    ensures StakeDests(s + [e]) == StakeDests(s) + multiset{e.dest}
  {
    assert (s + [e])[..|s|] == s;
  }

  lemma {:induction false} InsertKeepsDests(s: seq<Stake>, e: Stake)
    ensures StakeDests(Insert(s, e)) == StakeDests(s) + multiset{e.dest}
    decreases |s|
  {
    if s == [] || s[|s| - 1].amount <= e.amount {
      StakeDestsLast(s, e);
    } else {
      InsertKeepsDests(s[..|s| - 1], e);
      StakeDestsLast(Insert(s[..|s| - 1], e), s[|s| - 1]);
    }
  }

  lemma {:induction false} EligibleDests(s: seq<Stake>, min: int)
    ensures StakeDests(Eligible(s, min)) <= StakeDests(s)
  {
    if s != [] {
      var n := |s| - 1;
      EligibleDests(s[..n], min);
      if s[n].amount >= min {
        StakeDestsLast(Eligible(s[..n], min), s[n]);
      } else {
        assert Eligible(s, min) == Eligible(s[..n], min);
      }
    }
  }

  /** Two lists with as many stakes below every amount. */
  ghost predicate SameCounts(s: seq<Stake>, t: seq<Stake>) {
    forall x :: CountBelow(s, x) == CountBelow(t, x)
  }

  lemma InsertKeepsCounts(s: seq<Stake>, t: seq<Stake>, e: Stake)
    requires SameCounts(s, t)
    ensures SameCounts(Insert(s, e), t + [e])
  {
    forall x ensures CountBelow(Insert(s, e), x) == CountBelow(t + [e], x) {
      InsertCounts(s, e, x);
      CountBelowLast(s, e, x);
      CountBelowLast(t, e, x);
    }
  }

  /** In a sorted list, all stakes before the first of a run of equal ones are smaller and none from it on is. */
  lemma {:induction false} CountBelowFirst(s: seq<Stake>, n: nat, i: nat, amount: int)
    requires Sorted(s) && i <= n <= |s|
    requires forall j :: 0 <= j < i ==> s[j].amount < amount
    requires forall j :: i <= j < |s| ==> s[j].amount >= amount
    ensures CountBelow(s[..n], amount) == i
    decreases n
  {
    if n > i {
      CountBelowFirst(s, n - 1, i, amount);
      assert s[..n][..n - 1] == s[..n - 1];
    } else {
      AllBelow(s[..n], amount);
    }
  }

  lemma {:induction false} AllBelow(s: seq<Stake>, amount: int)
    requires forall j :: 0 <= j < |s| ==> s[j].amount < amount
    ensures CountBelow(s, amount) == |s|
  {
    if s != [] {
      AllBelow(s[..|s| - 1], amount);
    }
  }

  /** The same stakes, in ascending order. */
  ghost predicate IsSorting(ranked: seq<Stake>, of: seq<Stake>) {
    Sorted(ranked) && multiset(ranked) == multiset(of) && StakeDests(ranked) == StakeDests(of) && SameCounts(ranked, of)
  }

  lemma InsertSorts(ranked: seq<Stake>, of: seq<Stake>, e: Stake)
    requires IsSorting(ranked, of)
    ensures IsSorting(Insert(ranked, e), of + [e])
  {
    InsertKeepsAll(ranked, e);
    InsertKeepsDests(ranked, e);
    StakeDestsLast(of, e);
    InsertKeepsSorted(ranked, e);
    InsertKeepsCounts(ranked, of, e);
  }

  lemma EligibleStep(stakes: seq<Stake>, i: nat, min: int)
    requires i < |stakes|
    ensures Eligible(stakes[..i + 1], min) ==
            if stakes[i].amount >= min then Eligible(stakes[..i], min) + [stakes[i]] else Eligible(stakes[..i], min)
  {
    assert stakes[..i + 1][..i] == stakes[..i];
  }

  /** The first loop of `ComputeStakeReward`: the eligible stakes in ascending order. */
  method SortEligible(min: int, stakes: seq<Stake>) returns (ranked: seq<Stake>)
    ensures IsSorting(ranked, Eligible(stakes, min))
  {
    ranked := [];
    for i := 0 to |stakes|
      invariant IsSorting(ranked, Eligible(stakes[..i], min))
    {
      EligibleStep(stakes, i, min);
      if stakes[i].amount >= min {
        InsertSorts(ranked, Eligible(stakes[..i], min), stakes[i]);
        ranked := Insert(ranked, stakes[i]);
      }
    }
    assert stakes[..|stakes|] == stakes;
  }

  lemma CountBelowAt(ranked: seq<Stake>, pos: nat)
    requires Sorted(ranked) && pos < |ranked| && (pos > 0 ==> ranked[pos - 1].amount != ranked[pos].amount)
    ensures CountBelow(ranked, ranked[pos].amount) == pos
  {
    CountBelowFirst(ranked, |ranked|, pos, ranked[pos].amount);
    assert ranked[..|ranked|] == ranked;
  }

  /** The rank loop: the rank is one more than the number of strictly smaller stakes, so equal stakes share it. */
  method TagRanks(ranked: seq<Stake>) returns (ranks: seq<nat>, total: nat)
    requires Sorted(ranked)
    ensures |ranks| == |ranked| && total == Sum(ranks)
    ensures forall i :: 0 <= i < |ranked| ==> ranks[i] == 1 + CountBelow(ranked, ranked[i].amount)
    ensures ranked != [] ==> total > 0
  {
    ranks, total := [], 0;
    var rank, pos, token := 1, 0, -1;
    while pos < |ranked|
      invariant 0 <= pos <= |ranked| && |ranks| == pos && total == Sum(ranks) && total >= pos && rank >= 1
      invariant forall i :: 0 <= i < pos ==> ranks[i] == 1 + CountBelow(ranked, ranked[i].amount)
      invariant pos > 0 ==> token == ranked[pos - 1].amount && rank == ranks[pos - 1]
      invariant pos == 0 ==> rank == 1
    {
      var stake := ranked[pos];
      if pos == 0 || stake.amount != token {
        CountBelowAt(ranked, pos);
      }
      pos := pos + 1;
      if stake.amount != token {
        rank, token := pos, stake.amount;
      }
      assert (ranks + [rank])[..|ranks|] == ranks;
      ranks := ranks + [rank];
      total := total + rank;
    }
  }

  // ---------------------------------------------------------------- ComputeStakeReward

  function Rewards(s: seq<StakeReward>): seq<int> {
    seq(|s|, i requires 0 <= i < |s| => s[i].reward)
  }

  function Stakes(s: seq<StakeReward>): seq<Stake> {
    seq(|s|, i requires 0 <= i < |s| => Stake(s[i].dest, s[i].amount))
  }

  /** The rewards of the ranked stakes. */
  ghost predicate AreRewards(ranked: seq<Stake>, ranks: seq<nat>, pool: nat, total: nat, rewards: seq<StakeReward>)
    requires total > 0
  {
    |ranks| == |ranked| == |rewards| &&
    forall k :: 0 <= k < |ranked| ==>
      rewards[k] == StakeReward(ranked[k].dest, ranked[k].amount, ranks[k], Share(pool, total, ranks[k]))
  }

  /** A larger stake never earns less, and equal stakes earn the same. */
  lemma LargerEarnsNoLess(ranked: seq<Stake>, ranks: seq<nat>, pool: nat, total: nat, rewards: seq<StakeReward>, i: nat, j: nat)
    requires total > 0 && AreRewards(ranked, ranks, pool, total, rewards) && i < |ranked| && j < |ranked|
    requires forall k :: 0 <= k < |ranked| ==> ranks[k] == 1 + CountBelow(ranked, ranked[k].amount)
    requires rewards[i].amount <= rewards[j].amount
    ensures rewards[i].reward <= rewards[j].reward
  {
    CountIsMonotone(ranked, ranked[i].amount, ranked[j].amount);
    ShareIsMonotone(pool, total, ranks[i], ranks[j]);
  }

  /** The last loop of `ComputeStakeReward`. */
  method ShareByRank(ranked: seq<Stake>, ranks: seq<nat>, pool: nat, total: nat) returns (rewards: seq<StakeReward>)
    requires |ranks| == |ranked| && total == Sum(ranks) && total > 0
    ensures AreRewards(ranked, ranks, pool, total, rewards) && Stakes(rewards) == ranked
    ensures pool - |rewards| <= Sum(Rewards(rewards)) <= pool
  {
    rewards := [];
    for i := 0 to |ranked|
      invariant |rewards| == i
      invariant forall k :: 0 <= k < i ==>
                  rewards[k] == StakeReward(ranked[k].dest, ranked[k].amount, ranks[k], Share(pool, total, ranks[k]))
    {
      var share := ComputeShare(pool, total, ranks[i]);
      rewards := rewards + [StakeReward(ranked[i].dest, ranked[i].amount, ranks[i], share)];
    }
    assert Stakes(rewards) == ranked;
    PoolIsShared(pool, ranks, Rewards(rewards));
  }

  /** What `ComputeStakeReward` promises: every eligible address is rewarded once; its rank is one more than the number
      of eligible addresses with a strictly smaller stake; equal stakes earn the same and larger ones no less; and the
      pool is shared out, never exceeded, and left with less than a unit for each address. */
  ghost predicate SharesPool(eligible: seq<Stake>, pool: nat, rewards: seq<StakeReward>) {
    multiset(Stakes(rewards)) == multiset(eligible) && StakeDests(Stakes(rewards)) == StakeDests(eligible) &&
    (forall i :: 0 <= i < |rewards| ==> rewards[i].rank == 1 + CountBelow(eligible, rewards[i].amount)) &&
    (forall i, j :: 0 <= i < |rewards| && 0 <= j < |rewards| && rewards[i].amount <= rewards[j].amount ==>
       0 <= rewards[i].reward <= rewards[j].reward) &&
    Sum(Rewards(rewards)) <= pool && (rewards != [] ==> pool - |rewards| <= Sum(Rewards(rewards)))
  }

  lemma RankedSharesPool(eligible: seq<Stake>, ranked: seq<Stake>, ranks: seq<nat>, pool: nat, total: nat, rewards: seq<StakeReward>)
    requires total > 0 && IsSorting(ranked, eligible) && AreRewards(ranked, ranks, pool, total, rewards)
    requires Stakes(rewards) == ranked && pool - |rewards| <= Sum(Rewards(rewards)) <= pool
    requires forall k :: 0 <= k < |ranked| ==> ranks[k] == 1 + CountBelow(ranked, ranked[k].amount)
    ensures SharesPool(eligible, pool, rewards)
  {
    forall i, j | 0 <= i < |rewards| && 0 <= j < |rewards| && rewards[i].amount <= rewards[j].amount
      ensures 0 <= rewards[i].reward <= rewards[j].reward
    {
      LargerEarnsNoLess(ranked, ranks, pool, total, rewards, i, j);
    }
    forall i | 0 <= i < |rewards| ensures rewards[i].rank == 1 + CountBelow(eligible, rewards[i].amount) {
      assert CountBelow(ranked, ranked[i].amount) == CountBelow(eligible, ranked[i].amount);
    }
  }

  /** `ComputeStakeReward`. */
  method ComputeStakeReward(min: int, pool: nat, stakes: seq<Stake>) returns (rewards: seq<StakeReward>)
    ensures if pool == 0 then rewards == [] else SharesPool(Eligible(stakes, min), pool, rewards)
  {
    rewards := [];
    if pool > 0 {
      var ranked := SortEligible(min, stakes);
      var ranks, total := TagRanks(ranked);
      if ranked != [] {
        rewards := ShareByRank(ranked, ranks, pool, total);
        RankedSharesPool(Eligible(stakes, min), ranked, ranks, pool, total, rewards);
      }
    }
  }

  lemma {:induction false} CountIsMonotone(s: seq<Stake>, a: int, b: int)
    requires a <= b
    ensures CountBelow(s, a) <= CountBelow(s, b)
  {
    if s != [] {
      CountIsMonotone(s[..|s| - 1], a, b);
    }
  }
}
