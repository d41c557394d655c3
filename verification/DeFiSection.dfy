/** `ComputeDeFiSection`: one section's reward is split into a stake pool and a promotion pool, and what each
    address earns from the two is merged into one reward set.

    A reward set is indexed by address without duplicates, so here it is a map from address to reward. */
module DeFiSection {
  import opened Common
  import opened SupplyTrack
  import opened DeFiStake
  import opened DeFiPromotion

  const NEW_MIN_TX_FEE := 10_000

  type RewardSet = map<nat, int>

  /** What a reward set pays to an address. */
  function At(m: RewardSet, dest: nat): int {
    if dest in m then m[dest] else 0
  }

  /** What a reward set pays in all. */
  ghost function Total(m: RewardSet): int
    decreases |m|
  {
    if m == map[] then 0
    else
      var d :| d in m;
      m[d] + Total(m - {d})
  }

  predicate NonNegative(m: RewardSet) {
    forall d :: d in m ==> m[d] >= 0
  }

  lemma {:induction false} TotalTake(m: RewardSet, dest: nat)
    ensures Total(m) == At(m, dest) + Total(m - {dest})
    decreases |m|
  {
    if dest !in m {
      assert m - {dest} == m;
    } else {
      var d :| d in m && Total(m) == m[d] + Total(m - {d});
      if d != dest {
        TotalTake(m - {d}, dest);
        TotalTake(m - {dest}, d);
        assert m - {d} - {dest} == m - {dest} - {d};
      }
    }
  }

  /** A set that pays each address at most what two others pay it together pays at most their total. */
  lemma {:induction false} TotalBound(s: RewardSet, a: RewardSet, b: RewardSet)
    requires NonNegative(a) && NonNegative(b) && forall d :: d in s ==> s[d] <= At(a, d) + At(b, d)
    ensures Total(s) <= Total(a) + Total(b)
    decreases |s|
  {
    if s != map[] {
      var d :| d in s;
      TotalTake(s, d);
      TotalTake(a, d);
      TotalTake(b, d);
      TotalBound(s - {d}, a - {d}, b - {d});
    } else {
      TotalIsNonNegative(a);
      TotalIsNonNegative(b);
    }
  }

  lemma {:induction false} TotalIsNonNegative(m: RewardSet)
    requires NonNegative(m)
    ensures Total(m) >= 0
    decreases |m|
  {
    if m != map[] {
      var d :| d in m;
      TotalTake(m, d);
      TotalIsNonNegative(m - {d});
    }
  }

  // ---------------------------------------------------------------- the merge

  /** Each address gets the sum of its two rewards when that covers more than the fee of its own transaction. */
  function Merged(stake: RewardSet, promotion: RewardSet, dests: set<nat>): RewardSet {
    map d | d in dests && At(stake, d) + At(promotion, d) > NEW_MIN_TX_FEE :: At(stake, d) + At(promotion, d)
  }

  lemma MergedOneMore(stake: RewardSet, promotion: RewardSet, dests: set<nat>, dest: nat)
    requires dest !in dests
    ensures Merged(stake, promotion, dests + {dest}) ==
            if At(stake, dest) + At(promotion, dest) > NEW_MIN_TX_FEE
            then Merged(stake, promotion, dests)[dest := At(stake, dest) + At(promotion, dest)]
            else Merged(stake, promotion, dests)
  {
  }

  /** The two merge loops of `ComputeDeFiSection`, in whatever order the sets are walked. */
  method MergeRewards(stake: RewardSet, promotion: RewardSet) returns (s: RewardSet)
    requires NonNegative(stake) && NonNegative(promotion)
    ensures s == Merged(stake, promotion, stake.Keys + promotion.Keys)
    ensures Total(s) <= Total(stake) + Total(promotion)
  {
    var rest;
    s, rest := MergeStakes(stake, promotion);
    var left := rest.Keys;
    while left != {}
      invariant left <= rest.Keys && s == Merged(stake, promotion, stake.Keys + (rest.Keys - left))
      decreases left
    {
      var dest :| dest in left;
      MergedOneMore(stake, promotion, stake.Keys + (rest.Keys - left), dest);
      assert stake.Keys + (rest.Keys - (left - {dest})) == stake.Keys + (rest.Keys - left) + {dest};
      if rest[dest] > NEW_MIN_TX_FEE {
        s := s[dest := rest[dest]];
      }
      left := left - {dest};
    }
    assert stake.Keys + (rest.Keys - left) == stake.Keys + promotion.Keys;
    TotalBound(s, stake, promotion);
  }

  /** The first loop: every stake reward, with the promotion reward of the same address taken out of the rest. */
  method MergeStakes(stake: RewardSet, promotion: RewardSet) returns (s: RewardSet, rest: RewardSet)
    ensures s == Merged(stake, promotion, stake.Keys) && rest == promotion - stake.Keys
  {
    var todo := stake.Keys;
    s, rest := map[], promotion;
    while todo != {}
      invariant todo <= stake.Keys && s == Merged(stake, promotion, stake.Keys - todo)
      invariant rest == promotion - (stake.Keys - todo)
      decreases todo
    {
      var dest :| dest in todo;
      var reward := stake[dest];
      MergedOneMore(stake, promotion, stake.Keys - todo, dest);
      assert stake.Keys - (todo - {dest}) == (stake.Keys - todo) + {dest};
      if dest in rest {
        reward := reward + rest[dest];
        rest := rest - {dest};
      }
      if reward > NEW_MIN_TX_FEE {
        s := s[dest := reward];
      }
      todo := todo - {dest};
    }
  }

  // ---------------------------------------------------------------- from lists to reward sets

  function StakeSet(rewards: seq<StakeReward>): RewardSet {
    if rewards == [] then map[] else StakeSet(rewards[..|rewards| - 1])[rewards[|rewards| - 1].dest := rewards[|rewards| - 1].reward]
  }

  function PromotionSet(rewards: seq<PromotionReward>): RewardSet {
    if rewards == [] then map[]
    else PromotionSet(rewards[..|rewards| - 1])[rewards[|rewards| - 1].entry.dest := rewards[|rewards| - 1].reward]
  }

  predicate Once(m: multiset<nat>) {
    forall d :: d in m ==> m[d] == 1
  }

  lemma {:induction false} StakeSetTotal(rewards: seq<StakeReward>)
    requires Once(StakeDests(Stakes(rewards))) && forall i :: 0 <= i < |rewards| ==> rewards[i].reward >= 0
    ensures Total(StakeSet(rewards)) == Sum(Rewards(rewards)) && NonNegative(StakeSet(rewards))
    ensures forall d :: d in StakeSet(rewards) ==> d in StakeDests(Stakes(rewards))
  {
    if rewards != [] {
      var n := |rewards| - 1;
      var init, last := rewards[..n], rewards[n];
      assert Stakes(rewards)[..n] == Stakes(init);
      assert StakeDests(Stakes(rewards)) == StakeDests(Stakes(init)) + multiset{last.dest};
      forall d | d in StakeDests(Stakes(init)) ensures StakeDests(Stakes(init))[d] == 1 {
        assert d in StakeDests(Stakes(rewards));
      }
      StakeSetTotal(init);
      assert Rewards(rewards)[..n] == Rewards(init);
      assert StakeDests(Stakes(rewards))[last.dest] == StakeDests(Stakes(init))[last.dest] + 1;
      TotalTake(StakeSet(rewards), last.dest);
      assert StakeSet(rewards) - {last.dest} == StakeSet(init);
    }
  }

  /** Without its last reward a list of promotions is still one with every address once, and that of the last is new. */
  lemma PromotionInit(rewards: seq<PromotionReward>)
    requires Once(Dests(EntriesOf(rewards))) && rewards != []
    ensures var init, last := rewards[..|rewards| - 1], rewards[|rewards| - 1].entry.dest;
            Once(Dests(EntriesOf(init))) && Dests(EntriesOf(rewards)) == Dests(EntriesOf(init)) + multiset{last} &&
            last !in Dests(EntriesOf(init))
  {
    var n := |rewards| - 1;
    var init, last := rewards[..n], rewards[n];
    assert EntriesOf(rewards) == EntriesOf(init) + [last.entry];
    DestsAppend(EntriesOf(init), [last.entry]);
    assert DestList([last.entry]) == [last.entry.dest];
    assert Dests(EntriesOf(rewards))[last.entry.dest] == Dests(EntriesOf(init))[last.entry.dest] + 1;
    forall d | d in Dests(EntriesOf(init)) ensures Dests(EntriesOf(init))[d] == 1 {
      assert d in Dests(EntriesOf(rewards));
    }
  }

  lemma {:induction false} PromotionSetTotal(rewards: seq<PromotionReward>)
    requires Once(Dests(EntriesOf(rewards))) && forall i :: 0 <= i < |rewards| ==> rewards[i].reward >= 0
    ensures Total(PromotionSet(rewards)) == Sum(PromotionRewards(rewards)) && NonNegative(PromotionSet(rewards))
    ensures forall d :: d in PromotionSet(rewards) ==> d in Dests(EntriesOf(rewards))
  {
    if rewards != [] {
      var n := |rewards| - 1;
      var init, last := rewards[..n], rewards[n];
      PromotionInit(rewards);
      PromotionSetTotal(init);
      assert PromotionRewards(rewards)[..n] == PromotionRewards(init);
      TotalTake(PromotionSet(rewards), last.entry.dest);
      assert PromotionSet(rewards) - {last.entry.dest} == PromotionSet(init);
    }
  }

  // ---------------------------------------------------------------- ComputeDeFiSection

  /** The amounts without the erased addresses. */
  function Erase(amounts: seq<Stake>, erased: set<nat>): seq<Stake> {
    if amounts == [] then []
    else Erase(amounts[..|amounts| - 1], erased) + if amounts[|amounts| - 1].dest in erased then [] else [amounts[|amounts| - 1]]
  }

  lemma {:induction false} EraseDests(amounts: seq<Stake>, erased: set<nat>)
    ensures StakeDests(Erase(amounts, erased)) <= StakeDests(amounts)
    ensures forall d :: d in StakeDests(Erase(amounts, erased)) ==> d !in erased
  {
    if amounts != [] {
      var n := |amounts| - 1;
      EraseDests(amounts[..n], erased);
      if amounts[n].dest in erased {
        assert Erase(amounts, erased) == Erase(amounts[..n], erased);
      } else {
        StakeDestsLast(Erase(amounts[..n], erased), amounts[n]);
      }
    }
  }

  function AmountMap(amounts: seq<Stake>): map<nat, nat> {
    if amounts == [] then map[]
    else AmountMap(amounts[..|amounts| - 1])[amounts[|amounts| - 1].dest := Max(0, amounts[|amounts| - 1].amount)]
  }

  lemma PoolsFit(reward: nat, a: nat, b: nat)
    requires a + b <= 100
    ensures reward * a / 100 + reward * b / 100 <= reward
  {
    assert reward * (a + b) == reward * a + reward * b;
    assert reward * (100 - (a + b)) >= 0;
  }

  lemma OnceWithin(a: multiset<nat>, b: multiset<nat>)
    requires Once(b) && a <= b
    ensures Once(a)
  {
    forall d | d in a ensures a[d] == 1 {
      assert d in b;
    }
  }

  /** The parameters of a section that come from the fork's profile. */
  datatype Terms = Terms(stakePercent: nat, promotionPercent: nat, minToken: nat, tiers: seq<Tier>)
  {
    /** What `ValidateOrigin` accepts. */
    predicate Accepted() {
      stakePercent + promotionPercent <= 100 && ValidTiers(tiers)
    }
  }

  /** The stake part of a section. */
  method StakePart(pool: nat, minToken: nat, kept: seq<Stake>, ghost blacklist: set<nat>)
    returns (s: RewardSet, ghost list: seq<StakeReward>)
    requires Once(StakeDests(kept)) && forall d :: d in StakeDests(kept) ==> d !in blacklist
    ensures NonNegative(s) && Total(s) <= pool && forall d :: d in s ==> d !in blacklist
    ensures s == StakeSet(list) && if pool == 0 then list == [] else SharesPool(Eligible(kept, minToken), pool, list)
  {
    var stakes := ComputeStakeReward(minToken, pool, kept);
    EligibleDests(kept, minToken);
    OnceWithin(StakeDests(Stakes(stakes)), StakeDests(kept));
    StakeSetTotal(stakes);
    s, list := StakeSet(stakes), stakes;
  }

  /** The promotion part of a section. */
  method PromotionPart(pool: nat, setting: Setting, forest: seq<Node>)
    returns (s: RewardSet, ghost list: seq<PromotionReward>)
    requires ValidTiers(setting.tiers) && Once(AllKeys(forest))
    ensures NonNegative(s) && Total(s) <= pool && forall d :: d in s ==> d !in setting.blacklist
    ensures s == PromotionSet(list) && if pool == 0 then list == [] else SharesByPower(AllEntries(setting, forest), pool, list)
  {
    var promotions := ComputePromotionReward(setting, pool, forest);
    AllEntriesAreKeys(setting, forest);
    AllEntriesHavePower(setting, forest);
    OnceWithin(Dests(EntriesOf(promotions)), AllKeys(forest));
    SharesAreProper(promotions, pool, AllEntries(setting, forest));
    PromotionSetTotal(promotions);
    PromotionDests(promotions, setting.blacklist);
    s, list := PromotionSet(promotions), promotions;
  }

  lemma SharesAreProper(rewards: seq<PromotionReward>, pool: nat, entries: seq<PowerEntry>)
    requires if pool == 0 then rewards == [] else SharesByPower(entries, pool, rewards)
    ensures forall i :: 0 <= i < |rewards| ==> rewards[i].reward >= 0 && rewards[i].entry == entries[i]
    ensures Sum(PromotionRewards(rewards)) <= pool
    ensures |rewards| <= |entries|
  {
    forall i | 0 <= i < |rewards| ensures rewards[i].reward >= 0 && rewards[i].entry == entries[i] {
      assert PromotionRewards(rewards)[i] == rewards[i].reward;
      assert EntriesOf(rewards)[i] == rewards[i].entry;
    }
  }

  /** The amounts that take part in a section. */
  function TakingPart(amounts: seq<Stake>, unspendable: set<nat>, blacklist: set<nat>): seq<Stake> {
    Erase(Erase(amounts, unspendable), blacklist)
  }

  lemma TakingPartDests(amounts: seq<Stake>, unspendable: set<nat>, blacklist: set<nat>)
    requires Once(StakeDests(amounts))
    ensures var kept := TakingPart(amounts, unspendable, blacklist);
            Once(StakeDests(kept)) && forall d :: d in StakeDests(kept) ==> d !in blacklist
  {
    EraseDests(amounts, unspendable);
    EraseDests(Erase(amounts, unspendable), blacklist);
    OnceWithin(StakeDests(TakingPart(amounts, unspendable, blacklist)), StakeDests(amounts));
  }

  function Pool(reward: nat, percent: nat): nat {
    reward * percent / 100
  }

  /** `ComputeDeFiSection` for a section reward, the amounts at the section block and the relation forest. The stake
      pool is shared by rank, the promotion pool by power, and the two are merged. So every address is rewarded at
      most once, and above the fee; no black-listed address is; and the section never pays more than its reward.
      `unspendable` holds the template addresses that are left out above their height. */
  method ComputeDeFiSection(reward: int, terms: Terms, amounts: seq<Stake>, unspendable: set<nat>, blacklist: set<nat>,
                            forest: seq<Node>)
    returns (s: RewardSet, ghost stakes: seq<StakeReward>, ghost promotions: seq<PromotionReward>)
    requires terms.Accepted() && Once(StakeDests(amounts)) && Once(AllKeys(forest))
    ensures reward <= 0 || amounts == [] ==> s == map[]
    ensures reward > 0 && amounts != [] ==>
              (var pool := Pool(reward, terms.stakePercent);
               var kept := TakingPart(amounts, unspendable, blacklist);
               if pool == 0 then stakes == [] else SharesPool(Eligible(kept, terms.minToken), pool, stakes)) &&
              (var pool := Pool(reward, terms.promotionPercent);
               var setting := Setting(AmountMap(TakingPart(amounts, unspendable, blacklist)), terms.tiers, blacklist);
               if pool == 0 then promotions == [] else SharesByPower(AllEntries(setting, forest), pool, promotions)) &&
              s == Merged(StakeSet(stakes), PromotionSet(promotions), StakeSet(stakes).Keys + PromotionSet(promotions).Keys)
    ensures forall d :: d in s ==> s[d] > NEW_MIN_TX_FEE && d !in blacklist
    ensures Total(s) <= Max(0, reward)
  {
    s, stakes, promotions := map[], [], [];
    if reward > 0 && amounts != [] {
      var kept := TakingPart(amounts, unspendable, blacklist);
      TakingPartDests(amounts, unspendable, blacklist);
      var stakePool, promotionPool := Pool(reward, terms.stakePercent), Pool(reward, terms.promotionPercent);
      PoolsFit(reward, terms.stakePercent, terms.promotionPercent);
      var a, b;
      a, stakes := StakePart(stakePool, terms.minToken, kept, blacklist);
      b, promotions := PromotionPart(promotionPool, Setting(AmountMap(kept), terms.tiers, blacklist), forest);
      s := MergeRewards(a, b);
    }
  }

  lemma {:induction false} PromotionDests(rewards: seq<PromotionReward>, blacklist: set<nat>)
    requires forall i :: 0 <= i < |rewards| ==> rewards[i].entry.dest !in blacklist
    ensures forall d :: d in PromotionSet(rewards) ==> d !in blacklist
  {
    if rewards != [] {
      PromotionDests(rewards[..|rewards| - 1], blacklist);
    }
  }
}
