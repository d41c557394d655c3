/** `ComputePromotionReward`: the promotion power of every address in the relation forest, in the one-pass form
    of the source and in the "remove the maximum, then sum" form of the repository's Python reference, and the
    promotion pool shared by power. */
module DeFiPromotion {
  import opened Common
  import opened SupplyTrack
  import opened DeFiStake

  /** An entry of `mapPromotionTokenTimes`: tokens up to `token` count `times` times. */
  datatype Tier = Tier(token: nat, times: nat)

  predicate ValidTiers(tiers: seq<Tier>) {
    forall i, j :: 0 <= i < j < |tiers| ==> tiers[i].token < tiers[j].token
  }

  // ---------------------------------------------------------------- the power of one child

  /** How often the `x`-th token counts: by the first tier that reaches it, and once above all tiers. */
  function Weight(tiers: seq<Tier>, x: nat): nat {
    if tiers == [] then 1 else if x <= tiers[0].token then tiers[0].times else Weight(tiers[1..], x)
  }

  /** The first `n` tokens, each counted by its tier. */
  function Weighted(tiers: seq<Tier>, n: nat): nat {
    if n == 0 then 0 else Weighted(tiers, n - 1) + Weight(tiers, n)
  }

  lemma {:induction false} WeightIn(tiers: seq<Tier>, i: nat, x: nat)
    requires ValidTiers(tiers) && i <= |tiers|
    requires i > 0 ==> tiers[i - 1].token < x
    requires i < |tiers| ==> x <= tiers[i].token
    ensures Weight(tiers, x) == if i < |tiers| then tiers[i].times else 1
    decreases i
  {
    if i > 0 {
      assert tiers[0].token <= tiers[i - 1].token;
      WeightIn(tiers[1..], i - 1, x);
    }
  }

  lemma {:induction false} WeightedSpan(tiers: seq<Tier>, lo: nat, hi: nat, weight: nat)
    requires lo <= hi && forall x :: lo < x <= hi ==> Weight(tiers, x) == weight
    ensures Weighted(tiers, hi) == Weighted(tiers, lo) + (hi - lo) * weight
    decreases hi - lo
  {
    if lo < hi {
      WeightedSpan(tiers, lo, hi - 1, weight);
      assert (hi - lo) * weight == (hi - 1 - lo) * weight + weight;
    }
  }

  /** Counting on from the end of tier `i - 1` to `hi`, inside tier `i`. */
  lemma TierSpan(tiers: seq<Tier>, i: nat, lo: nat, hi: nat)
    requires ValidTiers(tiers) && i <= |tiers| && lo <= hi
    requires lo == if i == 0 then 0 else tiers[i - 1].token
    requires i < |tiers| ==> hi <= tiers[i].token
    ensures Weighted(tiers, hi) == Weighted(tiers, lo) + (hi - lo) * (if i < |tiers| then tiers[i].times else 1)
  {
    var weight := if i < |tiers| then tiers[i].times else 1;
    forall x | lo < x <= hi ensures Weight(tiers, x) == weight {
      WeightIn(tiers, i, x);
    }
    WeightedSpan(tiers, lo, hi, weight);
  }

  /** The tier loop of `ComputePromotionReward`. */
  method TierPower(tiers: seq<Tier>, n: nat) returns (power: nat)
    requires ValidTiers(tiers)
    ensures power == Weighted(tiers, n)
  {
    var last: nat := 0;
    power := 0;
    for i := 0 to |tiers|
      invariant last == if i == 0 then 0 else tiers[i - 1].token
      invariant last <= n && power == Weighted(tiers, last)
    {
      if n > tiers[i].token {
        TierSpan(tiers, i, last, tiers[i].token);
        power := power + (tiers[i].token - last) * tiers[i].times;
        last := tiers[i].token;
      } else {
        TierSpan(tiers, i, last, n);
        power := power + (n - last) * tiers[i].times;
        return;
      }
    }
    TierSpan(tiers, |tiers|, last, n);
    power := power + (n - last);
  }

  /** The tier loop of the Python reference, which marks the whole tier as used before it leaves the loop. */
  method MockTierPower(tiers: seq<Tier>, n: nat) returns (power: nat)
    requires ValidTiers(tiers)
    ensures power == Weighted(tiers, n)
  {
    var prev: nat := 0;
    power := 0;
    for i := 0 to |tiers|
      invariant prev == if i == 0 then 0 else tiers[i - 1].token
      invariant prev <= n && power == Weighted(tiers, prev)
    {
      if n <= tiers[i].token {
        TierSpan(tiers, i, prev, n);
        power := power + (n - prev) * tiers[i].times;
        prev := tiers[i].token;
        break;
      } else {
        TierSpan(tiers, i, prev, tiers[i].token);
        power := power + (tiers[i].token - prev) * tiers[i].times;
        prev := tiers[i].token;
      }
    }
    if n > prev {
      TierSpan(tiers, |tiers|, prev, n);
      power := power + (n - prev);
    }
  }

  // ---------------------------------------------------------------- the power of one node

  function Cube(x: int): int {
    x * x * x
  }

  lemma CubeIsLarge(x: int)
    requires x > 0
    ensures Cube(x) >= x
  {
    assert x * x >= x;
    assert x * x * x >= x * x;
  }

  /** The first number from `m` up whose successor by a half has a cube above `n`. */
  function CubeRootFrom(n: nat, m: nat): nat
    decreases 8 * n + 1 - m
  {
    if 8 * n < Cube(2 * m + 1) then m
    else
      CubeIsLarge(2 * m + 1);
      CubeRootFrom(n, m + 1)
  }

  /** `llround(pow(n, 1.0 / 3))`, over exact arithmetic. */
  function CubeRoot(n: nat): nat {
    CubeRootFrom(n, 0)
  }

  lemma {:induction false} CubeRootFromIs(n: nat, m: nat)
    requires Cube(2 * m - 1) <= 8 * n
    ensures var r := CubeRootFrom(n, m); Cube(2 * r - 1) <= 8 * n < Cube(2 * r + 1)
    decreases 8 * n + 1 - m
  {
    if 8 * n >= Cube(2 * m + 1) {
      CubeIsLarge(2 * m + 1);
      CubeRootFromIs(n, m + 1);
    }
  }

  /** It is the integer nearest to the cube root: between the cubes half below and half above it lies `n`. */
  lemma CubeRootIs(n: nat)
    ensures var r := CubeRoot(n); Cube(2 * r - 1) <= 8 * n < Cube(2 * r + 1)
  {
    CubeRootFromIs(n, 0);
  }

  function MaxOf(s: seq<nat>): nat
    requires s != []
  {
    if |s| == 1 then s[0] else Max(MaxOf(s[..|s| - 1]), s[|s| - 1])
  }

  function SumWeighted(tiers: seq<Tier>, s: seq<nat>): nat {
    if s == [] then 0 else SumWeighted(tiers, s[..|s| - 1]) + Weighted(tiers, s[|s| - 1])
  }

  /** All children but one of the largest count by the tiers; the largest counts by its cube root. */
  function NodePower(tiers: seq<Tier>, amounts: seq<nat>): int {
    if amounts == [] then 0
    else SumWeighted(tiers, amounts) - Weighted(tiers, MaxOf(amounts)) + CubeRoot(MaxOf(amounts))
  }

  lemma {:induction false} MaxIsCounted(tiers: seq<Tier>, s: seq<nat>)
    requires s != []
    ensures Weighted(tiers, MaxOf(s)) <= SumWeighted(tiers, s)
    ensures MaxOf(s) in s && forall x :: x in s ==> x <= MaxOf(s)
  {
    var n := |s| - 1;
    assert s == s[..n] + [s[n]];
    if n > 0 {
      MaxIsCounted(tiers, s[..n]);
    }
  }

  function SumOf(s: seq<nat>): nat {
    if s == [] then 0 else SumOf(s[..|s| - 1]) + s[|s| - 1]
  }

  /** The one-pass loop of `ComputePromotionReward` over the children's amounts: a running maximum, and at each step
      the smaller of the newcomer and the old maximum is counted. */
  method OnePassPower(tiers: seq<Tier>, amounts: seq<nat>) returns (power: int, sum: nat)
    requires ValidTiers(tiers)
    ensures power == NodePower(tiers, amounts) && sum == SumOf(amounts)
  {
    power, sum := 0, 0;
    if amounts == [] {
      return;
    }
    var max: int := -1;
    for i := 0 to |amounts|
      invariant sum == SumOf(amounts[..i])
      invariant i == 0 ==> max == -1 && power == 0
      invariant i > 0 ==> max == MaxOf(amounts[..i]) && power == SumWeighted(tiers, amounts[..i]) - Weighted(tiers, max)
    {
      assert amounts[..i + 1][..i] == amounts[..i];
      var amount := amounts[i];
      sum := sum + amount;
      var n: int;
      if amount <= max {
        n := amount;
      } else {
        n := max;
        max := amount;
      }
      if n < 0 {
        continue;
      }
      var child := TierPower(tiers, n);
      power := power + child;
    }
    assert amounts[..|amounts|] == amounts;
    power := power + CubeRoot(max);
  }

  // ---------------------------------------------------------------- the reference's form

  /** `list.remove`: without the first occurrence. */
  function Without(s: seq<nat>, x: nat): seq<nat> {
    if s == [] then [] else if s[0] == x then s[1..] else [s[0]] + Without(s[1..], x)
  }

  lemma {:induction false} SumWeightedFront(tiers: seq<Tier>, x: nat, s: seq<nat>)
    ensures SumWeighted(tiers, [x] + s) == Weighted(tiers, x) + SumWeighted(tiers, s)
  {
    if s != [] {
      var n := |s| - 1;
      SumWeightedFront(tiers, x, s[..n]);
      assert ([x] + s)[..n + 1] == [x] + s[..n];
    }
  }

  lemma {:induction false} WithoutSums(tiers: seq<Tier>, s: seq<nat>, x: nat)
    requires x in s
    ensures SumWeighted(tiers, Without(s, x)) == SumWeighted(tiers, s) - Weighted(tiers, x)
  {
    assert s == [s[0]] + s[1..];
    SumWeightedFront(tiers, s[0], s[1..]);
    if s[0] != x {
      WithoutSums(tiers, s[1..], x);
      SumWeightedFront(tiers, s[0], Without(s[1..], x));
    }
  }

  /** The Python reference: take the maximum out of the list, then sum. It agrees with the one-pass loop. */
  method MockPower(tiers: seq<Tier>, amounts: seq<nat>) returns (power: int)
    requires ValidTiers(tiers)
    ensures power == NodePower(tiers, amounts)
  {
    power := 0;
    if amounts == [] {
      return;
    }
    var max := MaxOf(amounts);
    MaxIsCounted(tiers, amounts);
    WithoutSums(tiers, amounts, max);
    var rest := Without(amounts, max);
    power := power + CubeRoot(max);
    for i := 0 to |rest|
      invariant power == CubeRoot(max) + SumWeighted(tiers, rest[..i])
    {
      assert rest[..i + 1][..i] == rest[..i];
      var child := MockTierPower(tiers, rest[i]);
      power := power + child;
    }
    assert rest[..|rest|] == rest;
  }

  // ---------------------------------------------------------------- the relation forest

  datatype Node = Node(key: nat, children: seq<Node>)

  /** Stakes by address, promotion tiers and black-listed addresses. */
  datatype Setting = Setting(stakes: map<nat, nat>, tiers: seq<Tier>, blacklist: set<nat>)
  {
    /** An address's own whole coins. */
    function Own(key: nat): nat {
      if key in stakes then stakes[key] / COIN else 0
    }
  }

  /** The total of a subtree, a black-listed address cutting its whole subtree off. */
  function Amount(g: Setting, n: Node): nat
    decreases n, 1
  {
    if n.key in g.blacklist then 0 else g.Own(n.key) + SumOf(Amounts(g, n.children))
  }

  function Amounts(g: Setting, nodes: seq<Node>): (r: seq<nat>)
    ensures |r| == |nodes|
    decreases nodes, 0
  {
    if nodes == [] then [] else Amounts(g, nodes[..|nodes| - 1]) + [Amount(g, nodes[|nodes| - 1])]
  }

  /** The promotion power of an address. */
  function Power(g: Setting, n: Node): int {
    if n.key in g.blacklist then 0 else NodePower(g.tiers, Amounts(g, n.children))
  }

  datatype PowerEntry = PowerEntry(dest: nat, own: nat, amount: nat, power: nat)

  /** The addresses with power, children before their parent. */
  function Entries(g: Setting, n: Node): seq<PowerEntry>
    decreases n, 1
  {
    AllEntries(g, n.children) + OwnEntry(g, n)
  }

  function OwnEntry(g: Setting, n: Node): seq<PowerEntry> {
    if Power(g, n) > 0 then [PowerEntry(n.key, g.Own(n.key), Amount(g, n), Power(g, n))] else []
  }

  function AllEntries(g: Setting, nodes: seq<Node>): seq<PowerEntry>
    decreases nodes, 0
  {
    if nodes == [] then [] else AllEntries(g, nodes[..|nodes| - 1]) + Entries(g, nodes[|nodes| - 1])
  }

  /** The entry of one address once its children are done. */
  method VisitNode(g: Setting, n: Node, amounts: seq<nat>, below: seq<PowerEntry>) returns (amount: nat, entries: seq<PowerEntry>)
    requires ValidTiers(g.tiers) && amounts == Amounts(g, n.children) && below == AllEntries(g, n.children)
    ensures amount == Amount(g, n) && entries == Entries(g, n)
  {
    if n.key in g.blacklist {
      return 0, below;
    }
    var power, sum := OnePassPower(g.tiers, amounts);
    amount, entries := g.Own(n.key) + sum, below;
    if power > 0 {
      entries := entries + [PowerEntry(n.key, g.Own(n.key), amount, power)];
    }
  }

  /** The post-order walk over one tree. */
  method WalkTree(g: Setting, n: Node) returns (amount: nat, entries: seq<PowerEntry>)
    requires ValidTiers(g.tiers)
    ensures amount == Amount(g, n) && entries == Entries(g, n)
    decreases n, 1
  {
    var amounts, below := WalkForest(g, n.children);
    amount, entries := VisitNode(g, n, amounts, below);
  }

  method WalkForest(g: Setting, nodes: seq<Node>) returns (amounts: seq<nat>, entries: seq<PowerEntry>)
    requires ValidTiers(g.tiers)
    ensures amounts == Amounts(g, nodes) && entries == AllEntries(g, nodes)
    decreases nodes, 0
  {
    amounts, entries := [], [];
    for i := 0 to |nodes|
      invariant amounts == Amounts(g, nodes[..i]) && entries == AllEntries(g, nodes[..i])
    {
      assert nodes[..i + 1][..i] == nodes[..i];
      var amount, more := WalkTree(g, nodes[i]);
      amounts, entries := amounts + [amount], entries + more;
    }
    assert nodes[..|nodes|] == nodes;
  }

  // ---------------------------------------------------------------- no address twice

  function Keys(n: Node): multiset<nat>
    decreases n, 1
  {
    AllKeys(n.children) + multiset{n.key}
  }

  function AllKeys(nodes: seq<Node>): multiset<nat>
    decreases nodes, 0
  {
    if nodes == [] then multiset{} else AllKeys(nodes[..|nodes| - 1]) + Keys(nodes[|nodes| - 1])
  }

  function DestList(entries: seq<PowerEntry>): seq<nat> {
    seq(|entries|, i requires 0 <= i < |entries| => entries[i].dest)
  }

  function Dests(entries: seq<PowerEntry>): multiset<nat> {
    multiset(DestList(entries))
  }

  lemma DestsAppend(a: seq<PowerEntry>, b: seq<PowerEntry>)
    ensures Dests(a + b) == Dests(a) + Dests(b)
  {
    assert DestList(a + b) == DestList(a) + DestList(b);
  }

  lemma {:induction false} EntriesAreKeys(g: Setting, n: Node)
    ensures Dests(Entries(g, n)) <= Keys(n)
    decreases n, 1
  {
    AllEntriesAreKeys(g, n.children);
    OwnEntryIsKey(g, n);
    DestsAppend(AllEntries(g, n.children), OwnEntry(g, n));
  }

  lemma OwnEntryIsKey(g: Setting, n: Node)
    ensures Dests(OwnEntry(g, n)) <= multiset{n.key}
  {
    assert Power(g, n) > 0 ==> DestList(OwnEntry(g, n)) == [n.key];
  }

  lemma {:induction false} AllEntriesAreKeys(g: Setting, nodes: seq<Node>)
    ensures Dests(AllEntries(g, nodes)) <= AllKeys(nodes)
    decreases nodes, 0
  {
    if nodes != [] {
      var n := |nodes| - 1;
      AllEntriesAreKeys(g, nodes[..n]);
      EntriesAreKeys(g, nodes[n]);
      DestsAppend(AllEntries(g, nodes[..n]), Entries(g, nodes[n]));
    }
  }

  // ---------------------------------------------------------------- ComputePromotionReward

  datatype PromotionReward = PromotionReward(entry: PowerEntry, reward: int)

  function Powers(entries: seq<PowerEntry>): seq<nat> {
    seq(|entries|, i requires 0 <= i < |entries| => entries[i].power)
  }

  function EntriesOf(s: seq<PromotionReward>): seq<PowerEntry> {
    seq(|s|, i requires 0 <= i < |s| => s[i].entry)
  }

  function PromotionRewards(s: seq<PromotionReward>): seq<int> {
    seq(|s|, i requires 0 <= i < |s| => s[i].reward)
  }

  /** The last loop of `ComputePromotionReward`: the pool is shared by power and never exceeded. */
  method ShareByPower(pool: nat, entries: seq<PowerEntry>, total: nat) returns (rewards: seq<PromotionReward>)
    requires total > 0 && total == Sum(Powers(entries))
    ensures EntriesOf(rewards) == entries && AreShares(pool, total, Powers(entries), PromotionRewards(rewards))
    ensures pool - |rewards| <= Sum(PromotionRewards(rewards)) <= pool
  {
    rewards := [];
    for i := 0 to |entries|
      invariant |rewards| == i
      invariant forall k :: 0 <= k < i ==> rewards[k] == PromotionReward(entries[k], Share(pool, total, entries[k].power))
    {
      var share := ComputeShare(pool, total, entries[i].power);
      rewards := rewards + [PromotionReward(entries[i], share)];
    }
    assert EntriesOf(rewards) == entries;
    PoolIsShared(pool, Powers(entries), PromotionRewards(rewards));
  }

  method TotalPower(entries: seq<PowerEntry>) returns (total: nat)
    requires forall i :: 0 <= i < |entries| ==> entries[i].power > 0
    ensures total == Sum(Powers(entries)) && (entries != [] ==> total > 0)
  {
    total := 0;
    for i := 0 to |entries|
      invariant total == Sum(Powers(entries)[..i]) && total >= i
    {
      assert Powers(entries)[..i + 1][..i] == Powers(entries)[..i];
      total := total + entries[i].power;
    }
    assert Powers(entries)[..|entries|] == Powers(entries);
  }

  /** What `ComputePromotionReward` promises: the addresses with power, each with its power and subtree total, share
      the pool by power; it is never exceeded. */
  ghost predicate SharesByPower(entries: seq<PowerEntry>, pool: nat, rewards: seq<PromotionReward>) {
    EntriesOf(rewards) == entries && Sum(PromotionRewards(rewards)) <= pool &&
    (entries != [] ==> Sum(Powers(entries)) > 0 && AreShares(pool, Sum(Powers(entries)), Powers(entries), PromotionRewards(rewards)))
  }

  /** `ComputePromotionReward`. */
  method ComputePromotionReward(g: Setting, pool: nat, forest: seq<Node>) returns (rewards: seq<PromotionReward>)
    requires ValidTiers(g.tiers)
    ensures if pool == 0 then rewards == [] else SharesByPower(AllEntries(g, forest), pool, rewards)
  {
    rewards := [];
    if pool > 0 {
      var amounts, entries := WalkForest(g, forest);
      AllEntriesHavePower(g, forest);
      var total := TotalPower(entries);
      if total > 0 {
        rewards := ShareByPower(pool, entries, total);
      }
    }
  }

  /** Only addresses with power, and no black-listed one, are entered. */
  lemma {:induction false} EntriesHavePower(g: Setting, n: Node)
    ensures forall i :: 0 <= i < |Entries(g, n)| ==> Entries(g, n)[i].power > 0 && Entries(g, n)[i].dest !in g.blacklist
    decreases n, 1
  {
    AllEntriesHavePower(g, n.children);
  }

  lemma {:induction false} AllEntriesHavePower(g: Setting, nodes: seq<Node>)
    ensures forall i :: 0 <= i < |AllEntries(g, nodes)| ==>
              AllEntries(g, nodes)[i].power > 0 && AllEntries(g, nodes)[i].dest !in g.blacklist
    decreases nodes, 0
  {
    if nodes != [] {
      AllEntriesHavePower(g, nodes[..|nodes| - 1]);
      EntriesHavePower(g, nodes[|nodes| - 1]);
    }
  }
}
