/** Paying DeFi rewards over many blocks. Each reward cycle ends with a section block; the section's reward list
    becomes due above it and is paid out page by page, one transaction per reward, by the blocks that follow.
    `GetDeFiSectionList` and `GetDeFiReward` recompute from the chain alone what is still to be paid, and
    `AddNewBlock` accepts a block only when it pays exactly that.

    The reward list of a section block is taken as given; how it is computed is in DeFiSection.dfy. */
module RewardPaging {
  import opened Common
  import opened Arithmetic
  import opened PagedPayment

  datatype Kind = Origin | Vacant | Normal | Extended

  /** An entry of a section's reward list. */
  datatype Reward = Reward(dest: nat, reward: int)

  /** A block of a DeFi fork on top of the chain below it. */
  datatype Block =
    | Bottom
    | Block(hash: nat, prev: Block, kind: Kind, height: nat, supply: int, vtx: seq<Tx>)

  /** A DeFi fork: the last height of the reward cycle before that of a height, the height of the origin block, the
      maximum supply, and the reward list of each section block in the order in which it is paid. */
  datatype Fork = Fork(prevReward: int -> int, originHeight: nat, maxSupply: int, list: nat -> seq<Reward>)
  {
    /** The heights at which a reward cycle ends. */
    predicate IsSection(height: int) {
      prevReward(height + 1) == height
    }

    /** Going up by one height, the previous reward height changes just when a section height is passed. */
    predicate StepsAt(height: nat) {
      prevReward(height) < height && (IsSection(height) || prevReward(height + 1) == prevReward(height)) &&
      (IsSection(height) ==> height > 0)
    }

    ghost predicate Valid() {
      (forall h: nat :: StepsAt(h)) && forall h :: ProperList(list(h))
    }

    /** Whether a section may still be rewarded: the supply at its block is below the maximum. */
    predicate Allowed(b: Block) {
      b.Block? && (maxSupply < 0 || b.supply < maxSupply)
    }
  }

  /** No address twice in a reward list; it is sorted by reward, largest first. */
  predicate ProperList(list: seq<Reward>) {
    (forall i, j :: 0 <= i < j < |list| ==> list[i].dest != list[j].dest) &&
    (forall i, j :: 0 <= i < j < |list| ==> list[i].reward >= list[j].reward)
  }

  // ---------------------------------------------------------------- reward cycles

  /** The part of a fork's profile that fixes its reward cycles. */
  datatype Profile = Profile(mintHeight: int, jointHeight: nat, cycle: int)
  {
    function Mint(): int {
      if mintHeight == 0 then jointHeight + 2 else mintHeight
    }

    /** What `ValidateOrigin` accepts. */
    predicate Accepted() {
      cycle > 0 && (mintHeight > 0 ==> mintHeight >= jointHeight + 2)
    }

    predicate IsMinted(height: int) {
      mintHeight >= 0 && height >= Mint()
    }

    /** `CDeFiForkReward::PrevRewardHeight`. */
    function PrevRewardHeight(height: int): int {
      if cycle > 0 && IsMinted(height) then (height - Mint()) / cycle * cycle + Mint() - 1 else -1
    }
  }

  /** `PrevRewardHeight` counts reward cycles as a fork needs: it steps at section heights only. */
  lemma PrevRewardHeightSteps(p: Profile, f: Fork, height: nat)
    requires p.Accepted() && f.prevReward == (h => p.PrevRewardHeight(h))
    ensures f.StepsAt(height)
    ensures !p.IsMinted(height) ==> f.prevReward(height) == -1
  {
    if p.IsMinted(height) {
      var x := height - p.Mint();
      DivStep(x, p.cycle);
      DivFacts(x, p.cycle);
      DivFacts(x + 1, p.cycle);
    } else if p.IsMinted(height + 1) {
      assert (height + 1 - p.Mint()) / p.cycle * p.cycle == 0;
    }
  }

  // ---------------------------------------------------------------- chains

  function Hashes(c: Block): set<nat> {
    if c.Bottom? then {} else Hashes(c.prev) + {c.hash}
  }

  /** A chain of one fork: it starts at the origin, an extended block shares the height of the block below it and every
      other block adds one, and hashes are distinct and not zero. A block adds its mint amount less its fees to the supply.
      On a DeFi fork the mint reward is zero, so that never is positive, and a vacant block adds nothing. */
  predicate IsChain(f: Fork, c: Block) {
    c.Block? && c.hash != 0 &&
    if c.kind.Origin? then c.prev.Bottom? && c.height == f.originHeight
    else IsChain(f, c.prev) && c.hash !in Hashes(c.prev) && c.supply <= c.prev.supply &&
         (c.kind.Vacant? ==> c.supply == c.prev.supply) &&
         c.height == c.prev.height + if c.kind.Extended? then 0 else 1
  }

  /** The section blocks of a chain with heights below `limit`, oldest first: at each section height the last block. */
  function Sections(f: Fork, c: Block, limit: int): seq<Block> {
    if c.Bottom? then []
    else Sections(f, c.prev, c.height) + if f.IsSection(c.height) && c.height < limit then [c] else []
  }

  function ItemsOf(f: Fork, b: Block): seq<Item> {
    if !f.Allowed(b) then []
    else Tagged(b.hash, f.list(b.hash))
  }

  /** The entries of a reward list, with the section they belong to. */
  function Tagged(hash: nat, list: seq<Reward>): (items: seq<Item>)
    ensures |items| == |list|
    ensures forall i :: 0 <= i < |list| ==> items[i] == Item(hash, list[i].dest, list[i].reward)
  {
    if list == [] then [] else [Item(hash, list[0].dest, list[0].reward)] + Tagged(hash, list[1..])
  }

  /** The rewards of a list of sections, in order. */
  function Items(f: Fork, sections: seq<Block>): seq<Item> {
    if sections == [] then [] else ItemsOf(f, sections[0]) + Items(f, sections[1..])
  }

  /** Everything that is due, or was, to a block at height `height` on top of `c`. */
  function DueAbove(f: Fork, c: Block, height: int): seq<Item> {
    Items(f, Sections(f, c, height))
  }

  /** The blocks of a chain as pages of the growing list of rewards. */
  function PagesOf(f: Fork, c: Block): Pages {
    if c.Bottom? || c.kind.Origin? then Start
    else Then(PagesOf(f, c.prev), DueAbove(f, c.prev, c.height), c.kind.Vacant?, c.vtx)
  }

  lemma {:induction false} ItemsAppend(f: Fork, a: seq<Block>, b: seq<Block>)
    ensures Items(f, a + b) == Items(f, a) + Items(f, b)
    decreases |a|
  {
    if a == [] {
      assert a + b == b;
    } else {
      ItemsAppend(f, a[1..], b);
      ItemsAppendStep(f, a, b);
    }
  }

  lemma ItemsAppendStep(f: Fork, a: seq<Block>, b: seq<Block>)
    requires a != [] && Items(f, a[1..] + b) == Items(f, a[1..]) + Items(f, b)
    ensures Items(f, a + b) == Items(f, a) + Items(f, b)
  {
    HeadOfAppend(a, b);
    Associates(ItemsOf(f, a[0]), Items(f, a[1..]), Items(f, b));
  }

  lemma HeadOfAppend<T>(a: seq<T>, b: seq<T>)
    requires a != []
    ensures a + b != [] && (a + b)[0] == a[0] && (a + b)[1..] == a[1..] + b
  {
  }

  lemma Associates<T>(a: seq<T>, b: seq<T>, c: seq<T>)
    ensures a + (b + c) == (a + b) + c
  {
  }

  /** What was due to a block is the front of what is due above it. */
  lemma DueGrows(f: Fork, c: Block, height: int)
    requires c.Block?
    ensures DueAbove(f, c.prev, c.height) <= DueAbove(f, c, height)
  {
    ItemsAppend(f, Sections(f, c.prev, c.height), if f.IsSection(c.height) && c.height < height then [c] else []);
  }

  lemma {:induction false} PagesGrow(f: Fork, c: Block)
    requires IsChain(f, c)
    ensures Grows(PagesOf(f, c))
    ensures Due(PagesOf(f, c)) == DueAbove(f, c.prev, c.height)
  {
    if !c.kind.Origin? {
      PagesGrow(f, c.prev);
      DueGrows(f, c.prev, c.height);
    }
  }

  lemma ItemsOne(f: Fork, b: Block)
    ensures Items(f, [b]) == ItemsOf(f, b)
  {
    assert [b][1..] == [];
  }

  lemma NoneTwiceJoin(a: seq<Item>, b: seq<Item>, hashes: set<nat>, hash: nat)
    requires NoneTwice(a) && NoneTwice(b) && hash !in hashes
    requires (forall x :: x in a ==> x.anchor in hashes) && forall x :: x in b ==> x.anchor == hash
    ensures NoneTwice(a + b) && forall x :: x in a + b ==> x.anchor in hashes + {hash}
  {
    forall i, j | 0 <= i < j < |a + b|
      ensures !((a + b)[i].anchor == (a + b)[j].anchor && (a + b)[i].dest == (a + b)[j].dest)
    {
      if i < |a| <= j {
        assert a[i] in a && b[j - |a|] in b;
      }
    }
  }

  lemma NoneTwiceInSection(f: Fork, b: Block)
    requires f.Valid() && b.Block?
    ensures NoneTwice(ItemsOf(f, b)) && forall x :: x in ItemsOf(f, b) ==> x.anchor == b.hash
  {
    assert ProperList(f.list(b.hash));
  }

  /** On a chain no reward is due twice. */
  lemma {:induction false} NothingDueTwice(f: Fork, c: Block, limit: int)
    requires f.Valid() && (c.Block? ==> IsChain(f, c))
    ensures NoneTwice(DueAbove(f, c, limit))
    ensures forall x :: x in DueAbove(f, c, limit) ==> x.anchor in Hashes(c)
  {
    if c.Block? {
      NothingDueTwice(f, c.prev, c.height);
      if f.IsSection(c.height) && c.height < limit {
        ItemsAppend(f, Sections(f, c.prev, c.height), [c]);
        ItemsOne(f, c);
        NoneTwiceInSection(f, c);
        NoneTwiceJoin(DueAbove(f, c.prev, c.height), ItemsOf(f, c), Hashes(c.prev), c.hash);
      } else {
        assert Sections(f, c, limit) == Sections(f, c.prev, c.height);
      }
    }
  }

  /** The main result for a chain of blocks: on every accepted chain no reward of a section is paid twice to an address.
      The rewards paid are in order a prefix of the concatenated section lists if and only if none is paid after a block
      that stayed empty, without being vacant, while rewards were pending; and they are all of the settled ones if and
      only if there is no such block. */
  lemma ChainPaysInOrder(f: Fork, c: Block)
    requires f.Valid() && IsChain(f, c) && IsAccepted(PagesOf(f, c))
    ensures var p, due := PagesOf(f, c), DueAbove(f, c.prev, c.height);
            NoneTwice(Paid(p)) && Settled(p) <= |due| &&
            (Paid(p) <= due <==> SilentAfterIdle(p)) && (Paid(p) == due[..Settled(p)] <==> NeverIdle(p))
  {
    PagesGrow(f, c);
    NothingDueTwice(f, c.prev, c.height);
    NoRewardTwice(PagesOf(f, c));
    PaidInOrder(PagesOf(f, c));
    PaidIsPrefixExactly(PagesOf(f, c));
  }

  // ---------------------------------------------------------------- walking down the chain

  predicate OnChain(b: Block, c: Block) {
    c.Block? && (b == c || OnChain(b, c.prev))
  }

  function Find(c: Block, hash: nat): Block {
    if c.Bottom? || c.hash == hash then c else Find(c.prev, hash)
  }

  /** The limits below which `Sections` looks when it comes to a block. */
  predicate Follows(limit: int, c: Block) {
    c.Block? ==> limit == c.height || limit == c.height + 1
  }

  /** One block further down: the block is a section below the limit just when it stands at the previous reward height. */
  lemma Peel(f: Fork, c: Block, limit: int)
    requires f.Valid() && c.Block? && Follows(limit, c)
    ensures if f.prevReward(limit) == c.height then Sections(f, c, limit) == Sections(f, c.prev, c.height) + [c]
            else Sections(f, c, limit) == Sections(f, c.prev, c.height) && f.prevReward(c.height) == f.prevReward(limit)
  {
    assert f.StepsAt(c.height);
  }

  lemma {:induction false} NoSections(f: Fork, c: Block, limit: int)
    requires f.Valid() && (c.Block? ==> IsChain(f, c)) && Follows(limit, c) && f.prevReward(limit) <= 0
    ensures Sections(f, c, limit) == []
  {
    if c.Block? {
      Peel(f, c, limit);
      assert f.StepsAt(c.height);
      NoSections(f, c.prev, c.height);
    }
  }

  lemma {:induction false} FindOnChain(f: Fork, c: Block, b: Block)
    requires IsChain(f, c) && OnChain(b, c)
    ensures b.Block? && b.hash in Hashes(c) && Find(c, b.hash) == b && IsChain(f, b)
  {
    if b != c {
      FindOnChain(f, c.prev, b);
    }
  }

  /** The sections before the `j`-th one are the sections below its block. */
  lemma {:induction false} SectionsSplit(f: Fork, c: Block, limit: int, j: nat)
    requires j < |Sections(f, c, limit)|
    ensures var q := Sections(f, c, limit)[j];
            OnChain(q, c) && q.Block? && Sections(f, c, limit)[..j] == Sections(f, q.prev, q.height)
  {
    var below := Sections(f, c.prev, c.height);
    if j < |below| {
      SectionsSplit(f, c.prev, c.height, j);
      assert Sections(f, c, limit)[..j] == below[..j];
      assert Sections(f, c, limit)[j] == below[j];
    }
  }

  /** Later sections of a chain have no larger supply. */
  predicate SuppliesFall(sections: seq<Block>) {
    forall i, j :: 0 <= i < j < |sections| ==> sections[i].Block? && sections[j].Block? && sections[i].supply >= sections[j].supply
  }

  lemma {:induction false} SectionsSupplies(f: Fork, c: Block, limit: int)
    requires c.Block? ==> IsChain(f, c)
    ensures SuppliesFall(Sections(f, c, limit))
    ensures forall i :: 0 <= i < |Sections(f, c, limit)| ==>
              c.Block? && Sections(f, c, limit)[i].Block? && Sections(f, c, limit)[i].supply >= c.supply
  {
    if c.Block? {
      SectionsSupplies(f, c.prev, c.height);
    }
  }

  /** No section that is allowed follows one that is not. */
  predicate AllowedFirst(f: Fork, sections: seq<Block>) {
    forall i, j :: 0 <= i < j < |sections| && f.Allowed(sections[j]) ==> f.Allowed(sections[i])
  }

  /** Where the `k`-th reward of a list of sections comes from. */
  lemma {:induction false} Locate(f: Fork, sections: seq<Block>, k: nat) returns (j: nat, i: nat)
    requires k < |Items(f, sections)|
    ensures j < |sections| && i < |ItemsOf(f, sections[j])| && k == |Items(f, sections[..j])| + i
    ensures Items(f, sections)[k] == ItemsOf(f, sections[j])[i]
    decreases |sections|
  {
    var first := |ItemsOf(f, sections[0])|;
    if k < first {
      j, i := 0, k;
    } else {
      j, i := Locate(f, sections[1..], k - first);
      j := j + 1;
      assert sections[..j][1..] == sections[1..][..j - 1];
    }
  }

  /** Sections that are not allowed have no rewards, so dropping a tail of them changes nothing. */
  lemma {:induction false} ItemsOfDropped(f: Fork, sections: seq<Block>)
    requires forall i :: 0 <= i < |sections| ==> !f.Allowed(sections[i])
    ensures Items(f, sections) == []
  {
    if sections != [] {
      ItemsOfDropped(f, sections[1..]);
    }
  }

  lemma TailNotAllowed(f: Fork, list: seq<Block>, i: nat)
    requires AllowedFirst(f, list) && i < |list| && !f.Allowed(list[i])
    ensures forall k :: 0 <= k < |list[i..]| ==> !f.Allowed(list[i..][k])
  {
    forall k | 0 <= k < |list[i..]| ensures !f.Allowed(list[i..][k]) {
      assert list[i..][k] == list[i + k];
    }
  }

  lemma CutKeepsItems(f: Fork, list: seq<Block>, i: nat)
    requires AllowedFirst(f, list) && i < |list| && !f.Allowed(list[i])
    ensures Items(f, list[..i]) == Items(f, list)
  {
    TailNotAllowed(f, list, i);
    ItemsOfDropped(f, list[i..]);
    ItemsAppendNone(f, list[..i], list[i..]);
    SplitAt(list, i);
  }

  lemma SplitAt(list: seq<Block>, i: nat)
    requires i <= |list|
    ensures list[..i] + list[i..] == list
  {
  }

  lemma ItemsAppendNone(f: Fork, a: seq<Block>, b: seq<Block>)
    requires Items(f, b) == []
    ensures Items(f, a + b) == Items(f, a)
  {
    ItemsAppend(f, a, b);
  }

  /** The filter of `GetDeFiSectionList`: the list is cut at the first section whose supply has reached the maximum. A
      section that is cached passed this test before. */
  method CutAtMaxSupply(f: Fork, list: seq<Block>, cached: set<nat>) returns (sections: seq<Block>)
    requires AllowedFirst(f, list) && forall b :: b in list ==> b.Block?
    requires forall i :: 0 <= i < |list| && list[i].hash in cached ==> f.Allowed(list[i])
    ensures sections <= list && Items(f, sections) == Items(f, list)
    ensures forall i :: 0 <= i < |sections| ==> f.Allowed(sections[i])
    ensures |sections| < |list| ==> !f.Allowed(list[|sections|])
  {
    for i := 0 to |list|
      invariant forall k :: 0 <= k < i ==> f.Allowed(list[k])
    {
      if list[i].hash !in cached {
        if f.maxSupply >= 0 && list[i].supply >= f.maxSupply {
          sections := list[..i];
          CutKeepsItems(f, list, i);
          return;
        }
      }
    }
    sections := list;
  }

  // ---------------------------------------------------------------- GetDeFiSectionList

  predicate SameSupply(list: seq<Block>, p: Block)
    requires p.Block?
  {
    forall i :: 0 <= i < |list| ==> list[i].Block? && list[i].supply == p.supply
  }

  /** The chain is walked down to `p`: nothing is settled in between, the sections from there on are listed, and as only
      vacant blocks were passed the supply is still the same. */
  ghost predicate WalkedTo(f: Fork, c: Block, height: int, p: Block, list: seq<Block>, prevHeight: int) {
    IsChain(f, p) && IsAccepted(PagesOf(f, p)) && prevHeight == f.prevReward(p.height) &&
    Settled(PagesOf(f, p)) == Settled(PagesOf(f, c)) && Sections(f, c, height) == Sections(f, p.prev, p.height) + list &&
    SameSupply(list, p)
  }

  lemma VacantSettlesNothing(f: Fork, p: Block)
    requires IsChain(f, p) && p.kind.Vacant? && IsAccepted(PagesOf(f, p))
    ensures IsChain(f, p.prev) && IsAccepted(PagesOf(f, p.prev)) && p.height == p.prev.height + 1
    ensures Settled(PagesOf(f, p.prev)) == Settled(PagesOf(f, p))
  {
  }

  lemma WalkOverVacant(f: Fork, c: Block, height: int, p: Block, list: seq<Block>, prevHeight: int)
    requires f.Valid() && WalkedTo(f, c, height, p, list, prevHeight) && p.kind.Vacant?
    ensures if p.height == prevHeight + 1 then WalkedTo(f, c, height, p.prev, [p.prev] + list, f.prevReward(prevHeight))
            else WalkedTo(f, c, height, p.prev, list, prevHeight)
  {
    VacantSettlesNothing(f, p);
    Peel(f, p.prev, p.height);
    Associates(Sections(f, p.prev.prev, p.prev.height), [p.prev], list);
  }

  /** The first test and the second loop: down over the vacant blocks, collecting the sections they left unpaid. */
  method SkipVacant(f: Fork, c: Block, height: int) returns (p: Block, list: seq<Block>, prevHeight: int)
    requires f.Valid() && IsChain(f, c) && Follows(height, c) && IsAccepted(PagesOf(f, c))
    ensures WalkedTo(f, c, height, p, list, prevHeight) && !p.kind.Vacant?
  {
    prevHeight := f.prevReward(height);
    list := [];
    Peel(f, c, height);
    if c.height == prevHeight {
      list := [c] + list;
      prevHeight := f.prevReward(c.height);
    }
    p := c;
    while p.kind.Vacant?
      invariant WalkedTo(f, c, height, p, list, prevHeight)
      decreases p
    {
      WalkOverVacant(f, c, height, p, list, prevHeight);
      if p.height == prevHeight + 1 {
        list := [p.prev] + list;
        prevHeight := f.prevReward(prevHeight);
      }
      p := p.prev;
    }
  }

  /** The third loop: from the last block that paid down to the section `q` it paid last. */
  method CollectDownTo(f: Fork, start: Block, q: Block, prevIn: int, listIn: seq<Block>) returns (list: seq<Block>)
    requires f.Valid() && IsChain(f, start) && OnChain(q, start.prev) && prevIn == f.prevReward(start.height)
    ensures q.Block? && Sections(f, start.prev, start.height) + listIn == Sections(f, q.prev, q.height) + list
  {
    FindOnChain(f, start.prev, q);
    var p, prevHeight := start, prevIn;
    list := listIn;
    ghost var limit := start.height;
    ghost var whole := Sections(f, start.prev, start.height) + listIn;
    Peel(f, start, limit);
    assert f.StepsAt(start.height);
    while p != q.prev
      invariant OnChain(q, p) || (p == q.prev && limit == q.height)
      invariant (p.Block? ==> IsChain(f, p)) && Follows(limit, p) && prevHeight == f.prevReward(limit)
      invariant whole == Sections(f, p, limit) + list
      decreases p
    {
      Peel(f, p, limit);
      ghost var below := Sections(f, p.prev, p.height);
      if p.height == prevHeight {
        Associates(below, [p], list);
        list := [p] + list;
        prevHeight := f.prevReward(p.height);
      }
      limit := p.height;
      p := p.prev;
    }
    NotAboveItself(q);
  }

  lemma {:induction false} NotAboveItself(b: Block)
    ensures b.Block? ==> !OnChain(b, b.prev)
  {
    if b.Block? && OnChain(b, b.prev) {
      ChainIsSmaller(b, b.prev);
    }
  }

  function Depth(c: Block): nat {
    if c.Bottom? then 0 else 1 + Depth(c.prev)
  }

  lemma {:induction false} ChainIsSmaller(b: Block, c: Block)
    requires OnChain(b, c)
    ensures Depth(b) <= Depth(c)
  {
    if b != c {
      ChainIsSmaller(b, c.prev);
    }
  }

  /** The place of an address in a reward list. */
  function PositionOf(list: seq<Reward>, dest: nat): nat {
    if list == [] || list[0].dest == dest then 0 else 1 + PositionOf(list[1..], dest)
  }

  lemma {:induction false} PositionIs(list: seq<Reward>, i: nat)
    requires ProperList(list) && i < |list|
    ensures PositionOf(list, list[i].dest) == i
  {
    if i > 0 {
      assert list[0].dest != list[i].dest;
      PositionIs(list[1..], i - 1);
    }
  }

  /** What a list of sections leaves to be paid when `last` was the last reward paid, and belongs to the first section
      listed when that is `lastSection`. */
  function Left(f: Fork, sections: seq<Block>, lastSection: nat, last: Reward): seq<Item> {
    if sections != [] && sections[0].Block? && sections[0].hash == lastSection then
      var items, k := ItemsOf(f, sections[0]), PositionOf(f.list(lastSection), last.dest) + 1;
      (if k <= |items| then items[k..] else []) + Items(f, sections[1..])
    else Items(f, sections)
  }

  /** The sections are distinct and allowed; and `last` is an entry of the first one, when that was paid last. */
  ghost predicate Resumes(f: Fork, sections: seq<Block>, lastSection: nat, last: Reward) {
    (forall i :: 0 <= i < |sections| ==> sections[i].Block? && f.Allowed(sections[i])) &&
    (forall i :: 0 < i < |sections| ==> sections[i].hash != lastSection) &&
    (sections != [] && sections[0].hash == lastSection ==> last in f.list(lastSection))
  }

  predicate Named(sections: seq<Block>, hashes: set<nat>) {
    forall b :: b in sections ==> b.Block? && b.hash != 0 && b.hash in hashes
  }

  predicate DistinctHashes(sections: seq<Block>) {
    forall i, j :: 0 <= i < j < |sections| ==> sections[i].Block? && sections[j].Block? && sections[i].hash != sections[j].hash
  }

  lemma {:induction false} SectionsHashes(f: Fork, c: Block, limit: int)
    requires c.Block? ==> IsChain(f, c)
    ensures Named(Sections(f, c, limit), Hashes(c)) && DistinctHashes(Sections(f, c, limit))
  {
    if c.Block? {
      SectionsHashes(f, c.prev, c.height);
      var below := Sections(f, c.prev, c.height);
      if Sections(f, c, limit) == below + [c] {
        forall i | 0 <= i < |below| ensures below[i].Block? && below[i].hash != c.hash {
          assert below[i] in below;
        }
      }
    }
  }

  /** The block that paid last ended its page with entry `index` of section `q`. */
  lemma LastPaid(f: Fork, b: Block) returns (q: Block, index: nat)
    requires f.Valid() && IsChain(f, b) && IsAccepted(PagesOf(f, b)) && !b.kind.Origin? && !b.kind.Vacant? && EndsWithReward(b.vtx)
    ensures OnChain(q, b.prev) && q.Block? && f.Allowed(q) && index < |f.list(q.hash)|
    ensures b.vtx[|b.vtx| - 1].item == Item(q.hash, f.list(q.hash)[index].dest, f.list(q.hash)[index].reward)
    ensures Settled(PagesOf(f, b)) == |Items(f, Sections(f, q.prev, q.height))| + index + 1
    ensures var j, sections := |Sections(f, q.prev, q.height)|, Sections(f, b.prev, b.height);
            j < |sections| && sections[j] == q
  {
    var p := PagesOf(f, b);
    PagesGrow(f, b);
    BlockPays(p);
    var sections := Sections(f, b.prev, b.height);
    var n := |b.vtx|;
    var list := Demanded(p);
    assert b.vtx[n - 1] == if n - 1 < |list| then RewardTx(list[n - 1]) else OtherTx;
    SettledOfPage(p);
    var k := Settled(p) - 1;
    assert b.vtx[n - 1].item == Items(f, sections)[k];
    var j, i := Locate(f, sections, k);
    SectionsSplit(f, b.prev, b.height, j);
    q, index := sections[j], i;
  }

  /** A page that ends with a reward ends with the last reward it settles. */
  lemma SettledOfPage(p: Pages)
    requires p.Then? && Grows(p) && IsAccepted(p) && !p.vacant && EndsWithReward(p.vtx)
    ensures 0 < Settled(p) <= |p.due| && p.vtx[|p.vtx| - 1] == RewardTx(p.due[Settled(p) - 1])
  {
    BlockPays(p);
    var n, list := |p.vtx|, Demanded(p);
    assert p.vtx[n - 1] == if n - 1 < |list| then RewardTx(list[n - 1]) else OtherTx;
  }

  /** The sections from a split on, when all before it is settled. */
  lemma LeftAtBeginning(f: Fork, c: Block, height: int, p: Block, list: seq<Block>)
    requires p.Block? && Sections(f, c, height) == Sections(f, p.prev, p.height) + list
    requires Settled(PagesOf(f, c)) == |DueAbove(f, p.prev, p.height)|
    ensures Pending(PagesOf(f, c), DueAbove(f, c, height)) == Items(f, list)
  {
    ItemsAppend(f, Sections(f, p.prev, p.height), list);
  }

  /** The sections from the one that was paid last, when it is settled up to entry `index`. */
  lemma LeftAfterEntry(f: Fork, c: Block, height: int, q: Block, index: nat, list: seq<Block>)
    requires f.Valid() && q.Block? && Sections(f, c, height) == Sections(f, q.prev, q.height) + list && list != [] && list[0] == q
    requires f.Allowed(q) && index < |f.list(q.hash)|
    requires Settled(PagesOf(f, c)) == |Items(f, Sections(f, q.prev, q.height))| + index + 1
    ensures Pending(PagesOf(f, c), DueAbove(f, c, height)) == Left(f, list, q.hash, f.list(q.hash)[index])
  {
    DueSplit(f, c, height, q, list);
    LeftIs(f, list, index);
    PendingWithin(PagesOf(f, c), Items(f, Sections(f, q.prev, q.height)), ItemsOf(f, q), Items(f, list[1..]), index + 1);
  }

  lemma DueSplit(f: Fork, c: Block, height: int, q: Block, list: seq<Block>)
    requires q.Block? && Sections(f, c, height) == Sections(f, q.prev, q.height) + list && list != [] && list[0] == q
    ensures DueAbove(f, c, height) == Items(f, Sections(f, q.prev, q.height)) + (ItemsOf(f, q) + Items(f, list[1..]))
  {
    ItemsAppend(f, Sections(f, q.prev, q.height), list);
  }

  lemma LeftIs(f: Fork, list: seq<Block>, index: nat)
    requires f.Valid() && list != [] && f.Allowed(list[0]) && index < |f.list(list[0].hash)|
    ensures index + 1 <= |ItemsOf(f, list[0])|
    ensures Left(f, list, list[0].hash, f.list(list[0].hash)[index]) == ItemsOf(f, list[0])[index + 1..] + Items(f, list[1..])
  {
    assert ProperList(f.list(list[0].hash));
    PositionIs(f.list(list[0].hash), index);
  }

  lemma PendingWithin(p: Pages, a: seq<Item>, b: seq<Item>, c: seq<Item>, n: nat)
    requires n <= |b| && Settled(p) == |a| + n
    ensures Pending(p, a + (b + c)) == b[n..] + c
  {
  }

  /** Cutting off sections without rewards leaves the same to be paid. */
  lemma LeftOfCut(f: Fork, list: seq<Block>, sections: seq<Block>, lastSection: nat, last: Reward)
    requires sections <= list && Items(f, sections) == Items(f, list)
    requires sections == [] && list != [] ==> !f.Allowed(list[0])
    ensures Left(f, sections, lastSection, last) == Left(f, list, lastSection, last)
  {
    if sections == [] {
      if list != [] {
        assert Items(f, list) == ItemsOf(f, list[0]) + Items(f, list[1..]);
      }
    } else {
      assert sections[0] == list[0];
      assert ItemsOf(f, list[0]) + Items(f, sections[1..]) == ItemsOf(f, list[0]) + Items(f, list[1..]);
      assert Items(f, sections[1..]) == (ItemsOf(f, list[0]) + Items(f, sections[1..]))[|ItemsOf(f, list[0])|..];
      assert Items(f, list[1..]) == (ItemsOf(f, list[0]) + Items(f, list[1..]))[|ItemsOf(f, list[0])|..];
    }
  }

  /** What the first three loops of `GetDeFiSectionList` collect: the last sections of the chain, from the one that was paid
      last, and their unpaid rewards are exactly those pending. */
  ghost predicate Collected(f: Fork, c: Block, height: int, list: seq<Block>, lastSection: nat, last: Reward) {
    var sections := Sections(f, c, height);
    |list| <= |sections| && list == sections[|sections| - |list|..] &&
    Left(f, list, lastSection, last) == Pending(PagesOf(f, c), DueAbove(f, c, height)) &&
    AllowedFirst(f, list) &&
    (lastSection != 0 ==> list != [] && f.Allowed(list[0]) && list[0].hash == lastSection && last in f.list(lastSection))
  }

  lemma CollectedFromBeginning(f: Fork, c: Block, height: int, b: Block, list: seq<Block>)
    requires IsChain(f, c) && IsChain(f, b) && Sections(f, c, height) == Sections(f, b.prev, b.height) + list
    requires Settled(PagesOf(f, c)) == |DueAbove(f, b.prev, b.height)| && SameSupply(list, b)
    ensures Collected(f, c, height, list, 0, Reward(0, 0))
  {
    LeftAtBeginning(f, c, height, b, list);
    SectionsHashes(f, c, height);
    var sections, before := Sections(f, c, height), |Sections(f, b.prev, b.height)|;
    assert list == sections[before..];
    assert list != [] ==> list[0] == sections[before] && list[0] in sections;
  }

  lemma CollectedFromSection(f: Fork, c: Block, height: int, sections: seq<Block>, listIn: seq<Block>,
                             q: Block, index: nat, list: seq<Block>)
    requires f.Valid() && IsChain(f, c) && q.Block? && f.Allowed(q) && index < |f.list(q.hash)|
    requires Sections(f, c, height) == sections + listIn == Sections(f, q.prev, q.height) + list
    requires |Sections(f, q.prev, q.height)| < |sections| && sections[|Sections(f, q.prev, q.height)|] == q
    requires Settled(PagesOf(f, c)) == |Items(f, Sections(f, q.prev, q.height))| + index + 1
    ensures Collected(f, c, height, list, q.hash, f.list(q.hash)[index])
  {
    var whole, j := Sections(f, c, height), |Sections(f, q.prev, q.height)|;
    assert whole[j] == sections[j];
    assert list == whole[j..];
    LeftAfterEntry(f, c, height, q, index, list);
    SectionsSupplies(f, c, height);
    AllowedFromFirst(f, whole, j);
  }

  /** Where supplies fall, everything after an allowed section is allowed. */
  lemma AllowedFromFirst(f: Fork, sections: seq<Block>, j: nat)
    requires SuppliesFall(sections) && j < |sections| && f.Allowed(sections[j])
    ensures AllowedFirst(f, sections[j..])
  {
    forall k | 0 <= k < |sections[j..]| ensures f.Allowed(sections[j..][k]) {
      assert sections[j..][k] == sections[j + k];
    }
  }

  /** The collecting part of `GetDeFiSectionList`. */
  method CollectSections(f: Fork, c: Block, height: int) returns (list: seq<Block>, lastSection: nat, last: Reward)
    requires f.Valid() && IsChain(f, c) && Follows(height, c) && IsAccepted(PagesOf(f, c))
    ensures Collected(f, c, height, list, lastSection, last)
  {
    var b, vacant, prevHeight := SkipVacant(f, c, height);
    if !b.kind.Origin? && EndsWithReward(b.vtx) {
      ghost var q, index := LastPaid(f, b);
      FindOnChain(f, b.prev, q);
      var item := b.vtx[|b.vtx| - 1].item;
      lastSection, last := item.anchor, Reward(item.dest, item.reward);
      var section := Find(b.prev, lastSection);
      list := CollectDownTo(f, b, section, prevHeight, vacant);
      CollectedFromSection(f, c, height, Sections(f, b.prev, b.height), vacant, q, index, list);
    } else {
      list, lastSection, last := vacant, 0, Reward(0, 0);
      SettledAtEnd(f, b);
      CollectedFromBeginning(f, c, height, b, list);
    }
  }

  /** The origin, and a block that is not vacant and ends otherwise than with a reward, leave nothing due to them open. */
  lemma SettledAtEnd(f: Fork, b: Block)
    requires IsChain(f, b) && !b.kind.Vacant? && (!b.kind.Origin? ==> !EndsWithReward(b.vtx))
    ensures Settled(PagesOf(f, b)) == |DueAbove(f, b.prev, b.height)|
  {
  }

  lemma NothingPending(f: Fork, c: Block, height: int)
    requires f.Valid() && IsChain(f, c) && Follows(height, c) && f.prevReward(height) <= 0
    ensures Left(f, [], 0, Reward(0, 0)) == Pending(PagesOf(f, c), DueAbove(f, c, height))
  {
    NoSections(f, c, height);
  }

  lemma CutResumes(f: Fork, c: Block, height: int, list: seq<Block>, sections: seq<Block>, lastSection: nat, last: Reward)
    requires Collected(f, c, height, list, lastSection, last) && Named(list, Hashes(c)) && DistinctHashes(list)
    requires sections <= list && Items(f, sections) == Items(f, list)
    requires forall i :: 0 <= i < |sections| ==> f.Allowed(sections[i])
    requires |sections| < |list| ==> !f.Allowed(list[|sections|])
    ensures Left(f, sections, lastSection, last) == Pending(PagesOf(f, c), DueAbove(f, c, height))
    ensures Resumes(f, sections, lastSection, last)
  {
    LeftOfCut(f, list, sections, lastSection, last);
    forall i | 0 < i < |sections| ensures sections[i].hash != lastSection {
      assert list[i] in list;
    }
    assert sections != [] ==> list[0] in list;
  }

  /** `GetDeFiSectionList`: the sections that still have rewards to pay above `c`, and where paying resumes. */
  method GetDeFiSectionList(f: Fork, c: Block, height: int, cached: set<nat>)
    returns (sections: seq<Block>, lastSection: nat, last: Reward)
    requires f.Valid() && IsChain(f, c) && Follows(height, c) && IsAccepted(PagesOf(f, c))
    requires forall b :: OnChain(b, c) && b.Block? && b.hash in cached ==> f.Allowed(b)
    ensures Left(f, sections, lastSection, last) == Pending(PagesOf(f, c), DueAbove(f, c, height))
    ensures Resumes(f, sections, lastSection, last)
  {
    if f.prevReward(height) <= 0 {
      sections, lastSection, last := [], 0, Reward(0, 0);
      NothingPending(f, c, height);
    } else {
      var list;
      list, lastSection, last := CollectSections(f, c, height);
      ListFacts(f, c, height, list, cached);
      sections := CutAtMaxSupply(f, list, cached);
      CutResumes(f, c, height, list, sections, lastSection, last);
    }
  }

  /** The last sections of a chain meet what the filter asks for. */
  lemma ListFacts(f: Fork, c: Block, height: int, list: seq<Block>, cached: set<nat>)
    requires IsChain(f, c) && |list| <= |Sections(f, c, height)|
    requires list == Sections(f, c, height)[|Sections(f, c, height)| - |list|..]
    requires forall b :: OnChain(b, c) && b.Block? && b.hash in cached ==> f.Allowed(b)
    ensures Named(list, Hashes(c)) && DistinctHashes(list)
    ensures forall i :: 0 <= i < |list| && list[i].Block? && list[i].hash in cached ==> f.Allowed(list[i])
  {
    SectionsHashes(f, c, height);
    SuffixFacts(Sections(f, c, height), |Sections(f, c, height)| - |list|, Hashes(c));
    AllOnChain(f, c, height, list);
  }

  lemma AllOnChain(f: Fork, c: Block, height: int, list: seq<Block>)
    requires |list| <= |Sections(f, c, height)| && list == Sections(f, c, height)[|Sections(f, c, height)| - |list|..]
    ensures forall i :: 0 <= i < |list| ==> OnChain(list[i], c)
  {
    var sections := Sections(f, c, height);
    forall i | 0 <= i < |list| ensures OnChain(list[i], c) {
      SectionOnChain(f, c, height, |sections| - |list| + i);
    }
  }

  lemma SectionOnChain(f: Fork, c: Block, limit: int, j: nat)
    requires j < |Sections(f, c, limit)|
    ensures OnChain(Sections(f, c, limit)[j], c)
  {
    SectionsSplit(f, c, limit, j);
  }

  lemma SuffixFacts(sections: seq<Block>, n: nat, hashes: set<nat>)
    requires n <= |sections| && Named(sections, hashes) && DistinctHashes(sections)
    ensures Named(sections[n..], hashes) && DistinctHashes(sections[n..])
  {
  }

  // ---------------------------------------------------------------- GetDeFiReward and AddNewBlock

  /** The place after the last reward paid: the entries with its amount are searched for its address. */
  method FindAfter(list: seq<Reward>, last: Reward) returns (it: nat)
    requires ProperList(list)
    ensures it <= |list| && (last in list ==> it == PositionOf(list, last.dest) + 1)
  {
    var lower := 0;
    while lower < |list| && list[lower].reward > last.reward
      invariant lower <= |list| && forall k :: 0 <= k < lower ==> list[k].reward > last.reward
    {
      lower := lower + 1;
    }
    var upper := lower;
    while upper < |list| && list[upper].reward >= last.reward
      invariant lower <= upper <= |list|
    {
      upper := upper + 1;
    }
    it := lower;
    while it != upper
      invariant lower <= it <= upper && forall k :: 0 <= k < it ==> list[k] != last
    {
      if list[it].dest == last.dest {
        PositionIs(list, it);
        return it + 1;
      }
      it := it + 1;
    }
  }

  /** The rewards of one section from entry `start` on, as far as a page of `max` has room; `rest` is what it leaves. */
  method AppendSection(f: Fork, b: Block, start: nat, max: int, rewardsIn: seq<Item>)
    returns (rewards: seq<Item>, ghost rest: seq<Item>)
    requires f.Allowed(b) && start <= |f.list(b.hash)| && (max < 0 || |rewardsIn| <= max)
    ensures rewards + rest == rewardsIn + ItemsOf(f, b)[start..]
    ensures (max < 0 || |rewards| <= max) && (rest != [] ==> |rewards| == max)
  {
    ghost var items := ItemsOf(f, b);
    var list, it := f.list(b.hash), start;
    rewards := rewardsIn;
    while it < |list| && (max < 0 || |rewards| < max)
      invariant start <= it <= |list| && rewards == rewardsIn + items[start..it]
      invariant max < 0 || |rewards| <= max
    {
      OneMore(rewardsIn, items, start, it);
      rewards := rewards + [Item(b.hash, list[it].dest, list[it].reward)];
      it := it + 1;
    }
    rest := items[it..];
    AllOfThem(rewardsIn, items, start, it);
  }

  lemma OneMore(a: seq<Item>, items: seq<Item>, i: nat, j: nat)
    requires i <= j < |items|
    ensures (a + items[i..j]) + [items[j]] == a + items[i..j + 1]
  {
  }

  lemma AllOfThem(a: seq<Item>, items: seq<Item>, i: nat, j: nat)
    requires i <= j <= |items|
    ensures (a + items[i..j]) + items[j..] == a + items[i..]
  {
  }

  /** What is left once the first `i` sections are listed. */
  function LeftFrom(f: Fork, sections: seq<Block>, i: nat, lastSection: nat, last: Reward): seq<Item>
    requires i <= |sections|
  {
    if i == 0 then Left(f, sections, lastSection, last) else Items(f, sections[i..])
  }

  /** One section of the list, from the entry where paying resumes. */
  lemma LeftStep(f: Fork, sections: seq<Block>, i: nat, lastSection: nat, last: Reward, start: nat)
    requires Resumes(f, sections, lastSection, last) && i < |sections| && start <= |f.list(sections[i].hash)|
    requires start == if sections[i].hash == lastSection then PositionOf(f.list(lastSection), last.dest) + 1 else 0
    ensures LeftFrom(f, sections, i, lastSection, last) ==
            ItemsOf(f, sections[i])[start..] + LeftFrom(f, sections, i + 1, lastSection, last)
  {
    assert sections[i..][1..] == sections[i + 1..];
    assert i == 0 ==> sections[i..] == sections;
  }

  lemma PageIs(whole: seq<Item>, rewards: seq<Item>, rest: seq<Item>, max: int)
    requires whole == rewards + rest && ((rest == [] && (max < 0 || |rewards| <= max)) || |rewards| == max)
    ensures rewards == Page(whole, max)
  {
  }

  /** `GetDeFiReward`: the next page of rewards to be paid at height `height` on top of `c`. */
  method GetDeFiReward(f: Fork, c: Block, height: int, minted: bool, max: int, cached: set<nat>) returns (rewards: seq<Item>)
    requires f.Valid() && IsChain(f, c) && Follows(height, c) && IsAccepted(PagesOf(f, c))
    requires !minted ==> f.prevReward(height) <= 0
    requires forall b :: OnChain(b, c) && b.Block? && b.hash in cached ==> f.Allowed(b)
    ensures rewards == Page(Pending(PagesOf(f, c), DueAbove(f, c, height)), max)
  {
    if !minted {
      NothingPending(f, c, height);
      return [];
    }
    var sections, lastSection, last := GetDeFiSectionList(f, c, height, cached);
    rewards := ListRewards(f, sections, lastSection, last, max);
  }

  lemma Regroup(a: seq<Item>, b: seq<Item>, c: seq<Item>, d: seq<Item>, e: seq<Item>)
    requires a + b == c + d
    ensures a + (b + e) == c + (d + e)
    ensures d == [] ==> d + e == e
  {
    Associates(a, b, e);
    Associates(c, d, e);
  }

  /** One section of the loop of `GetDeFiReward`. */
  method ListSection(f: Fork, sections: seq<Block>, i: nat, lastSection: nat, last: Reward, max: int, rewardsIn: seq<Item>)
    returns (rewards: seq<Item>, ghost rest: seq<Item>)
    requires f.Valid() && Resumes(f, sections, lastSection, last) && i < |sections| && (max < 0 || |rewardsIn| <= max)
    ensures rewardsIn + LeftFrom(f, sections, i, lastSection, last) == rewards + rest
    ensures (max < 0 || |rewards| <= max) && (|rewards| == max || rest == LeftFrom(f, sections, i + 1, lastSection, last))
  {
    var section := sections[i];
    var it := 0;
    assert ProperList(f.list(section.hash));
    if section.hash == lastSection {
      it := FindAfter(f.list(section.hash), last);
    }
    LeftStep(f, sections, i, lastSection, last, it);
    ghost var left;
    rewards, left := AppendSection(f, section, it, max, rewardsIn);
    rest := left + LeftFrom(f, sections, i + 1, lastSection, last);
    Regroup(rewardsIn, ItemsOf(f, section)[it..], rewards, left, LeftFrom(f, sections, i + 1, lastSection, last));
  }

  /** The loop of `GetDeFiReward` over the sections. */
  method ListRewards(f: Fork, sections: seq<Block>, lastSection: nat, last: Reward, max: int) returns (rewards: seq<Item>)
    requires f.Valid() && Resumes(f, sections, lastSection, last)
    ensures rewards == Page(Left(f, sections, lastSection, last), max)
  {
    ghost var whole := Left(f, sections, lastSection, last);
    rewards := [];
    for i := 0 to |sections|
      invariant whole == rewards + LeftFrom(f, sections, i, lastSection, last)
      invariant max < 0 || |rewards| <= max
    {
      ghost var rest;
      rewards, rest := ListSection(f, sections, i, lastSection, last, max, rewards);
      if max >= 0 && |rewards| >= max {
        PageIs(whole, rewards, rest, max);
        return;
      }
    }
    PageIs(whole, rewards, [], max);
  }

  /** The part of `AddNewBlock` that deals with rewards. A block on top of an accepted chain passes it exactly when the
      chain with the block is accepted: its transactions begin with the page of pending rewards and hold no other. */
  method CheckDeFiReward(f: Fork, b: Block, minted: bool, cached: set<nat>) returns (ok: bool)
    requires f.Valid() && IsChain(f, b) && !b.kind.Origin? && IsAccepted(PagesOf(f, b.prev))
    requires !minted ==> f.prevReward(b.height) <= 0
    requires forall s :: OnChain(s, b.prev) && s.Block? && s.hash in cached ==> f.Allowed(s)
    ensures ok <==> IsAccepted(PagesOf(f, b))
  {
    var list := [];
    if !b.kind.Vacant? {
      list := GetDeFiReward(f, b.prev, b.height, minted, |b.vtx|, cached);
    }
    assert list == Demanded(PagesOf(f, b));
    ok := CheckRewardTxs(list, b.vtx);
  }

  method CheckRewardTxs(list: seq<Item>, vtx: seq<Tx>) returns (ok: bool)
    ensures ok <==> PaysExactly(list, vtx)
  {
    var it := 0;
    for i := 0 to |vtx|
      invariant it == Min(i, |list|)
      invariant forall k :: 0 <= k < i ==> vtx[k] == if k < |list| then RewardTx(list[k]) else OtherTx
    {
      if it < |list| {
        if !vtx[i].RewardTx? || list[it] != vtx[i].item {
          return false;
        }
        it := it + 1;
      } else if vtx[i].RewardTx? {
        return false;
      }
    }
    return true;
  }
}
