/** Paying a growing list of rewards over many blocks, where each block settles a page of it. This is the bookkeeping of
    `AddNewBlock` and `GetDeFiReward` apart from how the list itself is found on the chain. */
module PagedPayment {
  import opened Common

  /** A reward of a certain section, as a reward transaction names it. */
  datatype Item = Item(anchor: nat, dest: nat, reward: int)

  datatype Tx = RewardTx(item: Item) | OtherTx

  /** The blocks of a chain, each with all the rewards that are due to it or were due before, and its transactions. */
  datatype Pages =
    | Start
    | Then(below: Pages, due: seq<Item>, vacant: bool, vtx: seq<Tx>)

  function Due(p: Pages): seq<Item> {
    if p.Start? then [] else p.due
  }

  /** What was due stays at the front of what is due. */
  predicate Grows(p: Pages) {
    p.Then? ==> Grows(p.below) && Due(p.below) <= p.due
  }

  predicate EndsWithReward(vtx: seq<Tx>) {
    vtx != [] && vtx[|vtx| - 1].RewardTx?
  }

  /** How many of the due rewards are settled: a page that ends with a reward settles that many more, any other block that
      is not vacant is taken to have settled all that was due to it. */
  function Settled(p: Pages): nat {
    if p.Start? then 0
    else if p.vacant then Settled(p.below)
    else if EndsWithReward(p.vtx) then Settled(p.below) + |p.vtx|
    else |p.due|
  }

  /** The rewards of `due` that are still to be paid above `p`. */
  function Pending(p: Pages, due: seq<Item>): seq<Item> {
    if Settled(p) <= |due| then due[Settled(p)..] else []
  }

  /** The first `max` entries of a list; all of them when `max` is negative. */
  function Page(items: seq<Item>, max: int): seq<Item> {
    if 0 <= max < |items| then items[..max] else items
  }

  /** The test of `AddNewBlock`: the transactions begin with exactly the listed rewards and hold no other. */
  predicate PaysExactly(list: seq<Item>, vtx: seq<Tx>) {
    forall i :: 0 <= i < |vtx| ==> vtx[i] == if i < |list| then RewardTx(list[i]) else OtherTx
  }

  /** The rewards that a block has to pay: a page of those pending, and none when it is vacant. */
  function Demanded(p: Pages): seq<Item>
    requires p.Then?
  {
    if p.vacant then [] else Page(Pending(p.below, p.due), |p.vtx|)
  }

  /** All blocks passed the test. */
  predicate IsAccepted(p: Pages) {
    p.Then? ==> IsAccepted(p.below) && PaysExactly(Demanded(p), p.vtx)
  }

  function RewardsIn(vtx: seq<Tx>): seq<Item> {
    if vtx == [] then []
    else RewardsIn(vtx[..|vtx| - 1]) + if vtx[|vtx| - 1].RewardTx? then [vtx[|vtx| - 1].item] else []
  }

  /** All rewards paid along a chain. */
  function Paid(p: Pages): seq<Item> {
    if p.Start? then [] else Paid(p.below) + RewardsIn(p.vtx)
  }

  /** Every block that is not vacant carries a transaction as long as rewards are pending. */
  predicate NeverIdle(p: Pages) {
    p.Then? ==> NeverIdle(p.below) && (!p.vacant && Pending(p.below, p.due) != [] ==> p.vtx != [])
  }

  // ---------------------------------------------------------------- one block

  lemma {:induction false} RewardsOfPage(list: seq<Item>, vtx: seq<Tx>, n: nat)
    requires PaysExactly(list, vtx) && n <= |vtx|
    ensures RewardsIn(vtx[..n]) == list[..Min(n, |list|)]
  {
    if n > 0 {
      RewardsOfPage(list, vtx, n - 1);
      assert vtx[..n][..n - 1] == vtx[..n - 1];
    }
  }

  /** A page of what is left of `due` after its first `before` entries. */
  lemma PageMeaning(due: seq<Item>, before: nat, vtx: seq<Tx>)
    requires before <= |due| && PaysExactly(Page(due[before..], |vtx|), vtx)
    ensures var n := |RewardsIn(vtx)|;
            before + n <= |due| && RewardsIn(vtx) == due[before..before + n] &&
            if vtx == [] then n == 0
            else if vtx[|vtx| - 1].RewardTx? then n == |vtx|
            else before + n == |due|
  {
    var list := Page(due[before..], |vtx|);
    RewardsOfPage(list, vtx, |vtx|);
    assert vtx[..|vtx|] == vtx;
    assert RewardsIn(vtx) == list;
    if vtx != [] {
      assert vtx[|vtx| - 1] == if |vtx| - 1 < |list| then RewardTx(list[|vtx| - 1]) else OtherTx;
    }
  }

  /** How many rewards a block passes over: those pending when it is not vacant and carries no transaction. */
  function PassedOver(p: Pages): nat
    requires p.Then?
  {
    if !p.vacant && p.vtx == [] then |Pending(p.below, p.due)| else 0
  }

  /** What one block pays, and what it settles. */
  lemma {:induction false} BlockPays(p: Pages)
    requires p.Then? && Grows(p) && IsAccepted(p)
    ensures var before, n := Settled(p.below), |RewardsIn(p.vtx)|;
            before + n <= |p.due| && RewardsIn(p.vtx) == p.due[before..before + n] &&
            Settled(p) == before + n + PassedOver(p) <= |p.due|
    decreases p
  {
    if p.below.Then? {
      BlockPays(p.below);
    }
    if p.vacant {
      RewardsOfPage([], p.vtx, |p.vtx|);
      assert p.vtx[..|p.vtx|] == p.vtx;
    } else {
      PageMeaning(p.due, Settled(p.below), p.vtx);
    }
  }

  // ---------------------------------------------------------------- whole chains

  /** Without an idle block, the rewards paid are a prefix of those due. */
  lemma {:induction false} PaidIsPrefix(p: Pages)
    requires Grows(p) && IsAccepted(p) && NeverIdle(p)
    ensures Settled(p) <= |Due(p)| && Paid(p) == Due(p)[..Settled(p)]
  {
    if p.Then? {
      PaidIsPrefix(p.below);
      BlockPays(p);
      var before := Settled(p.below);
      assert Due(p.below)[..before] == p.due[..before];
      assert p.due[..before] + p.due[before..Settled(p)] == p.due[..Settled(p)];
    }
  }

  /** Every reward paid is one of those settled; and once one was passed over, fewer are paid than are settled. */
  lemma {:induction false} PaidIsSettled(p: Pages)
    requires Grows(p) && IsAccepted(p)
    ensures |Paid(p)| <= Settled(p) <= |Due(p)|
    ensures !NeverIdle(p) ==> |Paid(p)| < Settled(p)
    ensures forall x :: x in Paid(p) ==> x in Due(p)[..Settled(p)]
  {
    if p.Then? {
      PaidIsSettled(p.below);
      BlockPays(p);
      var before := Settled(p.below);
      assert Due(p.below)[..before] == p.due[..before];
      AllWithin(Paid(p.below), RewardsIn(p.vtx), p.due, before, Settled(p));
    }
  }

  lemma AllWithin(a: seq<Item>, b: seq<Item>, due: seq<Item>, before: nat, after: nat)
    requires before + |b| <= after <= |due| && b == due[before..before + |b|]
    requires forall x :: x in a ==> x in due[..before]
    ensures forall x :: x in a + b ==> x in due[..after]
  {
    forall x | x in a + b ensures x in due[..after] {
      if x in a {
        assert x in due[..before];
      } else {
        assert x in due[before..before + |b|];
      }
    }
  }

  /** The rewards paid along an accepted chain are exactly the settled ones, in the order in which they became due, if and
      only if no block that is not vacant stayed empty while rewards were pending. */
  lemma PaidInOrder(p: Pages)
    requires Grows(p) && IsAccepted(p)
    ensures Settled(p) <= |Due(p)|
    ensures Paid(p) == Due(p)[..Settled(p)] <==> NeverIdle(p)
  {
    PaidIsSettled(p);
    if NeverIdle(p) {
      PaidIsPrefix(p);
    }
  }

  /** A first block that is empty and not vacant is accepted and settles all that is due to it. */
  lemma IdleSettles(due: seq<Item>)
    ensures var idle := Then(Start, due, false, []);
            IsAccepted(idle) && Settled(idle) == |due| && Paid(idle) == []
  {
    var idle := Then(Start, due, false, []);
    assert idle.vtx == [] && !EndsWithReward(idle.vtx) && RewardsIn(idle.vtx) == [];
    assert Paid(idle) == Paid(Start) + RewardsIn(idle.vtx);
  }

  lemma RewardsInOne(tx: Tx)
    ensures RewardsIn([tx]) == if tx.RewardTx? then [tx.item] else []
  {
    var none: seq<Tx> := [];
    assert [tx][..0] == none && RewardsIn(none) == [];
  }

  /** An empty block that is not vacant passes over a pending reward, which is then never paid. */
  lemma IdleBlockPassesOver()
    ensures var item := Item(1, 2, 3);
            var p := Then(Then(Start, [item], false, []), [item], false, [OtherTx]);
            Grows(p) && IsAccepted(p) && Settled(p) == 1 && Paid(p) == [] && Pending(p, [item]) == []
  {
    var item := Item(1, 2, 3);
    var idle := Then(Start, [item], false, []);
    IdleSettles([item]);
    assert Pending(idle, [item]) == [];
    RewardsInOne(OtherTx);
  }

  // ---------------------------------------------------------------- no reward twice

  /** No two entries for the same section and address. */
  predicate NoneTwice(items: seq<Item>) {
    forall i, j :: 0 <= i < j < |items| ==> !(items[i].anchor == items[j].anchor && items[i].dest == items[j].dest)
  }

  lemma NoneTwiceAppend(a: seq<Item>, b: seq<Item>, due: seq<Item>, n: nat, m: nat)
    requires NoneTwice(due) && NoneTwice(a) && n <= m <= |due| && b == due[n..m]
    requires forall x :: x in a ==> x in due[..n]
    ensures NoneTwice(a + b)
  {
    forall i, j | 0 <= i < j < |a + b|
      ensures !((a + b)[i].anchor == (a + b)[j].anchor && (a + b)[i].dest == (a + b)[j].dest)
    {
      if i < |a| <= j {
        assert a[i] in due[..n];
        var k :| 0 <= k < n && due[k] == a[i];
        assert (a + b)[j] == due[n + (j - |a|)];
      } else if |a| <= i {
        assert (a + b)[i] == due[n + (i - |a|)] && (a + b)[j] == due[n + (j - |a|)];
      }
    }
  }

  lemma NoneTwiceBefore(small: seq<Item>, large: seq<Item>)
    requires small <= large && NoneTwice(large)
    ensures NoneTwice(small)
  {
  }

  /** When no reward is due twice, none is paid twice, whatever the pages, vacant runs and idle blocks are. */
  lemma {:induction false} NoRewardTwice(p: Pages)
    requires Grows(p) && IsAccepted(p) && NoneTwice(Due(p))
    ensures NoneTwice(Paid(p))
  {
    if p.Then? {
      NoneTwiceBefore(Due(p.below), p.due);
      NoRewardTwice(p.below);
      PaidIsSettled(p.below);
      BlockPays(p);
      var before := Settled(p.below);
      assert Due(p.below)[..before] == p.due[..before];
      NoneTwiceAppend(Paid(p.below), RewardsIn(p.vtx), p.due, before, before + |RewardsIn(p.vtx)|);
    }
  }

  // ---------------------------------------------------------------- a prefix of what is due

  /** Once a reward was passed over, no reward is paid any more. */
  predicate SilentAfterIdle(p: Pages) {
    p.Then? ==> SilentAfterIdle(p.below) && (!NeverIdle(p.below) ==> RewardsIn(p.vtx) == [])
  }

  /** The rewards of a further block continue a prefix exactly when none was passed over before, or there are none. */
  lemma PrefixStep(paid: seq<Item>, more: seq<Item>, due: seq<Item>, before: nat)
    requires NoneTwice(due) && before + |more| <= |due| && more == due[before..before + |more|]
    requires paid <= due && |paid| <= before
    ensures paid + more <= due <==> |paid| == before || more == []
  {
    if |paid| == before {
      assert paid == due[..before];
      assert due[..before] + due[before..before + |more|] == due[..before + |more|];
    } else if more == [] {
      assert paid + more == paid;
    } else {
      assert (paid + more)[|paid|] == more[0] == due[before] != due[|paid|];
    }
  }

  /** The rewards paid along an accepted chain are in order a prefix of those due if and only if no reward is paid after a
      block that passed one over. */
  lemma {:induction false} PaidIsPrefixExactly(p: Pages)
    requires Grows(p) && IsAccepted(p) && NoneTwice(Due(p))
    ensures Paid(p) <= Due(p) <==> SilentAfterIdle(p)
  {
    if p.Then? {
      NoneTwiceBefore(Due(p.below), p.due);
      PaidIsPrefixExactly(p.below);
      PaidIsSettled(p.below);
      BlockPays(p);
      var paid, more, before := Paid(p.below), RewardsIn(p.vtx), Settled(p.below);
      PrefixOfLonger(paid, Due(p.below), p.due);
      if paid <= p.due {
        PrefixStep(paid, more, p.due, before);
        if NeverIdle(p.below) {
          PaidIsPrefix(p.below);
        }
      } else {
        assert paid <= paid + more;
      }
    }
  }

  lemma PrefixOfLonger(paid: seq<Item>, small: seq<Item>, large: seq<Item>)
    requires small <= large && |paid| <= |small|
    ensures paid <= small <==> paid <= large
  {
  }

  /** A reward paid after one that was passed over leaves a gap in the order. */
  lemma RewardAfterIdle()
    ensures var a, b := Item(1, 2, 3), Item(4, 5, 6);
            var p := Then(Then(Start, [a], false, []), [a, b], false, [RewardTx(b)]);
            Grows(p) && IsAccepted(p) && NoneTwice(Due(p)) && Paid(p) == [b] && !(Paid(p) <= Due(p))
  {
    var a, b := Item(1, 2, 3), Item(4, 5, 6);
    var idle := Then(Start, [a], false, []);
    IdleSettles([a]);
    assert Pending(idle, [a, b]) == [b];
    RewardsInOne(RewardTx(b));
    assert [b][0] != [a, b][0];
  }
}
