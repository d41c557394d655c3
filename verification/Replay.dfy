/** The ledger of a fork as a simple thing, the replay of its best chain from scratch, and the
    proof that the incremental walk with its rollbacks computes just that. */
module Replay {
  import opened Common
  import opened BlockTree
  import opened Ledger

  /** What one fork starts from: the block it is joined to (`Null` for the primary chain), the maps it
      inherited there, the index it inherited, and the block files. */
  datatype Fork = Fork(base: BlockIndex, start: Maps, parent: IndexMap, store: BlockStore)
  {
    /** The maps after replaying, block by block, the chain that ends at `p`. */
    function Replay(p: BlockIndex): Option<Maps>
      requires IsAncestor(base, p)
    {
      if p == base then Some(start)
      else
        var before := Replay(p.prev);
        if before.None? || p.pos !in store then None
        else AddBlock(before.value, store[p.pos], p.pos)
    }

    /** What block acceptance guarantees along the chain of `p`: contexts match the outputs spent,
        transaction hashes are not the parent fork's, and a recorded mint has a target. */
    predicate Sound(p: BlockIndex)
      requires IsAncestor(base, p)
    {
      p == base ||
      (Sound(p.prev) &&
       (Replay(p.prev).Some? && p.pos in store ==>
          BlockFits(Replay(p.prev).value, parent, store[p.pos], p.pos) && Undoable(store[p.pos])))
    }

    /** Remove the blocks from `p` down to `to`, newest first. */
    function Undo(m: Maps, p: BlockIndex, to: BlockIndex): Option<Maps>
      requires IsAncestor(to, p)
      decreases p
    {
      if p == to then Some(m)
      else if p.pos !in store then None
      else
        var next := RemoveBlock(m, parent, store[p.pos]);
        if next.None? then None else Undo(next.value, p.prev, to)
    }

    /** Add the blocks of a path, which is newest first, from its far end. */
    function Redo(m: Maps, path: seq<BlockIndex>): Option<Maps>
      decreases |path|
    {
      if path == [] then Some(m)
      else
        var p := path[|path| - 1];
        if p.Null? || p.pos !in store then None
        else
          var next := AddBlock(m, store[p.pos], p.pos);
          if next.None? then None else Redo(next.value, path[..|path| - 1])
    }
  }

  lemma {:induction false} ReplayIsLinked(f: Fork, p: BlockIndex)
    requires IsAncestor(f.base, p) && Linked(f.start, f.parent) && f.Sound(p) && f.Replay(p).Some?
    ensures Linked(f.Replay(p).value, f.parent)
  {
    if p != f.base {
      ReplayIsLinked(f, p.prev);
      AddBlockKeepsLinked(f.Replay(p.prev).value, f.parent, f.store[p.pos], p.pos);
    }
  }

  lemma {:induction false} SoundBelow(f: Fork, p: BlockIndex, a: BlockIndex)
    requires IsAncestor(f.base, a) && IsAncestor(a, p)
    ensures IsAncestor(f.base, p)
    ensures f.Sound(p) ==> f.Sound(a)
    ensures f.Replay(p).Some? ==> f.Replay(a).Some?
  {
    AncestorTransitive(f.base, a, p);
    if a != p {
      SoundBelow(f, p.prev, a);
      if p == f.base {
        AncestorDepth(f.base, a);
        AncestorDepth(a, p.prev);
        assert false;
      }
    }
  }

  /** Undoing blocks in last-in-first-out order leads back to the replay of the older chain. */
  lemma {:induction false} UndoIsReplay(f: Fork, p: BlockIndex, a: BlockIndex)
    requires IsAncestor(f.base, a) && IsAncestor(a, p) && IsAncestor(f.base, p)
    requires Linked(f.start, f.parent) && f.Sound(p) && f.Replay(p).Some?
    ensures f.Replay(a).Some? && f.Undo(f.Replay(p).value, p, a) == f.Replay(a)
  {
    if a != p {
      SoundBelow(f, p.prev, a);
      AncestorDepth(f.base, a);
      AncestorDepth(a, p.prev);
      ReplayIsLinked(f, p.prev);
      RemoveBlockUndoes(f.Replay(p.prev).value, f.parent, f.store[p.pos], p.pos);
      UndoIsReplay(f, p.prev, a);
    }
  }

  /** Redoing the new arm on top of the replay of its branch block is the replay of the new chain. */
  lemma {:induction false} RedoIsReplay(f: Fork, p: BlockIndex, a: BlockIndex)
    requires IsAncestor(f.base, a) && IsAncestor(a, p) && IsAncestor(f.base, p)
    requires f.Replay(a).Some?
    ensures f.Redo(f.Replay(a).value, Arm(p, a)) == f.Replay(p)
  {
    if a != p {
      SoundBelow(f, p.prev, a);
      AncestorDepth(f.base, a);
      AncestorDepth(a, p.prev);
      RedoIsReplay(f, p.prev, a);
      RedoOneMore(f, f.Replay(a).value, Arm(p.prev, a), p);
    }
  }

  /** The block at the front of a path is redone last. */
  lemma {:induction false} RedoOneMore(f: Fork, m: Maps, path: seq<BlockIndex>, p: BlockIndex)
    requires p.Index?
    ensures f.Redo(m, [p] + path) ==
            (var before := f.Redo(m, path);
             if before.None? || p.pos !in f.store then None else AddBlock(before.value, f.store[p.pos], p.pos))
    decreases |path|
  {
    var whole := [p] + path;
    var n := |path|;
    if n == 0 {
      assert whole[..0] == [];
    } else {
      assert whole[n] == path[n - 1];
      assert whole[..n] == [p] + path[..n - 1];
      var q := path[n - 1];
      if q.Index? && q.pos in f.store {
        var next := AddBlock(m, f.store[q.pos], q.pos);
        if next.Some? {
          RedoOneMore(f, next.value, path[..n - 1], p);
        }
      }
    }
  }

  // ---------------------------------------------------------------- one call of AddForkBlock

  /** What changes from call to call: the maps, the origin and the best block so far. */
  datatype Walk = Walk(maps: Maps, origin: BlockIndex, last: BlockIndex)

  /** The test of `AddForkBlock`: does `p` replace the best block? */
  predicate IsBetter(p: BlockIndex, last: BlockIndex)
    requires p.Index?
  {
    last.Null? || !(last.trust > p.trust || (last.trust == p.trust && !p.IsEquivalent(last)))
  }

  /** The maps after switching from the best block to `p`. */
  function Switch(f: Fork, m: Maps, last: BlockIndex, p: BlockIndex): Option<Maps>
    requires p.Index?
  {
    if last.Index? && p.prev != last then
      var branch := Branch(last, p);
      if branch.None? then None
      else
        BranchIsCommon(last, p);
        var undone := f.Undo(m, last, branch.value);
        if undone.None? then None else f.Redo(undone.value, Arm(p, branch.value))
    else if p.pos !in f.store then None
    else AddBlock(m, f.store[p.pos], p.pos)
  }

  /** `AddForkBlock`; `None` where the source returns false. */
  function Offer(f: Fork, w: Walk, p: BlockIndex): Option<Walk>
    requires p.Index?
  {
    if p.IsOrigin() && w.origin.Index? then None
    else
      var w' := if p.IsOrigin() then w.(origin := p) else w;
      if !IsBetter(p, w.last) then Some(w')
      else
        var maps := Switch(f, w.maps, w.last, p);
        if maps.None? then None else Some(w'.(maps := maps.value, last := p))
  }

  /** A block that the walker may offer to the fork: it lies above the base and its chain is sound. Nothing is asked of
      block times: a vacant block may have the time of the block below it, and an origin that of the joint block. */
  predicate Offered(f: Fork, p: BlockIndex) {
    p.Index? && p != f.base && IsAncestor(f.base, p.prev) && f.Sound(p)
  }

  /** The first block of the fork, directly above its base. */
  predicate IsFirst(f: Fork, p: BlockIndex) {
    p.Index? && p.prev == f.base
  }

  /** The maps are the replay of the best chain. */
  predicate IsReplayed(f: Fork, w: Walk) {
    if w.last.Null? then w.maps == f.start
    else Offered(f, w.last) && f.Replay(w.last) == Some(w.maps)
  }

  /** A switch from `last` to `p` does not roll back below the base: there is nothing below it, the switch is none, or the
      walk to the branch fails or ends at or above the base. */
  predicate StaysAbove(f: Fork, last: BlockIndex, p: BlockIndex) {
    f.base.Null? || last.Null? || (p.Index? && p.prev == last) || Branch(last, p).None? ||
    IsAncestor(f.base, Branch(last, p).value)
  }

  /** Switching succeeds exactly when the walk to the branch does and the new chain can be replayed,
      and then the maps are that replay. */
  lemma SwitchIsReplay(f: Fork, w: Walk, p: BlockIndex)
    requires Linked(f.start, f.parent) && IsReplayed(f, w) && Offered(f, p) && (w.last.Null? ==> IsFirst(f, p))
    requires StaysAbove(f, w.last, p)
    ensures Switch(f, w.maps, w.last, p) ==
            if w.last.Index? && p.prev != w.last && Branch(w.last, p).None? then None else f.Replay(p)
  {
    if w.last.Index? && p.prev != w.last && Branch(w.last, p).Some? {
      BranchIsCommon(w.last, p);
      var b := Branch(w.last, p).value;
      NullIsAncestor(b);
      UndoIsReplay(f, w.last, b);
      RedoIsReplay(f, p, b);
    }
  }

  /** An offer that succeeds without rolling back below the base leaves the replay of the best chain. */
  lemma OfferKeepsReplayed(f: Fork, w: Walk, p: BlockIndex)
    requires Linked(f.start, f.parent) && IsReplayed(f, w) && Offered(f, p) && (w.last.Null? ==> IsFirst(f, p))
    requires StaysAbove(f, w.last, p) && Offer(f, w, p).Some?
    ensures IsReplayed(f, Offer(f, w, p).value)
  {
    if IsBetter(p, w.last) {
      SwitchIsReplay(f, w, p);
    }
  }

  /** What can be seen of the times of two blocks of a joined fork: their arms hold equally many blocks that tie with their
      lowest common ancestor, or that ancestor is later than the joint block. */
  predicate CanSwitch(f: Fork, last: BlockIndex, p: BlockIndex)
    requires f.base.Index?
  {
    LowestIsCommon(last, p);
    var c := Lowest(last, p);
    Ties(last, c) == Ties(p, c) || (c.Index? && f.base.time < c.time)
  }

  /** On a joined fork whose times never fall the walk ends inside the fork if and only if the blocks can be switched. */
  lemma SwitchMeetsAbove(f: Fork, last: BlockIndex, p: BlockIndex)
    requires f.base.Index? && Offered(f, last) && Offered(f, p) && NeverFalls(last, f.base) && NeverFalls(p, f.base)
    ensures MeetsAbove(last, p, f.base) <==> CanSwitch(f, last, p)
  {
    LowestIsCommon(last, p);
    var c := Lowest(last, p);
    AncestorDepth(f.base, c);
    BranchStaysAbove(last, p, c, f.base);
  }

  /** On a joined fork whose times never fall, a better block that can be switched to is taken exactly when its chain can be
      replayed. */
  lemma OfferOnJoinedFork(f: Fork, w: Walk, p: BlockIndex)
    requires Linked(f.start, f.parent) && IsReplayed(f, w) && Offered(f, p) && (w.last.Null? ==> IsFirst(f, p))
    requires f.base.Index? && !p.IsOrigin() && IsBetter(p, w.last) && NeverFalls(p, f.base)
    requires w.last.Index? ==> NeverFalls(w.last, f.base) && CanSwitch(f, w.last, p)
    ensures Offer(f, w, p) == if f.Replay(p).Some? then Some(w.(maps := f.Replay(p).value, last := p)) else None
  {
    if w.last.Index? {
      SwitchMeetsAbove(f, w.last, p);
    }
    SwitchIsReplay(f, w, p);
  }

  // ---------------------------------------------------------------- whole runs

  /** The walker offers blocks one by one and stops at the first failure. */
  function Run(f: Fork, w: Walk, offers: seq<BlockIndex>): Option<Walk>
    requires forall p :: p in offers ==> Offered(f, p)
    decreases |offers|
  {
    if offers == [] then Some(w)
    else
      assert Offered(f, offers[0]);
      var next := Offer(f, w, offers[0]);
      if next.None? then None else Run(f, next.value, offers[1..])
  }

  /** No switch that a run can make rolls back below the base. */
  predicate AllStayAbove(f: Fork, last: BlockIndex, offers: seq<BlockIndex>) {
    (forall p :: p in offers ==> StaysAbove(f, last, p)) &&
    forall q, p :: q in offers && p in offers ==> StaysAbove(f, q, p)
  }

  /** After every successful run, whatever reorganisations happened on the way, the three maps are the
      replay from scratch of the chain that ends at the best block, and that block's trust is at least
      that of every block ever offered. */
  lemma {:induction false} RunIsReplay(f: Fork, w: Walk, offers: seq<BlockIndex>)
    requires Linked(f.start, f.parent) && IsReplayed(f, w)
    requires forall p :: p in offers ==> Offered(f, p)
    requires AllStayAbove(f, w.last, offers)
    requires w.last.Null? && offers != [] ==> IsFirst(f, offers[0])
    requires Run(f, w, offers).Some?
    ensures IsBestOf(f, w, offers, Run(f, w, offers).value)
    decreases |offers|
  {
    if offers != [] {
      var p := offers[0];
      assert p in offers;
      OfferKeepsReplayed(f, w, p);
      var next := Offer(f, w, p).value;
      RunIsReplay(f, next, offers[1..]);
      assert offers == [p] + offers[1..];
    }
  }

  /** The walk `w'` holds the replay of the best of the blocks that `w` started with and was offered. */
  predicate IsBestOf(f: Fork, w: Walk, offers: seq<BlockIndex>, w': Walk) {
    IsReplayed(f, w') &&
    (w'.last == w.last || w'.last in offers) &&
    (w.last.Index? ==> w'.last.Index? && w'.last.trust >= w.last.trust) &&
    forall p :: p in offers && p.Index? ==> w'.last.Index? && w'.last.trust >= p.trust
  }

  /** On a joined fork it is enough that every block is later than the joint block; on the primary fork nothing is asked
      of times. */
  lemma LaterRunIsReplay(f: Fork, w: Walk, offers: seq<BlockIndex>)
    requires Linked(f.start, f.parent) && IsReplayed(f, w)
    requires forall p :: p in offers ==> Offered(f, p) && (f.base.Index? ==> IsLater(p, f.base))
    requires f.base.Index? && w.last.Index? ==> IsLater(w.last, f.base)
    requires w.last.Null? && offers != [] ==> IsFirst(f, offers[0])
    requires Run(f, w, offers).Some?
    ensures IsBestOf(f, w, offers, Run(f, w, offers).value)
  {
    if f.base.Index? {
      forall p | p in offers ensures StaysAbove(f, w.last, p) {
        if w.last.Index? {
          BranchAboveLater(w.last, p, f.base);
        }
      }
      forall q, p | q in offers && p in offers ensures StaysAbove(f, q, p) {
        BranchAboveLater(q, p, f.base);
      }
    }
    RunIsReplay(f, w, offers);
  }

  // ---------------------------------------------------------------- InheritCopyData

  /** The removal loop of `InheritCopyData`, which also stops at a null reference. */
  function UndoToJoint(f: Fork, m: Maps, p: BlockIndex, joint: BlockIndex): Option<Maps>
    decreases p
  {
    if p.Null? || p == joint then Some(m)
    else if p.pos !in f.store then None
    else
      var next := RemoveBlock(m, f.parent, f.store[p.pos]);
      if next.None? then None else UndoToJoint(f, next.value, p.prev, joint)
  }

  /** `InheritCopyData`: the fork that a new sub-fork starts from. */
  function Inherit(f: Fork, w: Walk, joint: BlockIndex): Option<Fork> {
    var m := UndoToJoint(f, w.maps, w.last, joint);
    if m.None? then None
    else Some(Fork(joint, Maps(m.value.unspent, map[], map[]), Merge(f.parent, m.value.index), f.store))
  }

  lemma {:induction false} UndoToJointOnChain(f: Fork, m: Maps, p: BlockIndex, joint: BlockIndex)
    requires IsAncestor(joint, p) && joint.Index?
    ensures UndoToJoint(f, m, p, joint) == f.Undo(m, p, joint)
    decreases p
  {
    if p != joint && p.pos in f.store {
      var next := RemoveBlock(m, f.parent, f.store[p.pos]);
      if next.Some? {
        UndoToJointOnChain(f, next.value, p.prev, joint);
      }
    }
  }

  lemma {:induction false} UndoToJointOffChain(f: Fork, m: Maps, p: BlockIndex, joint: BlockIndex)
    requires !IsAncestor(joint, p) && IsAncestor(Null, p)
    ensures UndoToJoint(f, m, p, joint) == f.Undo(m, p, Null)
    decreases p
  {
    if p.Index? && p.pos in f.store {
      var next := RemoveBlock(m, f.parent, f.store[p.pos]);
      if next.Some? {
        UndoToJointOffChain(f, next.value, p.prev, joint);
      }
    }
  }

  lemma {:induction false} TxsKeepApart(m: Maps, parent: IndexMap, vtx: seq<BlockTx>, height: nat, pos: DiskPos)
    requires m.index.Keys !! parent.Keys && TxsFit(m, parent, vtx, height, pos) && AddTxs(m, vtx, height, pos).Some?
    ensures AddTxs(m, vtx, height, pos).value.index.Keys !! parent.Keys
    decreases |vtx|
  {
    if vtx != [] {
      var next := AddTx(m, vtx[0].tx, vtx[0].ctx, height, pos).value;
      TxsKeepApart(next, parent, vtx[1..], height, pos.(offset := pos.offset + vtx[0].tx.size));
    }
  }

  /** A fork's own index and its inherited index never share a transaction. */
  lemma {:induction false} ReplayKeepsApart(f: Fork, p: BlockIndex)
    requires IsAncestor(f.base, p) && f.start.index.Keys !! f.parent.Keys && f.Sound(p) && f.Replay(p).Some?
    ensures f.Replay(p).value.index.Keys !! f.parent.Keys
  {
    if p != f.base {
      ReplayKeepsApart(f, p.prev);
      var m, block := f.Replay(p.prev).value, f.store[p.pos];
      if block.IsRecorded() {
        var minted := AddTx(m, block.mint, NO_CONTEXT, block.height, MintPos(block, p.pos)).value;
        TxsKeepApart(minted, f.parent, block.vtx, block.height, VtxPos(block, p.pos));
      }
    }
  }

  /** What `Inherit` computes when the joint block is on the parent's chain. */
  lemma InheritGives(f: Fork, w: Walk, joint: BlockIndex)
    requires Linked(f.start, f.parent) && f.start.index.Keys !! f.parent.Keys && IsReplayed(f, w) && w.last.Index?
    requires joint.Index? && IsAncestor(f.base, joint) && IsAncestor(joint, w.last)
    ensures f.Replay(joint).Some? && Inherit(f, w, joint).Some? && Linked(f.Replay(joint).value, f.parent)
    ensures var at, g := f.Replay(joint).value, Inherit(f, w, joint).value;
            g.start == Maps(at.unspent, map[], map[]) &&
            forall h :: Lookup(g.start.index, g.parent, h) == Lookup(at.index, f.parent, h)
  {
    UndoToJointOnChain(f, w.maps, w.last, joint);
    UndoIsReplay(f, w.last, joint);
    SoundBelow(f, w.last, joint);
    ReplayIsLinked(f, joint);
    ReplayKeepsApart(f, joint);
  }

  /** A sub-fork inherits exactly the parent's ledger at the joint block, with one index that answers for
      every transaction as the parent's two did, and so it satisfies what `RunIsReplay` asks of a start. */
  lemma InheritIsReplayAtJoint(f: Fork, w: Walk, joint: BlockIndex)
    requires Linked(f.start, f.parent) && f.start.index.Keys !! f.parent.Keys && IsReplayed(f, w) && w.last.Index?
    requires joint.Index? && IsAncestor(f.base, joint) && IsAncestor(joint, w.last)
    ensures f.Replay(joint).Some? && Inherit(f, w, joint).Some?
    ensures var at, g := f.Replay(joint).value, Inherit(f, w, joint).value;
            g.start == Maps(at.unspent, map[], map[]) &&
            (forall h :: Lookup(g.start.index, g.parent, h) == Lookup(at.index, f.parent, h)) &&
            Linked(g.start, g.parent) && g.start.index.Keys !! g.parent.Keys &&
            IsReplayed(g, Walk(g.start, Null, Null))
  {
    InheritGives(f, w, joint);
    var at, g := f.Replay(joint).value, Inherit(f, w, joint).value;
    assert forall p :: p in at.unspent ==> Lookup(g.start.index, g.parent, p.txid) == Lookup(at.index, f.parent, p.txid);
  }

  // ---------------------------------------------------------------- joint blocks off the best chain

  /** The index `parent` answers for every transaction that another fork's two indexes answer for, and as these do. */
  ghost predicate Answers(parent: IndexMap, index: IndexMap, other: IndexMap) {
    forall h :: Lookup(index, other, h).Some? ==> h in parent && parent[h] == Lookup(index, other, h).value
  }

  /** Fork `f` is joined to fork `g`: it starts from the ledger of `g` at its base. */
  ghost predicate IsJoined(f: Fork, g: Fork) {
    f.base.Index? && f.store == g.store && f.start.index == map[] && g.start.index == map[] && Linked(g.start, g.parent) &&
    IsAncestor(g.base, f.base) && g.Sound(f.base) && g.Replay(f.base).Some? &&
    f.start.unspent == g.Replay(f.base).value.unspent && Answers(f.parent, g.Replay(f.base).value.index, g.parent)
  }

  /** A sub-fork that inherited from a fork at a block of its best chain is joined to it. */
  lemma InheritIsJoined(f: Fork, w: Walk, joint: BlockIndex)
    requires Linked(f.start, f.parent) && f.start.index == map[] && IsReplayed(f, w) && w.last.Index?
    requires joint.Index? && IsAncestor(f.base, joint) && IsAncestor(joint, w.last)
    ensures Inherit(f, w, joint).Some? && IsJoined(Inherit(f, w, joint).value, f)
  {
    InheritGives(f, w, joint);
    SoundBelow(f, w.last, joint);
    var at, g := f.Replay(joint).value, Inherit(f, w, joint).value;
    forall h | Lookup(at.index, f.parent, h).Some? ensures h in g.parent && g.parent[h] == Lookup(at.index, f.parent, h).value {
      assert Lookup(g.start.index, g.parent, h) == Lookup(at.index, f.parent, h);
    }
  }

  /** A primary fork, and forks each joined to the one before. */
  ghost predicate IsLineage(line: seq<Fork>) {
    line != [] && line[0].base.Null? && (forall i :: 0 <= i < |line| ==> line[i].start.index == map[]) &&
    forall i :: 0 < i < |line| ==> IsJoined(line[i], line[i - 1])
  }

  /** The maps of a joined fork stand for those of the fork it is joined to: the same unspent outputs, and an inherited
      index that answers for all of theirs. */
  ghost predicate StandsFor(m: Maps, parent: IndexMap, n: Maps, other: IndexMap) {
    m.index == map[] && m.unspent == n.unspent && n.index.Keys !! other.Keys && Answers(parent, n.index, other)
  }

  lemma {:induction false} UnspendStandsFor(u: UnspentMap, parent: IndexMap, index: IndexMap, other: IndexMap,
                                            inputs: seq<OutPoint>, ctx: TxContext, i: nat)
    requires Answers(parent, index, other) && i <= |inputs| && UnspendFrom(u, index, other, inputs, ctx, i).Some?
    ensures UnspendFrom(u, map[], parent, inputs, ctx, i) == UnspendFrom(u, index, other, inputs, ctx, i)
    decreases |inputs| - i
  {
    if i < |inputs| {
      var from := Lookup(index, other, inputs[i].txid);
      assert Lookup(map[], parent, inputs[i].txid) == from;
      var e := Restored(ctx, ctx.vin[i], from.value);
      UnspendStandsFor(AddUnspent(u, inputs[i], e.out, e.txType, e.height).value, parent, index, other, inputs, ctx, i + 1);
    }
  }

  lemma RemoveTxStandsFor(m: Maps, parent: IndexMap, n: Maps, other: IndexMap, tx: Transaction, ctx: TxContext)
    requires StandsFor(m, parent, n, other) && RemoveTx(n, other, tx, ctx).Some?
    ensures RemoveTx(m, parent, tx, ctx).Some?
    ensures StandsFor(RemoveTx(m, parent, tx, ctx).value, parent, RemoveTx(n, other, tx, ctx).value, other)
  {
    UnspendStandsFor(m.unspent, parent, n.index, other, tx.inputs, ctx, 0);
    AnswersWithout(parent, n.index, other, tx.txid);
  }

  lemma AnswersWithout(parent: IndexMap, index: IndexMap, other: IndexMap, txid: nat)
    requires Answers(parent, index, other) && index.Keys !! other.Keys
    ensures Answers(parent, index - {txid}, other)
  {
    forall h | Lookup(index - {txid}, other, h).Some? ensures Lookup(index, other, h) == Lookup(index - {txid}, other, h) {
      assert h in index ==> h !in other;
    }
  }

  lemma {:induction false} RemoveTxsStandFor(m: Maps, parent: IndexMap, n: Maps, other: IndexMap, vtx: seq<BlockTx>)
    requires StandsFor(m, parent, n, other) && RemoveTxs(n, other, vtx).Some?
    ensures RemoveTxs(m, parent, vtx).Some?
    ensures StandsFor(RemoveTxs(m, parent, vtx).value, parent, RemoveTxs(n, other, vtx).value, other)
    decreases |vtx|
  {
    if vtx != [] {
      var last := vtx[|vtx| - 1];
      RemoveTxStandsFor(m, parent, n, other, last.tx, last.ctx);
      RemoveTxsStandFor(RemoveTx(m, parent, last.tx, last.ctx).value, parent, RemoveTx(n, other, last.tx, last.ctx).value, other,
                        vtx[..|vtx| - 1]);
    }
  }

  lemma RemoveBlockStandsFor(m: Maps, parent: IndexMap, n: Maps, other: IndexMap, block: Block)
    requires StandsFor(m, parent, n, other) && RemoveBlock(n, other, block).Some?
    ensures RemoveBlock(m, parent, block).Some?
    ensures StandsFor(RemoveBlock(m, parent, block).value, parent, RemoveBlock(n, other, block).value, other)
  {
    if block.IsRecorded() {
      RemoveTxsStandFor(m, parent, n, other, block.vtx);
      if block.mint.sendTo.Dest? {
        RemoveTxStandsFor(RemoveTxs(m, parent, block.vtx).value, parent, RemoveTxs(n, other, block.vtx).value, other,
                          block.mint, NO_CONTEXT);
      }
    }
  }

  /** A joined fork undoes the blocks of the fork it is joined to as that fork does. */
  lemma {:induction false} UndoStandsFor(f: Fork, g: Fork, m: Maps, n: Maps, p: BlockIndex, a: BlockIndex)
    requires f.store == g.store && IsAncestor(a, p) && StandsFor(m, f.parent, n, g.parent) && g.Undo(n, p, a).Some?
    ensures f.Undo(m, p, a).Some? && StandsFor(f.Undo(m, p, a).value, f.parent, g.Undo(n, p, a).value, g.parent)
    decreases p
  {
    if p != a {
      RemoveBlockStandsFor(m, f.parent, n, g.parent, f.store[p.pos]);
      UndoStandsFor(f, g, RemoveBlock(m, f.parent, f.store[p.pos]).value, RemoveBlock(n, g.parent, f.store[p.pos]).value, p.prev, a);
    }
  }

  lemma {:induction false} UndoSplits(f: Fork, m: Maps, p: BlockIndex, b: BlockIndex, a: BlockIndex)
    requires IsAncestor(b, p) && IsAncestor(a, b) && IsAncestor(a, p) && f.Undo(m, p, b).Some?
    ensures f.Undo(m, p, a) == f.Undo(f.Undo(m, p, b).value, b, a)
    decreases p
  {
    if p != b {
      AncestorDepth(b, p.prev);
      AncestorDepth(a, b);
      UndoSplits(f, RemoveBlock(m, f.parent, f.store[p.pos]).value, p.prev, b, a);
    }
  }

  /** Undone to the end, a joined fork comes to what the primary fork of its line started from. */
  lemma {:induction false} UndoToRoot(line: seq<Fork>, i: nat, f: Fork, m: Maps, p: BlockIndex)
    requires IsLineage(line) && i < |line| && f.store == line[i].store && Linked(line[i].start, line[i].parent)
    requires IsAncestor(line[i].base, p) && line[i].Sound(p) && line[i].Replay(p).Some?
    requires StandsFor(m, f.parent, line[i].Replay(p).value, line[i].parent)
    ensures IsAncestor(Null, p) && f.Undo(m, p, Null).Some? && f.Undo(m, p, Null).value.unspent == line[0].start.unspent
    decreases i
  {
    var g := line[i];
    NullIsAncestor(p);
    NullIsAncestor(g.base);
    UndoIsReplay(g, p, g.base);
    UndoStandsFor(f, g, m, g.Replay(p).value, p, g.base);
    var next := f.Undo(m, p, g.base).value;
    UndoSplits(f, m, p, g.base, Null);
    if i > 0 {
      var h := line[i - 1];
      assert IsJoined(g, h);
      ReplayKeepsApart(h, g.base);
      AnswersThrough(f.parent, g.parent, h.Replay(g.base).value.index, h.parent);
      UndoToRoot(line, i - 1, f, next, g.base);
    }
  }

  lemma AnswersThrough(a: IndexMap, b: IndexMap, index: IndexMap, other: IndexMap)
    requires Answers(a, map[], b) && Answers(b, index, other)
    ensures Answers(a, index, other)
  {
    forall h | Lookup(index, other, h).Some? ensures h in a && a[h] == Lookup(index, other, h).value {
      assert Lookup(map[], b, h).Some?;
    }
  }

  /** A joint block that is not on the best chain of the parent is never met: the loop then removes every block, also those
      of the forks below the parent, and the sub-fork starts from the unspent outputs that the primary fork started from. */
  lemma InheritOffChain(line: seq<Fork>, w: Walk, joint: BlockIndex)
    requires IsLineage(line) && var f := line[|line| - 1]; Linked(f.start, f.parent) && IsReplayed(f, w)
    requires w.last.Index? && joint.Index? && !IsAncestor(joint, w.last)
    ensures var f := line[|line| - 1];
            Inherit(f, w, joint).Some? && Inherit(f, w, joint).value.start.unspent == line[0].start.unspent
  {
    var f := line[|line| - 1];
    NullIsAncestor(w.last);
    NullIsAncestor(f.base);
    UndoToJointOffChain(f, w.maps, w.last, joint);
    UndoIsReplay(f, w.last, f.base);
    UndoSplits(f, w.maps, w.last, f.base, Null);
    if |line| > 1 {
      var g := line[|line| - 2];
      assert IsJoined(f, g);
      ReplayKeepsApart(g, f.base);
      UndoToRoot(line, |line| - 2, f, f.start, f.base);
    }
  }

  /** A sub-fork gets the unspent outputs of its joint block if and only if that block is on the best chain of the parent, or
      the ledger there is no other than the primary fork's start. */
  lemma InheritIsLedger(line: seq<Fork>, w: Walk, joint: BlockIndex)
    requires IsLineage(line) && var f := line[|line| - 1]; Linked(f.start, f.parent) && IsReplayed(f, w)
    requires w.last.Index? && joint.Index? && IsAncestor(line[|line| - 1].base, joint) && line[|line| - 1].Replay(joint).Some?
    ensures var f := line[|line| - 1];
            var at := f.Replay(joint).value.unspent;
            Inherit(f, w, joint).Some? &&
            (Inherit(f, w, joint).value.start.unspent == at <==> IsAncestor(joint, w.last) || at == line[0].start.unspent)
  {
    if IsAncestor(joint, w.last) {
      InheritGives(line[|line| - 1], w, joint);
    } else {
      InheritOffChain(line, w, joint);
    }
  }
}
