/** `CCheckBlockFork`: the ledger of one fork, updated in place while the block files are walked. */
module CheckBlockFork {
  import opened Common
  import opened BlockTree
  import opened Ledger
  import opened Replay

  class BlockFork {
    const store: BlockStore
    var unspent: UnspentMap
    var index: IndexMap
    var address: map<Destination, Relation>
    var parentIndex: IndexMap
    var origin: BlockIndex
    var last: BlockIndex
    /** What the fork started from. */
    ghost var fork: Fork

    ghost function Contents(): Maps
      reads this
    {
      Maps(unspent, index, address)
    }

    ghost function State(): Walk
      reads this
    {
      Walk(Contents(), origin, last)
    }

    /** The maps are linked to each other and are the replay of the chain that ends at `last`. */
    ghost predicate Valid()
      reads this
    {
      fork.store == store && fork.parent == parentIndex && Linked(fork.start, parentIndex) &&
      fork.start.index.Keys !! parentIndex.Keys && IsReplayed(fork, State())
    }

    /** The block lies on the best chain, at or above the base. */
    ghost predicate HasOnChain(p: BlockIndex)
      reads this
    {
      p.Index? && IsAncestor(fork.base, p) && IsAncestor(p, last)
    }

    /** An empty fork above `base`: the primary fork, or an isolated one. */
    constructor (blocks: BlockStore, base: BlockIndex)
      ensures Valid() && store == blocks && last.Null? && origin.Null?
      ensures fork == Fork(base, Maps(map[], map[], map[]), map[], blocks)
    {
      store := blocks;
      unspent, index, address, parentIndex := map[], map[], map[], map[];
      origin, last := Null, Null;
      fork := Fork(base, Maps(map[], map[], map[]), map[], blocks);
    }

    method AddBlockSpent(point: OutPoint) returns (ok: bool)
      modifies this`unspent
      ensures ok <==> point in old(unspent)
      ensures unspent == old(unspent) - {point}
    {
      ok := point in unspent;
      if ok {
        unspent := unspent - {point};
      }
    }

    method AddBlockUnspent(point: OutPoint, out: TxOut, txType: nat, height: nat) returns (ok: bool)
      modifies this`unspent
      ensures ok <==> AddUnspent(old(unspent), point, out, txType, height).Some?
      ensures unspent == if ok then AddUnspent(old(unspent), point, out, txType, height).value else old(unspent)
    {
      ok := true;
      if !out.IsNull() {
        if point in unspent {
          return false;
        }
        unspent := unspent[point := Unspent(out, txType, height)];
      }
    }

    method AddBlockTx(tx: Transaction, ctx: TxContext, height: nat, pos: DiskPos) returns (ok: bool)
      modifies this`unspent, this`index, this`address
      ensures ok <==> AddTx(old(Contents()), tx, ctx, height, pos).Some?
      ensures ok ==> Contents() == AddTx(old(Contents()), tx, ctx, height, pos).value
    {
      if tx.txid in index {
        return false;
      }
      index := index[tx.txid := TxIndex(tx.txType, height, pos)];
      for i := 0 to |tx.inputs|
        invariant SpendAll(old(unspent), tx.inputs) == SpendAll(unspent, tx.inputs[i..])
        invariant index == old(index)[tx.txid := TxIndex(tx.txType, height, pos)] && address == old(address)
      {
        assert tx.inputs[i..][1..] == tx.inputs[i + 1..];
        ok := AddBlockSpent(tx.inputs[i]);
        if !ok {
          return false;
        }
      }
      assert tx.inputs[|tx.inputs|..] == [];
      ok := AddBlockUnspent(OutPoint(tx.txid, 0), tx.Output(), tx.txType, height);
      if !ok {
        return false;
      }
      if tx.HasChange() {
        ok := AddBlockUnspent(OutPoint(tx.txid, 1), tx.Change(ctx), tx.txType, height);
        if !ok {
          return false;
        }
      }
      if tx.BindsRelation(ctx) {
        if tx.sendTo !in address {
          address := address[tx.sendTo := Relation(tx.txid, ctx.destIn)];
        }
      }
    }

    method RemoveBlockTx(tx: Transaction, ctx: TxContext) returns (ok: bool)
      modifies this`unspent, this`index, this`address
      ensures ok <==> RemoveTx(old(Contents()), parentIndex, tx, ctx).Some?
      ensures ok ==> Contents() == RemoveTx(old(Contents()), parentIndex, tx, ctx).value
    {
      for i := 0 to |tx.inputs|
        invariant UnspendFrom(old(unspent), index, parentIndex, tx.inputs, ctx, 0)
               == UnspendFrom(unspent, index, parentIndex, tx.inputs, ctx, i)
        invariant index == old(index) && address == old(address)
      {
        var point := tx.inputs[i];
        var from := Lookup(index, parentIndex, point.txid);
        if from.None? || i >= |ctx.vin| {
          return false;
        }
        var entry := Restored(ctx, ctx.vin[i], from.value);
        ok := AddBlockUnspent(point, entry.out, entry.txType, entry.height);
        if !ok {
          return false;
        }
      }
      ghost var restored := unspent;
      if !tx.Output().IsNull() {
        SpendOne(unspent, OutPoint(tx.txid, 0));
        ok := AddBlockSpent(OutPoint(tx.txid, 0));
        if !ok {
          return false;
        }
      }
      if tx.HasChange() && !tx.Change(ctx).IsNull() {
        SpendOne(unspent, OutPoint(tx.txid, 1));
        ok := AddBlockSpent(OutPoint(tx.txid, 1));
        if !ok {
          return false;
        }
      }
      assert SpendOutputs(restored, tx, ctx) == Some(unspent);
      index := index - {tx.txid};
      if tx.BindsRelation(ctx) {
        if tx.sendTo in address && address[tx.sendTo].txid == tx.txid {
          address := address - {tx.sendTo};
        }
      }
      ok := true;
    }

    method AddBlockData(block: Block, pos: DiskPos) returns (ok: bool)
      modifies this`unspent, this`index, this`address
      ensures ok <==> AddBlock(old(Contents()), block, pos).Some?
      ensures ok ==> Contents() == AddBlock(old(Contents()), block, pos).value
    {
      if !block.IsRecorded() {
        return true;
      }
      var txPos := pos.(offset := pos.offset + block.headSize);
      ok := AddBlockTx(block.mint, NO_CONTEXT, block.height, txPos);
      if !ok {
        return false;
      }
      ghost var minted := Contents();
      txPos := txPos.(offset := txPos.offset + block.mint.size + block.countSize);
      ghost var vtxPos := txPos;
      for i := 0 to |block.vtx|
        invariant AddTxs(minted, block.vtx, block.height, vtxPos)
               == AddTxs(Contents(), block.vtx[i..], block.height, txPos)
      {
        var item := block.vtx[i];
        assert block.vtx[i..][1..] == block.vtx[i + 1..];
        ok := AddBlockTx(item.tx, item.ctx, block.height, txPos);
        if !ok {
          return false;
        }
        txPos := txPos.(offset := txPos.offset + item.tx.size);
      }
      ok := true;
    }

    method RemoveBlockData(block: Block) returns (ok: bool)
      modifies this`unspent, this`index, this`address
      ensures ok <==> RemoveBlock(old(Contents()), parentIndex, block).Some?
      ensures ok ==> Contents() == RemoveBlock(old(Contents()), parentIndex, block).value
    {
      if !block.IsRecorded() {
        return true;
      }
      assert block.vtx[..|block.vtx|] == block.vtx;
      for i := |block.vtx| downto 0
        invariant RemoveTxs(old(Contents()), parentIndex, block.vtx)
               == RemoveTxs(Contents(), parentIndex, block.vtx[..i])
      {
        var item := block.vtx[i];
        assert block.vtx[..i + 1][..i] == block.vtx[..i];
        ok := RemoveBlockTx(item.tx, item.ctx);
        if !ok {
          return false;
        }
      }
      if block.mint.sendTo.Dest? {
        ok := RemoveBlockTx(block.mint, NO_CONTEXT);
        return ok;
      }
      ok := true;
    }

    /** Remove the blocks from `from` down to `to`. */
    method RemoveBranch(from: BlockIndex, to: BlockIndex) returns (ok: bool)
      requires IsAncestor(to, from) && fork.store == store && fork.parent == parentIndex
      modifies this`unspent, this`index, this`address
      ensures ok <==> fork.Undo(old(Contents()), from, to).Some?
      ensures ok ==> Contents() == fork.Undo(old(Contents()), from, to).value
    {
      var p := from;
      while p != to
        invariant IsAncestor(to, p)
        invariant fork.Undo(old(Contents()), from, to) == fork.Undo(Contents(), p, to)
        decreases p
      {
        if p.pos !in store {
          return false;
        }
        ok := RemoveBlockData(store[p.pos]);
        if !ok {
          return false;
        }
        p := p.prev;
      }
      ok := true;
    }

    /** Add the blocks of a newest-first path, oldest first. */
    method AddBranch(path: seq<BlockIndex>) returns (ok: bool)
      requires fork.store == store && forall k :: 0 <= k < |path| ==> path[k].Index?
      modifies this`unspent, this`index, this`address
      ensures ok <==> fork.Redo(old(Contents()), path).Some?
      ensures ok ==> Contents() == fork.Redo(old(Contents()), path).value
    {
      assert path[..|path|] == path;
      for i := |path| downto 0
        invariant fork.Redo(old(Contents()), path) == fork.Redo(Contents(), path[..i])
      {
        var p := path[i];
        assert path[..i + 1][..i] == path[..i];
        if p.pos !in store {
          return false;
        }
        ok := AddBlockData(store[p.pos], p.pos);
        if !ok {
          return false;
        }
      }
      ok := true;
    }

    /** Switch the maps from the best block to `p`: roll back to the branch and add the new arm, or add one block. */
    method SwitchTo(block: Block, p: BlockIndex) returns (ok: bool)
      requires fork.store == store && fork.parent == parentIndex
      requires p.Index? && p.pos in store && store[p.pos] == block
      modifies this`unspent, this`index, this`address
      ensures ok <==> Switch(fork, old(Contents()), last, p).Some?
      ensures ok ==> Contents() == Switch(fork, old(Contents()), last, p).value
    {
      if last.Index? && p.prev != last {
        var branch, path := GetBranch(last, p);
        if branch.None? {
          return false;
        }
        ok := RemoveBranch(last, branch.value);
        if !ok {
          return false;
        }
        ArmIsIndexed(p, branch.value);
        ok := AddBranch(path);
      } else {
        ok := AddBlockData(block, p.pos);
      }
    }

    /** Offer a block to the fork. A call that succeeds leaves the best block the better of the two, and the maps equal to
        the replay of its chain unless the switch rolled back below the base. */
    method AddForkBlock(block: Block, p: BlockIndex) returns (ok: bool)
      requires fork.store == store && fork.parent == parentIndex
      requires p.Index? && p.pos in store && store[p.pos] == block
      modifies this`unspent, this`index, this`address, this`origin, this`last
      ensures ok <==> Offer(fork, old(State()), p).Some?
      ensures ok ==> State() == Offer(fork, old(State()), p).value
      ensures ok ==> last == if IsBetter(p, old(last)) then p else old(last)
      ensures ok && old(Valid()) && Offered(fork, p) && (old(last).Null? ==> IsFirst(fork, p)) && StaysAbove(fork, old(last), p)
              ==> Valid()
    {
      ghost var w := State();
      if p.IsOrigin() {
        if origin.Index? {
          return false;
        }
        origin := p;
      }
      ok := true;
      if last.Null? || !(last.trust > p.trust || (last.trust == p.trust && !p.IsEquivalent(last))) {
        ok := SwitchTo(block, p);
        if ok {
          last := p;
        }
      }
      if ok && old(Valid()) && Offered(fork, p) && (w.last.Null? ==> IsFirst(fork, p)) && StaysAbove(fork, w.last, p) {
        OfferKeepsReplayed(fork, w, p);
      }
    }

    /** Start this fork from `from`'s ledger at the joint block. When the joint block lies on the best chain
        of `from`, the new fork is ready to be walked, from exactly the replay of the chain up to it. */
    method InheritCopyData(from: BlockFork, joint: BlockIndex) returns (ok: bool)
      requires from != this && from.fork.store == from.store == store && from.fork.parent == from.parentIndex
      requires last.Null? && origin.Null?
      modifies this
      ensures ok <==> Inherit(from.fork, from.State(), joint).Some?
      ensures ok ==> fork == Inherit(from.fork, from.State(), joint).value && Contents() == fork.start
      ensures last.Null? && origin.Null?
      ensures from.Valid() && from.HasOnChain(joint) ==>
                ok && Valid() && from.fork.Replay(joint).Some? && unspent == from.fork.Replay(joint).value.unspent
    {
      unspent, index, address, parentIndex := from.unspent, from.index, from.address, from.parentIndex;
      fork := from.fork;
      var p := from.last;
      while p.Index? && p != joint
        invariant fork == from.fork && parentIndex == from.parentIndex && last.Null? && origin.Null?
        invariant UndoToJoint(fork, from.Contents(), from.last, joint) == UndoToJoint(fork, Contents(), p, joint)
        decreases p
      {
        if p.pos !in store {
          if from.Valid() && from.HasOnChain(joint) {
            InheritIsReplayAtJoint(from.fork, from.State(), joint);
          }
          return false;
        }
        ok := RemoveBlockData(store[p.pos]);
        if !ok {
          if from.Valid() && from.HasOnChain(joint) {
            InheritIsReplayAtJoint(from.fork, from.State(), joint);
          }
          return false;
        }
        p := p.prev;
      }
      parentIndex := Merge(parentIndex, index);
      index, address := map[], map[];
      fork := Fork(joint, Contents(), parentIndex, store);
      if from.Valid() && from.HasOnChain(joint) {
        InheritIsReplayAtJoint(from.fork, from.State(), joint);
      }
      ok := true;
    }
  }

  lemma SpendOne(u: UnspentMap, point: OutPoint)
    ensures SpendAll(u, [point]) == if point in u then Some(u - {point}) else None
  {
    assert [point][1..] == [];
  }

  lemma {:induction false} ArmIsIndexed(p: BlockIndex, a: BlockIndex)
    requires IsAncestor(a, p)
    ensures forall k :: 0 <= k < |Arm(p, a)| ==> Arm(p, a)[k].Index?
  {
    if p != a {
      ArmIsIndexed(p.prev, a);
    }
  }
}
