/** Inputs on which a sub-fork does not get, or does not keep, the ledger of its own chain. */
module ForkWitness {
  import opened Common
  import opened BlockTree
  import opened Ledger
  import opened Replay

  /** A block whose only transaction mints `amount`. */
  function Minting(kind: BlockKind, time: nat, height: nat, txid: nat, amount: nat): Block {
    Block(kind, time, height, Transaction(txid, TX_STAKE, time, 0, [], Dest(txid), amount, 0, 10), [], 80, 1)
  }

  function VacantBlock(time: nat, height: nat): Block {
    Block(Vacant, time, height, Transaction(0, TX_STAKE, time, 0, [], NoDest, 0, 0, 10), [], 80, 1)
  }

  /** The one output of a minting block. */
  function Minted(u: UnspentMap, block: Block): UnspentMap {
    if block.mint.amount > 0 then u[OutPoint(block.mint.txid, 0) := Unspent(block.mint.Output(), TX_STAKE, block.height)] else u
  }

  /** What a minting block adds. */
  function WithMint(m: Maps, block: Block, pos: DiskPos): Maps {
    Maps(Minted(m.unspent, block), m.index[block.mint.txid := TxIndex(TX_STAKE, block.height, MintPos(block, pos))], m.address)
  }

  predicate IsMinting(block: Block) {
    block.IsRecorded() && block.vtx == [] && block.mint.inputs == [] && block.mint.txType == TX_STAKE && block.mint.sendTo.Dest?
  }

  lemma AddMinting(m: Maps, parent: IndexMap, block: Block, pos: DiskPos)
    requires IsMinting(block) && block.mint.txid !in m.index && OutPoint(block.mint.txid, 0) !in m.unspent
    ensures AddBlock(m, block, pos) == Some(WithMint(m, block, pos)) && Undoable(block)
    ensures block.mint.txid !in parent ==> BlockFits(m, parent, block, pos)
  {
    assert SpendAll(m.unspent, block.mint.inputs) == Some(m.unspent);
    var minted := AddTx(m, block.mint, NO_CONTEXT, block.height, MintPos(block, pos));
    assert minted == Some(WithMint(m, block, pos));
    assert AddTxs(minted.value, block.vtx, block.height, VtxPos(block, pos)) == minted;
  }

  lemma RemoveMinting(m: Maps, parent: IndexMap, block: Block)
    requires IsMinting(block) && block.mint.amount > 0 && OutPoint(block.mint.txid, 0) in m.unspent
    ensures RemoveBlock(m, parent, block) ==
            Some(Maps(m.unspent - {OutPoint(block.mint.txid, 0)}, m.index - {block.mint.txid}, m.address))
  {
    var point := OutPoint(block.mint.txid, 0);
    assert RemoveTxs(m, parent, block.vtx) == Some(m);
    assert UnspendFrom(m.unspent, m.index, parent, block.mint.inputs, NO_CONTEXT, 0) == Some(m.unspent);
    assert [point][1..] == [];
    assert SpendAll(m.unspent, [point]) == Some(m.unspent - {point});
  }

  // ---------------------------------------------------------------- a rollback below the joint block

  const GENESIS := Index(1, Null, Genesis, 1, 0, 0, DiskPos(0, 0))
  const JOINT := Index(2, GENESIS, Primary, 5, 1, 1, DiskPos(0, 1000))
  /** The origin has the time of the primary block at its height, here that of the joint block. */
  const ORIGIN := Index(3, JOINT, Origin, 5, 2, 2, DiskPos(0, 2000))
  const BEST := Index(4, ORIGIN, Vacant, 7, 3, 2, DiskPos(0, 3000))
  /** A vacant block may have the time of the block below it. */
  const TIED := Index(5, ORIGIN, Vacant, 5, 3, 2, DiskPos(0, 4000))
  const BETTER := Index(6, TIED, Subsidiary, 9, 4, 3, DiskPos(0, 5000))

  const JOINT_BLOCK := Minting(Primary, 5, 1, 1, 50)
  const ORIGIN_BLOCK := Minting(Origin, 5, 2, 2, 70)
  const BETTER_BLOCK := Minting(Subsidiary, 9, 4, 3, 0)

  const STORE: BlockStore := map[
    JOINT.pos := JOINT_BLOCK, ORIGIN.pos := ORIGIN_BLOCK, BEST.pos := VacantBlock(7, 3),
    TIED.pos := VacantBlock(5, 3), BETTER.pos := BETTER_BLOCK]

  const AT_GENESIS := Maps(map[], map[], map[])
  const AT_JOINT := WithMint(AT_GENESIS, JOINT_BLOCK, JOINT.pos)

  /** The sub-fork that inherits at the joint block. */
  const SUB_FORK := Fork(JOINT, AT_JOINT.(index := map[]), AT_JOINT.index, STORE)

  const AT_ORIGIN := WithMint(SUB_FORK.start, ORIGIN_BLOCK, ORIGIN.pos)

  lemma SubForkReplays()
    ensures SUB_FORK.Sound(BEST) && SUB_FORK.Replay(BEST) == Some(AT_ORIGIN)
    ensures SUB_FORK.Sound(BETTER) && SUB_FORK.Replay(BETTER) == Some(WithMint(AT_ORIGIN, BETTER_BLOCK, BETTER.pos))
  {
    var f := SUB_FORK;
    assert f.Replay(JOINT) == Some(f.start);
    AddMinting(f.start, f.parent, ORIGIN_BLOCK, ORIGIN.pos);
    assert f.Replay(ORIGIN) == Some(AT_ORIGIN) && f.Sound(ORIGIN);
    assert f.Replay(BEST) == Some(AT_ORIGIN) && f.Sound(BEST);
    assert f.Replay(TIED) == Some(AT_ORIGIN) && f.Sound(TIED);
    AddMinting(AT_ORIGIN, f.parent, BETTER_BLOCK, BETTER.pos);
  }

  /** The walk goes from the best block and the better one to the genesis block, below the joint block. */
  lemma BranchIsGenesis()
    ensures Branch(BEST, BETTER) == Some(GENESIS)
  {
    assert Branch(BEST, BETTER) == Branch(BEST, TIED) == Branch(ORIGIN, TIED) == Branch(JOINT, ORIGIN);
    assert Branch(JOINT, ORIGIN) == Branch(GENESIS, JOINT) == Branch(GENESIS, GENESIS);
  }

  lemma UndoneToGenesis()
    ensures IsAncestor(GENESIS, BEST) && SUB_FORK.Undo(AT_ORIGIN, BEST, GENESIS) == Some(AT_GENESIS)
  {
    var f := SUB_FORK;
    assert IsAncestor(GENESIS, JOINT) && IsAncestor(GENESIS, ORIGIN);
    assert f.Undo(AT_ORIGIN, BEST, GENESIS) == f.Undo(AT_ORIGIN, ORIGIN, GENESIS);
    RemoveMinting(AT_ORIGIN, f.parent, ORIGIN_BLOCK);
    assert Maps(AT_ORIGIN.unspent - {OutPoint(2, 0)}, AT_ORIGIN.index - {2}, map[]) == f.start;
    assert f.Undo(AT_ORIGIN, ORIGIN, GENESIS) == f.Undo(f.start, JOINT, GENESIS);
    RemoveMinting(f.start, f.parent, JOINT_BLOCK);
    assert Maps(f.start.unspent - {OutPoint(1, 0)}, f.start.index - {1}, map[]) == AT_GENESIS;
  }

  lemma RedoneFromGenesis()
    ensures var path := Arm(BETTER, GENESIS);
            SUB_FORK.Redo(AT_GENESIS, path).Some? && 1 in SUB_FORK.Redo(AT_GENESIS, path).value.index
  {
    var f := SUB_FORK;
    var m := WithMint(AT_JOINT, ORIGIN_BLOCK, ORIGIN.pos);
    assert Arm(JOINT, GENESIS) == [JOINT] + [];
    assert Arm(ORIGIN, GENESIS) == [ORIGIN] + Arm(JOINT, GENESIS);
    assert Arm(TIED, GENESIS) == [TIED] + Arm(ORIGIN, GENESIS);
    assert Arm(BETTER, GENESIS) == [BETTER] + Arm(TIED, GENESIS);
    AddMinting(AT_GENESIS, map[], JOINT_BLOCK, JOINT.pos);
    RedoOneMore(f, AT_GENESIS, [], JOINT);
    AddMinting(AT_JOINT, map[], ORIGIN_BLOCK, ORIGIN.pos);
    RedoOneMore(f, AT_GENESIS, Arm(JOINT, GENESIS), ORIGIN);
    RedoOneMore(f, AT_GENESIS, Arm(ORIGIN, GENESIS), TIED);
    AddMinting(m, map[], BETTER_BLOCK, BETTER.pos);
    RedoOneMore(f, AT_GENESIS, Arm(TIED, GENESIS), BETTER);
  }

  lemma SubForkTimes()
    ensures IsAncestor(JOINT, BEST) && IsAncestor(JOINT, BETTER) && !StaysAbove(SUB_FORK, BEST, BETTER)
    ensures NeverFalls(BEST, JOINT) && NeverFalls(BETTER, JOINT)
  {
    BranchIsGenesis();
    assert IsAncestor(JOINT, ORIGIN) && IsAncestor(JOINT, TIED);
    assert NeverFalls(ORIGIN, JOINT) && NeverFalls(TIED, JOINT);
    assert !IsAncestor(JOINT, GENESIS);
  }

  lemma SubForkSwitches()
    ensures var maps := Switch(SUB_FORK, AT_ORIGIN, BEST, BETTER); maps.Some? && 1 in maps.value.index
  {
    BranchIsGenesis();
    UndoneToGenesis();
    RedoneFromGenesis();
  }

  /** Block times that tie with the joint block can make a switch roll back below it. The call succeeds, and the fork's own
      index then holds a transaction of the parent fork: the maps are not the replay of the fork's best chain. */
  lemma SwitchCanRollBackBelowJoint()
    ensures exists f: Fork, w, p ::
              f.base.Index? && Linked(f.start, f.parent) && IsReplayed(f, w) && w.last.Index? && Offered(f, p) &&
              NeverFalls(w.last, f.base) && NeverFalls(p, f.base) && !StaysAbove(f, w.last, p) &&
              Offer(f, w, p).Some? && Some(Offer(f, w, p).value.maps) != f.Replay(p)
  {
    var f, w := SUB_FORK, Walk(AT_ORIGIN, ORIGIN, BEST);
    SubForkReplays();
    SubForkTimes();
    SubForkSwitches();
    assert IsReplayed(f, w) && Offered(f, BETTER) && IsBetter(BETTER, BEST);
    assert Offer(f, w, BETTER).Some?;
  }

  // ---------------------------------------------------------------- a joint block off the best chain

  const FIRST_BLOCK := Minting(Genesis, 1, 0, 9, 100)
  const LONG := Index(7, GENESIS, Vacant, 3, 1, 1, DiskPos(1, 1000))
  const SHORT := Index(8, GENESIS, Vacant, 2, 1, 0, DiskPos(1, 2000))

  const PRIMARY := Fork(Null, AT_GENESIS, map[], map[
    GENESIS.pos := FIRST_BLOCK, LONG.pos := VacantBlock(3, 1), SHORT.pos := VacantBlock(2, 1)])

  /** A sub-fork whose joint block is not on the best chain of the primary fork can start from no output at all, although
      there are unspent ones at that block. */
  lemma OffChainJointLosesLedger()
    ensures exists f: Fork, w, joint ::
              f.base.Null? && Linked(f.start, f.parent) && IsReplayed(f, w) && Offered(f, joint) && f.Replay(joint).Some? &&
              Inherit(f, w, joint).Some? && Inherit(f, w, joint).value.start.unspent == map[] &&
              f.Replay(joint).value.unspent != map[]
  {
    var f := PRIMARY;
    var m := WithMint(AT_GENESIS, FIRST_BLOCK, GENESIS.pos);
    AddMinting(AT_GENESIS, map[], FIRST_BLOCK, GENESIS.pos);
    NullIsAncestor(GENESIS);
    assert f.Replay(GENESIS) == Some(m) && f.Sound(GENESIS);
    assert f.Replay(LONG) == Some(m) && f.Sound(LONG);
    assert f.Replay(SHORT) == Some(m) && f.Sound(SHORT);
    var w := Walk(m, GENESIS, LONG);
    assert IsReplayed(f, w);
    RemoveMinting(m, map[], FIRST_BLOCK);
    assert UndoToJoint(f, m, LONG, SHORT) == UndoToJoint(f, m, GENESIS, SHORT);
    assert m.unspent - {OutPoint(9, 0)} == map[];
    assert OutPoint(9, 0) in m.unspent;
    assert Offered(f, SHORT);
    assert Inherit(f, w, SHORT).Some? && Inherit(f, w, SHORT).value.start.unspent == map[];
  }
}
