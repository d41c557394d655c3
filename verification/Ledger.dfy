/** The three maps that `CCheckBlockFork` keeps for one fork, and what adding and removing a
    transaction or a block does to them. Everything here is a function on values; the class
    in CheckBlockFork.dfy runs the same operations in place. */
module Ledger {
  import opened Common
  import opened BlockTree

  // ---------------------------------------------------------------- data

  datatype Destination = NoDest | Dest(id: nat)

  datatype OutPoint = OutPoint(txid: nat, n: nat)

  datatype TxOut = TxOut(dest: Destination, amount: int, time: nat, lockUntil: nat)
  {
    predicate IsNull() {
      dest.NoDest? || amount <= 0
    }
  }

  /** `CCheckTxOut`: an output with the type and the height of the transaction it came from. */
  datatype Unspent = Unspent(out: TxOut, txType: nat, height: nat)

  datatype TxInContext = TxInContext(amount: int, time: nat, lockUntil: nat)

  /** `CTxContxt`: what a transaction's inputs were worth, kept beside the block on disk. */
  datatype TxContext = TxContext(destIn: Destination, vin: seq<TxInContext>)
  {
    function ValueIn(): int {
      SumAmounts(vin)
    }
  }

  function SumAmounts(vin: seq<TxInContext>): int {
    if vin == [] then 0 else vin[0].amount + SumAmounts(vin[1..])
  }

  const NO_CONTEXT := TxContext(NoDest, [])

  const TX_GENESIS := 0x0100
  const TX_STAKE := 0x0200
  const TX_WORK := 0x0300
  const TX_DEFI_REWARD := 0x0001
  const TX_DEFI_RELATION := 0x0002

  /** A transaction; its hash is opaque and carried as `txid`, its serialized size as `size`. */
  datatype Transaction = Transaction(
    txid: nat, txType: nat, time: nat, lockUntil: nat, inputs: seq<OutPoint>,
    sendTo: Destination, amount: int, fee: int, size: nat)
  {
    predicate IsNull() {
      inputs == [] && sendTo.NoDest?
    }

    predicate IsMint() {
      txType == TX_GENESIS || txType == TX_STAKE || txType == TX_WORK
    }

    /** Whether the transaction has a change output. */
    predicate HasChange() {
      !IsMint() && txType != TX_DEFI_REWARD
    }

    function Output(): TxOut {
      TxOut(sendTo, amount, time, lockUntil)
    }

    function Change(ctx: TxContext): TxOut {
      TxOut(ctx.destIn, ctx.ValueIn() - amount - fee, time, 0)
    }

    predicate BindsRelation(ctx: TxContext) {
      txType == TX_DEFI_RELATION && sendTo != ctx.destIn
    }
  }

  datatype TxIndex = TxIndex(txType: nat, height: nat, pos: DiskPos)

  /** The transaction that bound an address, and the address it was bound to. */
  datatype Relation = Relation(txid: nat, parent: Destination)

  type UnspentMap = map<OutPoint, Unspent>
  type IndexMap = map<nat, TxIndex>

  /** `mapBlockUnspent`, `mapBlockTxIndex` and `mapBlockAddress`. */
  datatype Maps = Maps(unspent: UnspentMap, index: IndexMap, address: map<Destination, Relation>)

  datatype BlockTx = BlockTx(tx: Transaction, ctx: TxContext)

  /** A block as read back from disk. `headSize` is the serialized size of what precedes the mint
      transaction, `countSize` that of the transaction count. */
  datatype Block = Block(
    kind: BlockKind, time: nat, height: nat, mint: Transaction, vtx: seq<BlockTx>,
    headSize: nat, countSize: nat)
  {
    predicate IsNull() {
      kind.Undefined? || time == 0 || mint.IsNull()
    }

    /** Whether `AddBlockData` and `RemoveBlockData` look at the block at all. */
    predicate IsRecorded() {
      !IsNull() && (!kind.Vacant? || mint.sendTo.Dest?)
    }
  }

  type BlockStore = map<DiskPos, Block>

  // ---------------------------------------------------------------- adding

  /** `AddBlockSpent` for each input in turn. */
  function SpendAll(u: UnspentMap, inputs: seq<OutPoint>): Option<UnspentMap>
    decreases |inputs|
  {
    if inputs == [] then Some(u)
    else if inputs[0] !in u then None
    else SpendAll(u - {inputs[0]}, inputs[1..])
  }

  /** `AddBlockUnspent`: a null output is passed over, a known point is an error. */
  function AddUnspent(u: UnspentMap, point: OutPoint, out: TxOut, txType: nat, height: nat): Option<UnspentMap> {
    if out.IsNull() then Some(u)
    else if point in u then None
    else Some(u[point := Unspent(out, txType, height)])
  }

  /** The unspent map after the inputs are spent and the outputs added. */
  function AddOutputs(u: UnspentMap, tx: Transaction, ctx: TxContext, height: nat): Option<UnspentMap> {
    var u0 := AddUnspent(u, OutPoint(tx.txid, 0), tx.Output(), tx.txType, height);
    if u0.None? || !tx.HasChange() then u0
    else AddUnspent(u0.value, OutPoint(tx.txid, 1), tx.Change(ctx), tx.txType, height)
  }

  function Bind(a: map<Destination, Relation>, tx: Transaction, ctx: TxContext): map<Destination, Relation> {
    if tx.BindsRelation(ctx) && tx.sendTo !in a then a[tx.sendTo := Relation(tx.txid, ctx.destIn)] else a
  }

  /** `AddBlockTx`. */
  function AddTx(m: Maps, tx: Transaction, ctx: TxContext, height: nat, pos: DiskPos): Option<Maps> {
    if tx.txid in m.index then None
    else
      var spent := SpendAll(m.unspent, tx.inputs);
      if spent.None? then None
      else
        var added := AddOutputs(spent.value, tx, ctx, height);
        if added.None? then None
        else Some(Maps(added.value, m.index[tx.txid := TxIndex(tx.txType, height, pos)], Bind(m.address, tx, ctx)))
  }

  /** The loop of `AddBlockData` over the transactions of a block. */
  function AddTxs(m: Maps, vtx: seq<BlockTx>, height: nat, pos: DiskPos): Option<Maps>
    decreases |vtx|
  {
    if vtx == [] then Some(m)
    else
      var next := AddTx(m, vtx[0].tx, vtx[0].ctx, height, pos);
      if next.None? then None
      else AddTxs(next.value, vtx[1..], height, pos.(offset := pos.offset + vtx[0].tx.size))
  }

  function MintPos(block: Block, pos: DiskPos): DiskPos {
    pos.(offset := pos.offset + block.headSize)
  }

  function VtxPos(block: Block, pos: DiskPos): DiskPos {
    pos.(offset := pos.offset + block.headSize + block.mint.size + block.countSize)
  }

  /** `AddBlockData`. */
  function AddBlock(m: Maps, block: Block, pos: DiskPos): Option<Maps> {
    if !block.IsRecorded() then Some(m)
    else
      var minted := AddTx(m, block.mint, NO_CONTEXT, block.height, MintPos(block, pos));
      if minted.None? then None
      else AddTxs(minted.value, block.vtx, block.height, VtxPos(block, pos))
  }

  // ---------------------------------------------------------------- removing

  /** The index entry of a transaction: this fork's own first, then the inherited ones. */
  function Lookup(index: IndexMap, parent: IndexMap, txid: nat): Option<TxIndex> {
    if txid in index then Some(index[txid])
    else if txid in parent then Some(parent[txid])
    else None
  }

  /** The entry that `RemoveBlockTx` puts back for an input. */
  function Restored(ctx: TxContext, vin: TxInContext, from: TxIndex): Unspent {
    Unspent(TxOut(ctx.destIn, vin.amount, vin.time, vin.lockUntil), from.txType, from.height)
  }

  /** The first loop of `RemoveBlockTx`, from input `i` on. A context with too few inputs, which the
      source would read out of bounds, fails here. */
  function UnspendFrom(u: UnspentMap, index: IndexMap, parent: IndexMap, inputs: seq<OutPoint>, ctx: TxContext, i: nat)
    : Option<UnspentMap>
    requires i <= |inputs|
    decreases |inputs| - i
  {
    if i == |inputs| then Some(u)
    else
      var from := Lookup(index, parent, inputs[i].txid);
      if from.None? || i >= |ctx.vin| then None
      else
        var e := Restored(ctx, ctx.vin[i], from.value);
        var next := AddUnspent(u, inputs[i], e.out, e.txType, e.height);
        if next.None? then None else UnspendFrom(next.value, index, parent, inputs, ctx, i + 1)
  }

  /** `AddBlockSpent` of an output that is not null. */
  function SpendOutput(u: UnspentMap, point: OutPoint, out: TxOut): Option<UnspentMap> {
    if out.IsNull() then Some(u) else SpendAll(u, [point])
  }

  function SpendOutputs(u: UnspentMap, tx: Transaction, ctx: TxContext): Option<UnspentMap> {
    var u0 := SpendOutput(u, OutPoint(tx.txid, 0), tx.Output());
    if u0.None? || !tx.HasChange() then u0
    else SpendOutput(u0.value, OutPoint(tx.txid, 1), tx.Change(ctx))
  }

  function Unbind(a: map<Destination, Relation>, tx: Transaction, ctx: TxContext): map<Destination, Relation> {
    if tx.BindsRelation(ctx) && tx.sendTo in a && a[tx.sendTo].txid == tx.txid then a - {tx.sendTo} else a
  }

  /** `RemoveBlockTx`. */
  function RemoveTx(m: Maps, parent: IndexMap, tx: Transaction, ctx: TxContext): Option<Maps> {
    var unspent := UnspendFrom(m.unspent, m.index, parent, tx.inputs, ctx, 0);
    if unspent.None? then None
    else
      var spent := SpendOutputs(unspent.value, tx, ctx);
      if spent.None? then None
      else Some(Maps(spent.value, m.index - {tx.txid}, Unbind(m.address, tx, ctx)))
  }

  /** The loop of `RemoveBlockData`, last transaction first. */
  function RemoveTxs(m: Maps, parent: IndexMap, vtx: seq<BlockTx>): Option<Maps>
    decreases |vtx|
  {
    if vtx == [] then Some(m)
    else
      var last := vtx[|vtx| - 1];
      var next := RemoveTx(m, parent, last.tx, last.ctx);
      if next.None? then None else RemoveTxs(next.value, parent, vtx[..|vtx| - 1])
  }

  /** `RemoveBlockData`: unlike `AddBlockData` it leaves a mint transaction without a target alone. */
  function RemoveBlock(m: Maps, parent: IndexMap, block: Block): Option<Maps> {
    if !block.IsRecorded() then Some(m)
    else
      var unminted := RemoveTxs(m, parent, block.vtx);
      if unminted.None? || block.mint.sendTo.NoDest? then unminted
      else RemoveTx(unminted.value, parent, block.mint, NO_CONTEXT)
  }

  // ---------------------------------------------------------------- contexts

  /** `CBlockChain::GetTxContxt`, from input `i` on: the context that is stored with a transaction. */
  function ContextFrom(u: UnspentMap, inputs: seq<OutPoint>, i: nat, ctx: TxContext): Option<TxContext>
    requires i <= |inputs|
    decreases |inputs| - i
  {
    if i == |inputs| then Some(ctx)
    else if inputs[i] !in u then None
    else
      var out := u[inputs[i]].out;
      if ctx.destIn.Dest? && ctx.destIn != out.dest then None
      else
        var vin := ctx.vin + [TxInContext(out.amount, out.time, out.lockUntil)];
        ContextFrom(u, inputs, i + 1, TxContext(if ctx.destIn.NoDest? then out.dest else ctx.destIn, vin))
  }

  /** The stored context is the one `GetTxContxt` computed when the block was accepted, and the
      transaction hash is not one of the parent fork's. */
  predicate TxFits(m: Maps, parent: IndexMap, tx: Transaction, ctx: TxContext) {
    ContextFrom(m.unspent, tx.inputs, 0, NO_CONTEXT) == Some(ctx) && tx.txid !in parent
  }

  predicate TxsFit(m: Maps, parent: IndexMap, vtx: seq<BlockTx>, height: nat, pos: DiskPos)
    decreases |vtx|
  {
    vtx == [] ||
    (TxFits(m, parent, vtx[0].tx, vtx[0].ctx) &&
     var next := AddTx(m, vtx[0].tx, vtx[0].ctx, height, pos);
     next.Some? ==> TxsFit(next.value, parent, vtx[1..], height, pos.(offset := pos.offset + vtx[0].tx.size)))
  }

  /** What block acceptance guarantees of a block on top of `m`. */
  predicate BlockFits(m: Maps, parent: IndexMap, block: Block, pos: DiskPos) {
    block.IsRecorded() ==>
      (block.mint.sendTo.Dest? ==> TxFits(m, parent, block.mint, NO_CONTEXT)) &&
      block.mint.txid !in parent &&
      var minted := AddTx(m, block.mint, NO_CONTEXT, block.height, MintPos(block, pos));
      minted.Some? ==> TxsFit(minted.value, parent, block.vtx, block.height, VtxPos(block, pos))
  }

  // ---------------------------------------------------------------- the invariant across the maps

  /** Every unspent output is a real one and carries the type and height that the index gives for its
      transaction; every bound address names a transaction of this fork. */
  ghost predicate Linked(m: Maps, parent: IndexMap) {
    (forall p :: p in m.unspent ==>
       !m.unspent[p].out.IsNull() &&
       Lookup(m.index, parent, p.txid).Some? &&
       Lookup(m.index, parent, p.txid).value.txType == m.unspent[p].txType &&
       Lookup(m.index, parent, p.txid).value.height == m.unspent[p].height) &&
    (forall d :: d in m.address ==> m.address[d].txid in m.index)
  }

  /** Spending is all or nothing: it works exactly for distinct known points, and erases just those. */
  lemma {:induction false} SpendAllMeaning(u: UnspentMap, inputs: seq<OutPoint>)
    ensures SpendAll(u, inputs).Some? <==> Distinct(inputs) && forall p :: p in inputs ==> p in u
    ensures SpendAll(u, inputs).Some? ==> SpendAll(u, inputs).value == u - (set p | p in inputs)
    decreases |inputs|
  {
    if inputs != [] {
      var rest := inputs[1..];
      assert inputs == [inputs[0]] + rest;
      if inputs[0] in u {
        SpendAllMeaning(u - {inputs[0]}, rest);
        assert (u - {inputs[0]}) - (set p | p in rest) == u - (set p | p in inputs);
        assert forall i :: 0 <= i < |rest| ==> rest[i] == inputs[i + 1];
        if SpendAll(u, inputs).Some? {
          assert inputs[0] !in rest;
          forall i, j | 0 <= i < j < |inputs| ensures inputs[i] != inputs[j] {
            assert inputs[j] == rest[j - 1];
            if i > 0 { assert inputs[i] == rest[i - 1]; }
          }
        }
      }
    }
  }

  /** What the stored context of a transaction says about the outputs it spends. */
  lemma {:induction false} ContextMeaning(u: UnspentMap, inputs: seq<OutPoint>, i: nat, ctx: TxContext)
    requires i <= |inputs| && ContextFrom(u, inputs, i, ctx).Some? && |ctx.vin| == i
    requires forall p :: p in u ==> u[p].out.dest.Dest?
    ensures var r := ContextFrom(u, inputs, i, ctx).value;
            |r.vin| == |inputs| && r.vin[..i] == ctx.vin && (ctx.destIn.Dest? ==> r.destIn == ctx.destIn) &&
            forall k :: i <= k < |inputs| ==>
              inputs[k] in u &&
              u[inputs[k]].out == TxOut(r.destIn, r.vin[k].amount, r.vin[k].time, r.vin[k].lockUntil)
    decreases |inputs| - i
  {
    if i < |inputs| {
      var out := u[inputs[i]].out;
      var vin := ctx.vin + [TxInContext(out.amount, out.time, out.lockUntil)];
      var next := TxContext(if ctx.destIn.NoDest? then out.dest else ctx.destIn, vin);
      ContextMeaning(u, inputs, i + 1, next);
      var r := ContextFrom(u, inputs, i, ctx).value;
      assert r.vin[i] == r.vin[..i + 1][i];
      assert r.vin[..i] == r.vin[..i + 1][..i];
    }
  }

  // ---------------------------------------------------------------- undoing a transaction

  /** The entry put back for input `k` is the one that `before` held. */
  predicate PutsBack(
    before: UnspentMap, index: IndexMap, parent: IndexMap, inputs: seq<OutPoint>, ctx: TxContext, k: nat)
    requires k < |inputs| <= |ctx.vin|
  {
    inputs[k] in before && !before[inputs[k]].out.IsNull() &&
    var from := Lookup(index, parent, inputs[k].txid);
    from.Some? && before[inputs[k]] == Restored(ctx, ctx.vin[k], from.value)
  }

  function EntriesOf(before: UnspentMap, points: seq<OutPoint>): UnspentMap {
    map p | p in points && p in before :: before[p]
  }

  /** Re-adding the inputs puts back what `before` held for them. */
  lemma {:induction false} UnspendMeaning(
    u: UnspentMap, before: UnspentMap, index: IndexMap, parent: IndexMap, inputs: seq<OutPoint>, ctx: TxContext, i: nat)
    requires i <= |inputs| <= |ctx.vin| && Distinct(inputs)
    requires forall k :: i <= k < |inputs| ==> inputs[k] !in u
    requires forall k :: i <= k < |inputs| ==> PutsBack(before, index, parent, inputs, ctx, k)
    ensures UnspendFrom(u, index, parent, inputs, ctx, i) == Some(u + EntriesOf(before, inputs[i..]))
    decreases |inputs| - i
  {
    if i < |inputs| {
      assert PutsBack(before, index, parent, inputs, ctx, i);
      var u' := u[inputs[i] := before[inputs[i]]];
      assert UnspendFrom(u, index, parent, inputs, ctx, i) == UnspendFrom(u', index, parent, inputs, ctx, i + 1);
      UnspendMeaning(u', before, index, parent, inputs, ctx, i + 1);
      EntriesStep(u, before, inputs, i);
    } else {
      assert u + EntriesOf(before, inputs[i..]) == u;
    }
  }

  lemma EntriesStep(u: UnspentMap, before: UnspentMap, inputs: seq<OutPoint>, i: nat)
    requires i < |inputs| && inputs[i] in before
    ensures u[inputs[i] := before[inputs[i]]] + EntriesOf(before, inputs[i + 1..]) == u + EntriesOf(before, inputs[i..])
  {
    assert inputs[i..] == [inputs[i]] + inputs[i + 1..];
  }

  /** Adding the outputs and then spending them changes nothing else. */
  lemma OutputsMeaning(u: UnspentMap, tx: Transaction, ctx: TxContext, height: nat)
    requires AddOutputs(u, tx, ctx, height).Some?
    requires forall p :: p in u ==> p.txid != tx.txid
    ensures forall p :: p in AddOutputs(u, tx, ctx, height).value ==>
              (p in u && AddOutputs(u, tx, ctx, height).value[p] == u[p]) ||
              (p.txid == tx.txid && !AddOutputs(u, tx, ctx, height).value[p].out.IsNull() &&
               AddOutputs(u, tx, ctx, height).value[p].txType == tx.txType &&
               AddOutputs(u, tx, ctx, height).value[p].height == height)
    ensures forall p :: p in u ==> p in AddOutputs(u, tx, ctx, height).value
  {
  }

  lemma SpendOutputIs(u: UnspentMap, point: OutPoint, out: TxOut)
    requires out.IsNull() || point in u
    ensures SpendOutput(u, point, out) == Some(if out.IsNull() then u else u - {point})
  {
    SpendAllMeaning(u, [point]);
    assert (set p | p in [point]) == {point};
  }

  lemma SpendOutputsUndoes(u: UnspentMap, v: UnspentMap, tx: Transaction, ctx: TxContext, height: nat)
    requires AddOutputs(u, tx, ctx, height).Some?
    requires forall p :: p in v ==> p.txid != tx.txid
    requires forall p :: p in u ==> p.txid != tx.txid
    ensures SpendOutputs(AddOutputs(u, tx, ctx, height).value + v, tx, ctx) == Some(u + v)
  {
    var w := AddOutputs(u, tx, ctx, height).value + v;
    var p0, p1 := OutPoint(tx.txid, 0), OutPoint(tx.txid, 1);
    SpendOutputIs(w, p0, tx.Output());
    var w0 := if tx.Output().IsNull() then w else w - {p0};
    if tx.HasChange() {
      SpendOutputIs(w0, p1, tx.Change(ctx));
      var w1 := if tx.Change(ctx).IsNull() then w0 else w0 - {p1};
      assert w1 == u + v;
    } else {
      assert w0 == u + v;
    }
  }

  /** `AddBlockTx` keeps the maps linked. */
  lemma AddTxKeepsLinked(m: Maps, parent: IndexMap, tx: Transaction, ctx: TxContext, height: nat, pos: DiskPos)
    requires Linked(m, parent) && tx.txid !in parent && AddTx(m, tx, ctx, height, pos).Some?
    ensures Linked(AddTx(m, tx, ctx, height, pos).value, parent)
  {
    SpendAllMeaning(m.unspent, tx.inputs);
    OutputsMeaning(SpendAll(m.unspent, tx.inputs).value, tx, ctx, height);
  }

  /** The inputs of a transaction that fits are all put back when it is removed. */
  lemma InputsPutBack(m: Maps, parent: IndexMap, tx: Transaction, ctx: TxContext, index: IndexMap)
    requires Linked(m, parent) && TxFits(m, parent, tx, ctx) && tx.txid !in m.index
    requires forall h :: h != tx.txid ==> (h in index <==> h in m.index) && (h in index ==> index[h] == m.index[h])
    ensures |ctx.vin| == |tx.inputs|
    ensures forall k :: 0 <= k < |tx.inputs| ==> PutsBack(m.unspent, index, parent, tx.inputs, ctx, k)
  {
    ContextMeaning(m.unspent, tx.inputs, 0, NO_CONTEXT);
    forall k | 0 <= k < |tx.inputs| ensures PutsBack(m.unspent, index, parent, tx.inputs, ctx, k) {
      assert tx.inputs[k] in m.unspent;
      assert Lookup(index, parent, tx.inputs[k].txid) == Lookup(m.index, parent, tx.inputs[k].txid);
    }
  }

  /** `RemoveBlockTx` exactly undoes `AddBlockTx` on all three maps, restored types and heights included. */
  lemma RemoveTxUndoes(m: Maps, parent: IndexMap, tx: Transaction, ctx: TxContext, height: nat, pos: DiskPos)
    requires Linked(m, parent) && TxFits(m, parent, tx, ctx) && AddTx(m, tx, ctx, height, pos).Some?
    ensures RemoveTx(AddTx(m, tx, ctx, height, pos).value, parent, tx, ctx) == Some(m)
  {
    var m' := AddTx(m, tx, ctx, height, pos).value;
    InputsPutBack(m, parent, tx, ctx, m'.index);
    UnspentUndone(m, parent, tx, ctx, height, m'.index);
    assert m'.index - {tx.txid} == m.index;
    assert Unbind(m'.address, tx, ctx) == m.address;
  }

  lemma UnspentUndone(m: Maps, parent: IndexMap, tx: Transaction, ctx: TxContext, height: nat, index: IndexMap)
    requires |ctx.vin| == |tx.inputs|
    requires forall k :: 0 <= k < |tx.inputs| ==> PutsBack(m.unspent, index, parent, tx.inputs, ctx, k)
    requires forall p :: p in m.unspent ==> p.txid != tx.txid
    requires SpendAll(m.unspent, tx.inputs).Some?
    requires AddOutputs(SpendAll(m.unspent, tx.inputs).value, tx, ctx, height).Some?
    ensures var added := AddOutputs(SpendAll(m.unspent, tx.inputs).value, tx, ctx, height).value;
            var unspent := UnspendFrom(added, index, parent, tx.inputs, ctx, 0);
            unspent.Some? && SpendOutputs(unspent.value, tx, ctx) == Some(m.unspent)
  {
    var spent := SpendAll(m.unspent, tx.inputs).value;
    var added := AddOutputs(spent, tx, ctx, height).value;
    SpendAllMeaning(m.unspent, tx.inputs);
    OutputsMeaning(spent, tx, ctx, height);
    forall k | 0 <= k < |tx.inputs| ensures tx.inputs[k] !in added && tx.inputs[k].txid != tx.txid {
      assert PutsBack(m.unspent, index, parent, tx.inputs, ctx, k);
    }
    UnspendMeaning(added, m.unspent, index, parent, tx.inputs, ctx, 0);
    assert tx.inputs[0..] == tx.inputs;
    var back := EntriesOf(m.unspent, tx.inputs);
    SpendOutputsUndoes(spent, back, tx, ctx, height);
    assert spent + back == m.unspent;
  }

  // ---------------------------------------------------------------- undoing a block

  lemma {:induction false} AddTxsSplit(m: Maps, vtx: seq<BlockTx>, height: nat, pos: DiskPos)
    requires vtx != []
    ensures var n := |vtx| - 1;
            AddTxs(m, vtx, height, pos) ==
            (var init := AddTxs(m, vtx[..n], height, pos);
             if init.None? then None
             else AddTx(init.value, vtx[n].tx, vtx[n].ctx, height, OffsetAfter(pos, vtx[..n])))
    decreases |vtx|
  {
    var n := |vtx| - 1;
    var next := AddTx(m, vtx[0].tx, vtx[0].ctx, height, pos);
    if n > 0 && next.Some? {
      AddTxsSplit(next.value, vtx[1..], height, pos.(offset := pos.offset + vtx[0].tx.size));
      assert vtx[..n][1..] == vtx[1..][..n - 1];
      assert vtx[1..][n - 1] == vtx[n];
    }
  }

  function OffsetAfter(pos: DiskPos, vtx: seq<BlockTx>): DiskPos
    decreases |vtx|
  {
    if vtx == [] then pos else OffsetAfter(pos.(offset := pos.offset + vtx[0].tx.size), vtx[1..])
  }

  lemma {:induction false} TxsFitSplit(m: Maps, parent: IndexMap, vtx: seq<BlockTx>, height: nat, pos: DiskPos)
    requires vtx != [] && TxsFit(m, parent, vtx, height, pos)
    ensures var n := |vtx| - 1;
            TxsFit(m, parent, vtx[..n], height, pos) &&
            var init := AddTxs(m, vtx[..n], height, pos);
            init.Some? ==> TxFits(init.value, parent, vtx[n].tx, vtx[n].ctx)
    decreases |vtx|
  {
    var n := |vtx| - 1;
    var next := AddTx(m, vtx[0].tx, vtx[0].ctx, height, pos);
    if n > 0 && next.Some? {
      TxsFitSplit(next.value, parent, vtx[1..], height, pos.(offset := pos.offset + vtx[0].tx.size));
      assert vtx[..n][1..] == vtx[1..][..n - 1];
      assert vtx[1..][n - 1] == vtx[n];
    }
  }

  lemma {:induction false} AddTxsKeepLinked(m: Maps, parent: IndexMap, vtx: seq<BlockTx>, height: nat, pos: DiskPos)
    requires Linked(m, parent) && TxsFit(m, parent, vtx, height, pos) && AddTxs(m, vtx, height, pos).Some?
    ensures Linked(AddTxs(m, vtx, height, pos).value, parent)
    decreases |vtx|
  {
    if vtx != [] {
      AddTxKeepsLinked(m, parent, vtx[0].tx, vtx[0].ctx, height, pos);
      var next := AddTx(m, vtx[0].tx, vtx[0].ctx, height, pos).value;
      AddTxsKeepLinked(next, parent, vtx[1..], height, pos.(offset := pos.offset + vtx[0].tx.size));
    }
  }

  lemma {:induction false} RemoveTxsUndoes(m: Maps, parent: IndexMap, vtx: seq<BlockTx>, height: nat, pos: DiskPos)
    requires Linked(m, parent) && TxsFit(m, parent, vtx, height, pos) && AddTxs(m, vtx, height, pos).Some?
    ensures RemoveTxs(AddTxs(m, vtx, height, pos).value, parent, vtx) == Some(m)
    decreases |vtx|
  {
    if vtx != [] {
      var n := |vtx| - 1;
      AddTxsSplit(m, vtx, height, pos);
      TxsFitSplit(m, parent, vtx, height, pos);
      var init := AddTxs(m, vtx[..n], height, pos).value;
      AddTxsKeepLinked(m, parent, vtx[..n], height, pos);
      RemoveTxUndoes(init, parent, vtx[n].tx, vtx[n].ctx, height, OffsetAfter(pos, vtx[..n]));
      RemoveTxsUndoes(m, parent, vtx[..n], height, pos);
    }
  }

  /** The block-level condition under which removing undoes adding. */
  predicate Undoable(block: Block) {
    block.IsRecorded() ==> block.mint.sendTo.Dest?
  }

  lemma AddBlockKeepsLinked(m: Maps, parent: IndexMap, block: Block, pos: DiskPos)
    requires Linked(m, parent) && BlockFits(m, parent, block, pos) && AddBlock(m, block, pos).Some?
    ensures Linked(AddBlock(m, block, pos).value, parent)
  {
    if block.IsRecorded() {
      AddTxKeepsLinked(m, parent, block.mint, NO_CONTEXT, block.height, MintPos(block, pos));
      var minted := AddTx(m, block.mint, NO_CONTEXT, block.height, MintPos(block, pos)).value;
      AddTxsKeepLinked(minted, parent, block.vtx, block.height, VtxPos(block, pos));
    }
  }

  /** `RemoveBlockData` undoes `AddBlockData` on every map, whatever the block spends of itself, if and
      only if a recorded block's mint transaction has a target: without one `AddBlockData` records the
      mint transaction and `RemoveBlockData` forgets it there. */
  lemma RemoveBlockUndoes(m: Maps, parent: IndexMap, block: Block, pos: DiskPos)
    requires Linked(m, parent) && BlockFits(m, parent, block, pos) && AddBlock(m, block, pos).Some?
    ensures RemoveBlock(AddBlock(m, block, pos).value, parent, block) == Some(m) <==> Undoable(block)
  {
    if block.IsRecorded() {
      AddTxKeepsLinked(m, parent, block.mint, NO_CONTEXT, block.height, MintPos(block, pos));
      var minted := AddTx(m, block.mint, NO_CONTEXT, block.height, MintPos(block, pos)).value;
      RemoveTxsUndoes(minted, parent, block.vtx, block.height, VtxPos(block, pos));
      if block.mint.sendTo.Dest? {
        RemoveTxUndoes(m, parent, block.mint, NO_CONTEXT, block.height, MintPos(block, pos));
      } else {
        assert block.mint.txid in minted.index && block.mint.txid !in m.index;
      }
    }
  }

  /** A mint transaction without a target that spends an output is recorded and never removed. */
  lemma MintWithoutTargetStays(pos: DiskPos)
    ensures var spent := OutPoint(1, 0);
            var m := Maps(map[spent := Unspent(TxOut(Dest(7), 5, 1, 0), TX_WORK, 1)], map[1 := TxIndex(TX_WORK, 1, pos)], map[]);
            var block := Block(Primary, 1, 2, Transaction(2, TX_WORK, 1, 0, [spent], NoDest, 0, 0, 0), [], 0, 0);
            Linked(m, map[]) && BlockFits(m, map[], block, pos) && AddBlock(m, block, pos).Some? &&
            RemoveBlock(AddBlock(m, block, pos).value, map[], block) != Some(m)
  {
    var spent := OutPoint(1, 0);
    var m := Maps(map[spent := Unspent(TxOut(Dest(7), 5, 1, 0), TX_WORK, 1)], map[1 := TxIndex(TX_WORK, 1, pos)], map[]);
    var block := Block(Primary, 1, 2, Transaction(2, TX_WORK, 1, 0, [spent], NoDest, 0, 0, 0), [], 0, 0);
    assert SpendAll(m.unspent, [spent]) == SpendAll(m.unspent - {spent}, []);
    assert AddBlock(m, block, pos).Some?;
    RemoveBlockUndoes(m, map[], block, pos);
  }
}
