/** `CCheckForkTxPool`: the transaction pool of a fork as an overlay of tombstones and new outputs on
    the fork's unspent map, and the plain set of unspent points that it stands for. */
module ForkTxPool {
  import opened Common
  import opened BlockTree
  import opened Ledger

  /** `CAssembledTx`: a transaction with what it spends. */
  datatype PoolTx = PoolTx(tx: Transaction, destIn: Destination, valueIn: int)
  {
    /** `GetOutput(n)`: the lock goes to the output that its top bit selects. */
    function Output(n: nat): TxOut {
      var lock := if n == tx.lockUntil / 0x8000_0000 then tx.lockUntil % 0x8000_0000 else 0;
      if n == 0 then TxOut(tx.sendTo, tx.amount, tx.time, lock)
      else TxOut(destIn, valueIn - tx.amount - tx.fee, tx.time, lock)
    }
  }

  // ---------------------------------------------------------------- the plain set

  function SpendPoints(s: set<OutPoint>, inputs: seq<OutPoint>): Option<set<OutPoint>>
    decreases |inputs|
  {
    if inputs == [] then Some(s)
    else if inputs[0] !in s then None
    else SpendPoints(s - {inputs[0]}, inputs[1..])
  }

  function CreatePoint(s: set<OutPoint>, point: OutPoint, out: TxOut): Option<set<OutPoint>> {
    if out.IsNull() then Some(s) else if point in s then None else Some(s + {point})
  }

  /** A transaction on a plain set of unspent points: every input leaves it, every real output joins it. */
  function Apply(s: set<OutPoint>, t: PoolTx): Option<set<OutPoint>> {
    var spent := SpendPoints(s, t.tx.inputs);
    if spent.None? then None
    else
      var created := CreatePoint(spent.value, OutPoint(t.tx.txid, 0), t.Output(0));
      if created.None? || !t.tx.HasChange() then created
      else CreatePoint(created.value, OutPoint(t.tx.txid, 1), t.Output(1))
  }

  function ApplyAll(s: set<OutPoint>, txs: seq<PoolTx>): Option<set<OutPoint>>
    decreases |txs|
  {
    if txs == [] then Some(s)
    else
      var next := Apply(s, txs[0]);
      if next.None? then None else ApplyAll(next.value, txs[1..])
  }

  // ---------------------------------------------------------------- the overlay

  class TxPool {
    const chain: UnspentMap
    /** A null output is a tombstone: the chain's output at that point is spent in the pool. */
    var pool: map<OutPoint, TxOut>

    constructor (unspent: UnspentMap)
      ensures Valid() && Effective() == unspent.Keys && chain == unspent
    {
      chain, pool := unspent, map[];
    }

    /** Tombstones are always on the chain and pool outputs never are. */
    ghost predicate Valid()
      reads this
    {
      forall p :: p in pool ==> (pool[p].IsNull() <==> p in chain)
    }

    /** The points that are unspent once the pool is taken into account. */
    ghost function Effective(): set<OutPoint>
      reads this
    {
      (set p | p in chain && p !in pool) + (set p | p in pool && !pool[p].IsNull())
    }

    method Spent(point: OutPoint) returns (ok: bool)
      requires Valid()
      modifies this
      ensures Valid()
      ensures ok <==> point in old(Effective())
      ensures Effective() == old(Effective()) - {point}
    {
      if point in pool {
        if pool[point].IsNull() {
          return false;
        }
        pool := pool - {point};
      } else {
        if point !in chain {
          return false;
        }
        pool := pool[point := TxOut(NoDest, 0, 0, 0)];
      }
      ok := true;
    }

    method Unspent(point: OutPoint, out: TxOut) returns (ok: bool)
      requires Valid()
      modifies this
      ensures Valid()
      ensures ok <==> CreatePoint(old(Effective()), point, out).Some?
      ensures Effective() == if ok then CreatePoint(old(Effective()), point, out).value else old(Effective())
    {
      if !out.IsNull() {
        if point !in pool {
          if point in chain {
            return false;
          }
          pool := pool[point := out];
        } else {
          if !pool[point].IsNull() {
            return false;
          }
          if point !in chain {
            return false;
          }
          pool := pool - {point};
        }
      }
      ok := true;
    }

    method AddTx(t: PoolTx) returns (ok: bool)
      requires Valid()
      modifies this
      ensures Valid()
      ensures ok <==> Apply(old(Effective()), t).Some?
      ensures ok ==> Effective() == Apply(old(Effective()), t).value
    {
      for i := 0 to |t.tx.inputs|
        invariant Valid()
        invariant SpendPoints(old(Effective()), t.tx.inputs) == SpendPoints(Effective(), t.tx.inputs[i..])
      {
        assert t.tx.inputs[i..][1..] == t.tx.inputs[i + 1..];
        ok := Spent(t.tx.inputs[i]);
        if !ok {
          return false;
        }
      }
      ok := Unspent(OutPoint(t.tx.txid, 0), t.Output(0));
      if !ok {
        return false;
      }
      if t.tx.HasChange() {
        ok := Unspent(OutPoint(t.tx.txid, 1), t.Output(1));
      }
    }

    /** The loop of `CheckTxPool` over one fork's transactions. */
    method AddAll(txs: seq<PoolTx>) returns (ok: bool)
      requires Valid()
      modifies this
      ensures Valid()
      ensures ok <==> ApplyAll(old(Effective()), txs).Some?
      ensures ok ==> Effective() == ApplyAll(old(Effective()), txs).value
    {
      for i := 0 to |txs|
        invariant Valid()
        invariant ApplyAll(old(Effective()), txs) == ApplyAll(Effective(), txs[i..])
      {
        assert txs[i..][1..] == txs[i + 1..];
        ok := AddTx(txs[i]);
        if !ok {
          return false;
        }
      }
      ok := true;
    }
  }

  // ---------------------------------------------------------------- the pool against the ledger

  lemma {:induction false} SpendPointsIsSpendAll(u: UnspentMap, inputs: seq<OutPoint>)
    ensures SpendPoints(u.Keys, inputs).Some? <==> SpendAll(u, inputs).Some?
    ensures SpendAll(u, inputs).Some? ==> SpendPoints(u.Keys, inputs).value == SpendAll(u, inputs).value.Keys
    decreases |inputs|
  {
    if inputs != [] && inputs[0] in u {
      assert (u - {inputs[0]}).Keys == u.Keys - {inputs[0]};
      SpendPointsIsSpendAll(u - {inputs[0]}, inputs[1..]);
    }
  }

  lemma CreatePointIsAddUnspent(u: UnspentMap, point: OutPoint, a: TxOut, b: TxOut, txType: nat, height: nat)
    requires a.IsNull() <==> b.IsNull()
    ensures CreatePoint(u.Keys, point, a).Some? <==> AddUnspent(u, point, b, txType, height).Some?
    ensures AddUnspent(u, point, b, txType, height).Some? ==>
              CreatePoint(u.Keys, point, a).value == AddUnspent(u, point, b, txType, height).value.Keys
  {
    assert u[point := Unspent(b, txType, height)].Keys == u.Keys + {point};
  }

  /** The pool transaction as it would stand in a block. */
  predicate Matches(t: PoolTx, b: BlockTx) {
    b.tx == t.tx && b.ctx.destIn == t.destIn && b.ctx.ValueIn() == t.valueIn
  }

  lemma ApplyIsAddTx(m: Maps, t: PoolTx, b: BlockTx, height: nat, pos: DiskPos)
    requires Matches(t, b) && t.tx.txid !in m.index
    ensures Apply(m.unspent.Keys, t).Some? <==> AddTx(m, b.tx, b.ctx, height, pos).Some?
    ensures AddTx(m, b.tx, b.ctx, height, pos).Some? ==>
              Apply(m.unspent.Keys, t).value == AddTx(m, b.tx, b.ctx, height, pos).value.unspent.Keys
  {
    SpendPointsIsSpendAll(m.unspent, t.tx.inputs);
    var spent := SpendAll(m.unspent, t.tx.inputs);
    if spent.Some? {
      var p0, p1 := OutPoint(t.tx.txid, 0), OutPoint(t.tx.txid, 1);
      CreatePointIsAddUnspent(spent.value, p0, t.Output(0), b.tx.Output(), b.tx.txType, height);
      var u0 := AddUnspent(spent.value, p0, b.tx.Output(), b.tx.txType, height);
      if u0.Some? {
        CreatePointIsAddUnspent(u0.value, p1, t.Output(1), b.tx.Change(b.ctx), b.tx.txType, height);
      }
    }
  }

  /** The pool of a fork loads exactly when the same transactions, new and distinct, could follow on the
      fork as one block; and then it leaves the points that the block would leave. */
  lemma {:induction false} PoolIsNextBlock(m: Maps, txs: seq<PoolTx>, vtx: seq<BlockTx>, height: nat, pos: DiskPos)
    requires |txs| == |vtx| && forall k :: 0 <= k < |txs| ==> Matches(txs[k], vtx[k])
    requires forall k :: 0 <= k < |txs| ==> txs[k].tx.txid !in m.index
    requires forall j, k :: 0 <= j < k < |txs| ==> txs[j].tx.txid != txs[k].tx.txid
    ensures ApplyAll(m.unspent.Keys, txs).Some? <==> AddTxs(m, vtx, height, pos).Some?
    ensures AddTxs(m, vtx, height, pos).Some? ==>
              ApplyAll(m.unspent.Keys, txs).value == AddTxs(m, vtx, height, pos).value.unspent.Keys
    decreases |txs|
  {
    if txs != [] {
      ApplyIsAddTx(m, txs[0], vtx[0], height, pos);
      var next := AddTx(m, vtx[0].tx, vtx[0].ctx, height, pos);
      if next.Some? {
        PoolIsNextBlock(next.value, txs[1..], vtx[1..], height, pos.(offset := pos.offset + vtx[0].tx.size));
      }
    }
  }
}
