/** The tree of block indexes and the two walks that compare branches of it:
    `CCheckBlockFork::GetBranch` and `CBlockChain::GetBlockChanges`.

    A block index never changes once it is linked, so it is a value: the chain of
    `pPrev` links is the `prev` field and `nullptr` is `Null`. */
module BlockTree {
  import opened Common

  datatype BlockKind = Undefined | Genesis | Origin | Primary | Subsidiary | Extended | Vacant

  /** Where a block lies in the block files. */
  datatype DiskPos = DiskPos(file: nat, offset: nat)

  /** Block times are 32-bit unsigned. */
  const MAX_TIME := 0xFFFF_FFFF

  type BlockTime = t: nat | t <= MAX_TIME

  datatype BlockIndex =
    | Null
    | Index(hash: nat, prev: BlockIndex, kind: BlockKind, time: BlockTime, height: nat, trust: nat, pos: DiskPos)
  {
    predicate IsOrigin() {
      Index? && (kind.Genesis? || kind.Origin?)
    }

    /** `CBlockIndex::IsEquivalent`: `other` is reached from here through vacant blocks only. */
    predicate IsEquivalent(other: BlockIndex) {
      Index? && other.Index? &&
      (this == other || (kind.Vacant? && height > other.height && prev.IsEquivalent(other)))
    }
  }

  function Depth(p: BlockIndex): nat {
    if p.Null? then 0 else 1 + Depth(p.prev)
  }

  /** `a` is `p` itself or lies on the chain below it; `Null` lies below every block. */
  predicate IsAncestor(a: BlockIndex, p: BlockIndex) {
    a == p || (p.Index? && IsAncestor(a, p.prev))
  }

  /** The blocks from `p` down to, and without, its ancestor `a`, newest first. */
  function Arm(p: BlockIndex, a: BlockIndex): seq<BlockIndex>
    requires IsAncestor(a, p)
  {
    if p == a then [] else [p] + Arm(p.prev, a)
  }

  /** `c` is the lowest common ancestor of `p` and `q`. */
  ghost predicate IsLowestCommon(c: BlockIndex, p: BlockIndex, q: BlockIndex) {
    IsAncestor(c, p) && IsAncestor(c, q) &&
    forall a :: IsAncestor(a, p) && IsAncestor(a, q) ==> IsAncestor(a, c)
  }

  /** Block times do not decrease from `c` up to `p`. This is all that block verification asks of
      proof-of-work blocks before the DPoS height. */
  predicate NeverFalls(p: BlockIndex, c: BlockIndex)
    requires IsAncestor(c, p)
  {
    p == c || ((p.prev.Index? ==> p.prev.time <= p.time) && NeverFalls(p.prev, c))
  }

  /** Block times strictly increase from `c` up to `p`. */
  predicate Rises(p: BlockIndex, c: BlockIndex)
    requires IsAncestor(c, p)
  {
    p == c || ((p.prev.Index? ==> p.prev.time < p.time) && Rises(p.prev, c))
  }

  /** How many blocks of the arm from `p` down to `c` carry the block time of `c` itself. */
  function Ties(p: BlockIndex, c: BlockIndex): nat
    requires IsAncestor(c, p)
  {
    if p == c then 0 else (if c.Index? && p.time == c.time then 1 else 0) + Ties(p.prev, c)
  }

  // ---------------------------------------------------------------- ancestors

  lemma {:induction false} AncestorDepth(a: BlockIndex, p: BlockIndex)
    requires IsAncestor(a, p)
    ensures Depth(a) <= Depth(p)
    ensures Depth(a) == Depth(p) ==> a == p
  {
    if a != p {
      AncestorDepth(a, p.prev);
    }
  }

  lemma {:induction false} AncestorTransitive(a: BlockIndex, b: BlockIndex, c: BlockIndex)
    requires IsAncestor(a, b) && IsAncestor(b, c)
    ensures IsAncestor(a, c)
  {
    if b != c {
      AncestorTransitive(a, b, c.prev);
    }
  }

  /** The ancestors of one block lie on one line. */
  lemma {:induction false} AncestorsAreOrdered(a: BlockIndex, b: BlockIndex, p: BlockIndex)
    requires IsAncestor(a, p) && IsAncestor(b, p)
    ensures Depth(a) <= Depth(b) ==> IsAncestor(a, b)
  {
    if Depth(a) <= Depth(b) {
      if b == p {
      } else if a == p {
        AncestorDepth(b, p);
      } else {
        AncestorsAreOrdered(a, b, p.prev);
      }
    }
  }

  lemma {:induction false} NullIsAncestor(p: BlockIndex)
    ensures IsAncestor(Null, p)
  {
    if p.Index? {
      NullIsAncestor(p.prev);
    }
  }

  lemma {:induction false} ArmSplits(p: BlockIndex, b: BlockIndex, a: BlockIndex)
    requires IsAncestor(b, p) && IsAncestor(a, b)
    ensures IsAncestor(a, p)
    ensures Arm(p, a) == Arm(p, b) + Arm(b, a)
  {
    AncestorTransitive(a, b, p);
    if p != b {
      AncestorDepth(b, p.prev);
      AncestorDepth(a, b);
      ArmSplits(p.prev, b, a);
      OneMoreInFront(p, Arm(p.prev, b), Arm(b, a));
    }
  }

  lemma OneMoreInFront(p: BlockIndex, first: seq<BlockIndex>, rest: seq<BlockIndex>)
    ensures [p] + (first + rest) == ([p] + first) + rest
  {
  }

  lemma {:induction false} NeverFallsTo(p: BlockIndex, c: BlockIndex)
    requires IsAncestor(c, p) && NeverFalls(p, c) && c.Index?
    ensures p.Index? && c.time <= p.time
  {
    if p != c {
      NeverFallsTo(p.prev, c);
    }
  }

  /** Where times strictly increase there are no ties. */
  lemma {:induction false} RisesWithoutTies(p: BlockIndex, c: BlockIndex)
    requires IsAncestor(c, p) && Rises(p, c)
    ensures Ties(p, c) == 0 && NeverFalls(p, c)
    ensures p != c && c.Index? ==> p.Index? && c.time < p.time
  {
    if p != c {
      RisesWithoutTies(p.prev, c);
    }
  }

  lemma {:induction false} RisesBetween(p: BlockIndex, c: BlockIndex, base: BlockIndex)
    requires IsAncestor(base, c) && IsAncestor(c, p) && IsAncestor(base, p) && Rises(p, base)
    ensures Rises(p, c)
  {
    if p != c {
      AncestorTransitive(base, c, p.prev);
      AncestorDepth(base, p.prev);
      RisesBetween(p.prev, c, base);
    }
  }

  /** The lowest common ancestor, found by brute force. */
  function Lowest(p: BlockIndex, q: BlockIndex): BlockIndex
    decreases p
  {
    if p.Null? || IsAncestor(p, q) then p else Lowest(p.prev, q)
  }

  lemma {:induction false} LowestIsCommon(p: BlockIndex, q: BlockIndex)
    ensures IsLowestCommon(Lowest(p, q), p, q)
    decreases p
  {
    NullIsAncestor(q);
    if p.Index? && !IsAncestor(p, q) {
      LowestIsCommon(p.prev, q);
      forall a | IsAncestor(a, p) && IsAncestor(a, q) ensures IsAncestor(a, Lowest(p, q)) {
        assert IsAncestor(a, p.prev);
      }
    }
  }

  /** Below the lowest common ancestor the two arms share nothing. */
  lemma ArmsApart(c: BlockIndex, p: BlockIndex, q: BlockIndex)
    requires IsLowestCommon(c, p, q)
    ensures p == q ==> p == c
    ensures p != c ==> IsLowestCommon(c, p.prev, q)
    ensures q != c ==> IsLowestCommon(c, p, q.prev)
  {
    if p != c {
      forall a | IsAncestor(a, p.prev) && IsAncestor(a, q) ensures IsAncestor(a, c) {
        assert IsAncestor(a, p);
      }
    }
    if q != c {
      forall a | IsAncestor(a, p) && IsAncestor(a, q.prev) ensures IsAncestor(a, c) {
        assert IsAncestor(a, q);
      }
    }
    if p == q {
      AncestorDepth(c, p);
      assert IsAncestor(p, c);
      AncestorDepth(p, c);
    }
  }

  // ---------------------------------------------------------------- GetBranch

  /** Where the walk of `GetBranch` meets; `None` when it runs past the first block
      and follows a null reference. */
  function Branch(ref: BlockIndex, index: BlockIndex): Option<BlockIndex>
    decreases Depth(ref) + Depth(index)
  {
    if index == ref then Some(index)
    else if index.Null? || ref.Null? then None
    else if ref.time > index.time then Branch(ref.prev, index)
    else if index.time > ref.time then Branch(ref, index.prev)
    else Branch(ref.prev, index.prev)
  }

  /** `CCheckBlockFork::GetBranch`: whatever the times are, a branch that is returned is a
      common ancestor and the path is exactly the arm of the new block above it. */
  method GetBranch(indexRef: BlockIndex, indexNew: BlockIndex)
    returns (branch: Option<BlockIndex>, path: seq<BlockIndex>)
    ensures branch == Branch(indexRef, indexNew)
    ensures branch.Some? ==> IsAncestor(branch.value, indexRef) && IsAncestor(branch.value, indexNew)
    ensures branch.Some? ==> path == Arm(indexNew, branch.value)
  {
    var ref, index := indexRef, indexNew;
    path := [];
    while index != ref
      invariant IsAncestor(ref, indexRef) && IsAncestor(index, indexNew)
      invariant path == Arm(indexNew, index)
      invariant Branch(ref, index) == Branch(indexRef, indexNew)
      decreases Depth(ref) + Depth(index)
    {
      if index.Null? || ref.Null? {
        return None, path;
      }
      AncestorTransitive(ref.prev, ref, indexRef);
      ArmSplits(indexNew, index, index.prev);
      if ref.time > index.time {
        ref := ref.prev;
      } else if index.time > ref.time {
        path := path + [index];
        index := index.prev;
      } else {
        path := path + [index];
        index := index.prev;
        ref := ref.prev;
      }
    }
    branch := Some(index);
  }

  lemma {:induction false} BranchIsCommon(ref: BlockIndex, index: BlockIndex)
    requires Branch(ref, index).Some?
    ensures IsAncestor(Branch(ref, index).value, ref) && IsAncestor(Branch(ref, index).value, index)
    decreases Depth(ref) + Depth(index)
  {
    if index != ref {
      if ref.time > index.time {
        BranchIsCommon(ref.prev, index);
      } else if index.time > ref.time {
        BranchIsCommon(ref, index.prev);
      } else {
        BranchIsCommon(ref.prev, index.prev);
      }
    }
  }

  /** With non-decreasing times, `GetBranch` finds the lowest common ancestor if and only if
      both arms hold equally many blocks whose time ties with that ancestor's. */
  lemma {:induction false} BranchIsLowest(ref: BlockIndex, index: BlockIndex, c: BlockIndex)
    requires IsLowestCommon(c, ref, index) && c.Index?
    requires NeverFalls(ref, c) && NeverFalls(index, c)
    ensures Branch(ref, index) == Some(c) <==> Ties(ref, c) == Ties(index, c)
    decreases Depth(ref) + Depth(index)
  {
    ArmsApart(c, ref, index);
    NeverFallsTo(ref, c);
    NeverFallsTo(index, c);
    if ref == index {
    } else if ref.time > index.time {
      BranchIsLowest(ref.prev, index, c);
    } else if index.time > ref.time {
      BranchIsLowest(ref, index.prev, c);
    } else if ref != c && index != c {
      ArmsApart(c, ref.prev, index);
      BranchIsLowest(ref.prev, index.prev, c);
    } else {
      // One walk stands on `c` and the other on a block that ties with it: both step down,
      // and `c` is never seen again.
      TieIsCounted(if ref == c then index else ref, c);
      if Branch(ref.prev, index.prev) == Some(c) {
        BranchIsCommon(ref.prev, index.prev);
        AncestorDepth(c, if ref == c then ref.prev else index.prev);
        assert false;
      }
    }
  }

  lemma TieIsCounted(p: BlockIndex, c: BlockIndex)
    requires IsAncestor(c, p) && p != c && c.Index? && p.time == c.time
    ensures Ties(p, c) > 0
  {
  }

  /** Where times strictly increase above a common ancestor, `GetBranch` finds the lowest one. */
  lemma BranchWhereTimesRise(ref: BlockIndex, index: BlockIndex, base: BlockIndex)
    requires base.Index? && IsAncestor(base, ref) && IsAncestor(base, index)
    requires Rises(ref, base) && Rises(index, base)
    ensures Branch(ref, index) == Some(Lowest(ref, index)) && IsAncestor(base, Lowest(ref, index))
  {
    var c := Lowest(ref, index);
    LowestIsCommon(ref, index);
    assert IsAncestor(base, c);
    AncestorDepth(base, c);
    RisesBetween(ref, c, base);
    RisesBetween(index, c, base);
    RisesWithoutTies(ref, c);
    RisesWithoutTies(index, c);
    BranchIsLowest(ref, index, c);
  }

  /** Equal block times, which verification allows before the DPoS height, can send the walk past the
      genesis block: the best block `a` has one tie above it, the block `c` of the longer branch two. */
  lemma BranchCanMissGenesis()
    ensures exists ref, index, c ::
              IsLowestCommon(c, ref, index) && c.Index? && NeverFalls(ref, c) && NeverFalls(index, c) &&
              Branch(ref, index).None?
  {
    var g := Index(1, Null, Genesis, 5, 0, 0, DiskPos(0, 0));
    var a := Index(2, g, Primary, 5, 1, 2, DiskPos(0, 1));
    var b := Index(3, g, Primary, 5, 1, 1, DiskPos(0, 2));
    var c := Index(4, b, Primary, 5, 2, 3, DiskPos(0, 3));
    assert Branch(a, c) == Branch(g, b) == Branch(Null, g) == None;
    forall x | IsAncestor(x, a) && IsAncestor(x, c) ensures IsAncestor(x, g) {
      assert x == a || IsAncestor(x, g);
    }
    assert IsAncestor(g, a) && IsAncestor(g, b) && IsAncestor(g, c);
    assert IsLowestCommon(g, a, c);
    assert NeverFalls(b, g) && NeverFalls(a, g) && NeverFalls(c, g);
  }

  // ---------------------------------------------------------------- the branch above a base

  /** Every block from `p` down to `base`, and without it, is later than `base`. */
  predicate IsLater(p: BlockIndex, base: BlockIndex)
    requires IsAncestor(base, p) && base.Index?
  {
    p == base || (p.time > base.time && IsLater(p.prev, base))
  }

  /** Where every block is later than a common base, the walk ends at or above it, whatever else the times are. */
  lemma {:induction false} BranchAboveLater(ref: BlockIndex, index: BlockIndex, base: BlockIndex)
    requires base.Index? && IsAncestor(base, ref) && IsAncestor(base, index) && IsLater(ref, base) && IsLater(index, base)
    ensures MeetsAbove(ref, index, base)
    decreases Depth(ref) + Depth(index)
  {
    if ref != index {
      if ref.time > index.time {
        BranchAboveLater(ref.prev, index, base);
      } else if index.time > ref.time {
        BranchAboveLater(ref, index.prev, base);
      } else {
        BranchAboveLater(ref.prev, index.prev, base);
      }
    }
  }

  lemma {:induction false} NeverFallsBetween(p: BlockIndex, c: BlockIndex, base: BlockIndex)
    requires IsAncestor(base, c) && IsAncestor(c, p) && IsAncestor(base, p) && NeverFalls(p, base)
    ensures NeverFalls(p, c) && NeverFalls(c, base)
  {
    if p != c {
      AncestorTransitive(base, c, p.prev);
      AncestorDepth(base, p.prev);
      NeverFallsBetween(p.prev, c, base);
    }
  }

  /** The walk meets at or above the base. */
  predicate MeetsAbove(ref: BlockIndex, index: BlockIndex, base: BlockIndex) {
    Branch(ref, index).Some? && IsAncestor(base, Branch(ref, index).value)
  }

  /** Which of the two tips is the reference does not matter. */
  lemma {:induction false} BranchIsSymmetric(ref: BlockIndex, index: BlockIndex)
    ensures Branch(ref, index) == Branch(index, ref)
    decreases Depth(ref) + Depth(index)
  {
    if ref != index && ref.Index? && index.Index? {
      if ref.time > index.time {
        BranchIsSymmetric(ref.prev, index);
      } else if index.time > ref.time {
        BranchIsSymmetric(ref, index.prev);
      } else {
        BranchIsSymmetric(ref.prev, index.prev);
      }
    }
  }

  /** Seen from the block below `q`, the blocks above tie if and only if `q` does. */
  lemma {:induction false} TiesOneBelow(p: BlockIndex, q: BlockIndex)
    requires q.Index? && q.prev.Index? && q.prev.time <= q.time && IsAncestor(q, p) && IsAncestor(q.prev, p) && NeverFalls(p, q)
    ensures Ties(p, q.prev) == 0 <==> q.prev.time < q.time
  {
    AncestorDepth(q, p);
    if p != q {
      NeverFallsTo(p, q);
      AncestorDepth(q, p.prev);
      TiesOneBelow(p.prev, q);
    }
  }

  /** From two blocks of one chain the walk meets at or above the base if and only if no block of the upper one's arm ties
      with the lower one, or the lower one is later than the base. */
  lemma {:induction false} LineMeetsAbove(high: BlockIndex, low: BlockIndex, base: BlockIndex)
    requires base.Index? && IsAncestor(base, low) && IsAncestor(low, high) && IsAncestor(base, high) && NeverFalls(high, base)
    ensures MeetsAbove(high, low, base) <==> Ties(high, low) == 0 || base.time < low.time
    decreases Depth(high)
  {
    NeverFallsBetween(high, low, base);
    NeverFallsTo(low, base);
    NeverFallsTo(high, low);
    if high == low {
    } else if high.time > low.time {
      AncestorTransitive(base, low, high.prev);
      AncestorDepth(base, high.prev);
      LineMeetsAbove(high.prev, low, base);
    } else {
      TieIsCounted(high, low);
      TieStepsDown(high, low, base);
    }
  }

  lemma {:induction false} TieStepsDown(high: BlockIndex, low: BlockIndex, base: BlockIndex)
    requires base.Index? && IsAncestor(base, low) && IsAncestor(low, high) && IsAncestor(base, high) && NeverFalls(high, base)
    requires high != low && high.time == low.time
    ensures MeetsAbove(high, low, base) <==> base.time < low.time
    decreases Depth(high), 0
  {
    assert Branch(high, low) == Branch(high.prev, low.prev);
    AncestorTransitive(base, low, high.prev);
    AncestorDepth(base, high.prev);
    if low == base {
      if MeetsAbove(high, low, base) {
        BranchIsCommon(high.prev, low.prev);
        AncestorTransitive(base, Branch(high, low).value, low.prev);
        AncestorDepth(base, low.prev);
        assert false;
      }
    } else {
      AncestorTransitive(low.prev, low, high.prev);
      NeverFallsBetween(high.prev, low, base);
      NeverFallsTo(low.prev, base);
      LineMeetsAbove(high.prev, low.prev, base);
      TiesOneBelow(high.prev, low);
    }
  }

  /** With non-decreasing times above a base of both blocks, `GetBranch` ends at or above that base if and only if it finds
      the lowest common ancestor or that ancestor is later than the base. */
  lemma {:induction false} BranchStaysAbove(ref: BlockIndex, index: BlockIndex, c: BlockIndex, base: BlockIndex)
    requires base.Index? && IsLowestCommon(c, ref, index) && IsAncestor(base, c)
    requires IsAncestor(base, ref) && IsAncestor(base, index) && NeverFalls(ref, base) && NeverFalls(index, base)
    ensures MeetsAbove(ref, index, base) <==> Ties(ref, c) == Ties(index, c) || base.time < c.time
    decreases Depth(ref) + Depth(index)
  {
    ArmsApart(c, ref, index);
    AncestorDepth(base, c);
    if ref == c {
      LineMeetsAbove(index, c, base);
      BranchIsSymmetric(index, c);
    } else if index == c {
      LineMeetsAbove(ref, c, base);
    } else {
      BranchStaysAboveStep(ref, index, c, base);
    }
  }

  lemma {:induction false} BranchStaysAboveStep(ref: BlockIndex, index: BlockIndex, c: BlockIndex, base: BlockIndex)
    requires base.Index? && IsLowestCommon(c, ref, index) && IsAncestor(base, c) && ref != c && index != c && ref != index
    requires IsAncestor(base, ref) && IsAncestor(base, index) && NeverFalls(ref, base) && NeverFalls(index, base)
    ensures MeetsAbove(ref, index, base) <==> Ties(ref, c) == Ties(index, c) || base.time < c.time
    decreases Depth(ref) + Depth(index), 0
  {
    ArmsApart(c, ref, index);
    AncestorTransitive(base, c, ref.prev);
    AncestorTransitive(base, c, index.prev);
    AncestorDepth(base, ref.prev);
    AncestorDepth(base, index.prev);
    NeverFallsBetween(ref, c, base);
    NeverFallsBetween(index, c, base);
    NeverFallsTo(ref, c);
    NeverFallsTo(index, c);
    if ref.time > index.time {
      BranchStaysAbove(ref.prev, index, c, base);
    } else if index.time > ref.time {
      BranchStaysAbove(ref, index.prev, c, base);
    } else {
      ArmsApart(c, ref.prev, index);
      BranchStaysAbove(ref.prev, index.prev, c, base);
    }
  }

  // ---------------------------------------------------------------- GetBlockChanges

  /** The time that `GetBlockChanges` compares with: the code means -1 for a missing block, but its 32-bit unsigned value
      is the largest of all. */
  function LastBlockTime(p: BlockIndex): nat {
    if p.Null? then MAX_TIME else p.time
  }

  /** Where the walk of `GetBlockChanges` meets; `None` when it follows a null reference. */
  function Meet(indexNew: BlockIndex, indexFork: BlockIndex): Option<BlockIndex>
    decreases Depth(indexNew) + Depth(indexFork)
  {
    if indexNew == indexFork then Some(indexNew)
    else if indexNew.Null? then None
    else if indexNew.time >= LastBlockTime(indexFork) then Meet(indexNew.prev, indexFork)
    else if indexFork.Null? then None
    else Meet(indexNew, indexFork.prev)
  }

  /** `CBlockChain::GetBlockChanges`: the blocks added and removed are the two arms above the
      block where the walk meets. */
  method GetBlockChanges(tipNew: BlockIndex, tipFork: BlockIndex)
    returns (meet: Option<BlockIndex>, added: seq<BlockIndex>, removed: seq<BlockIndex>)
    ensures meet == Meet(tipNew, tipFork)
    ensures meet.Some? ==> IsAncestor(meet.value, tipNew) && IsAncestor(meet.value, tipFork)
    ensures meet.Some? ==> added == Arm(tipNew, meet.value) && removed == Arm(tipFork, meet.value)
  {
    var indexNew, indexFork := tipNew, tipFork;
    added, removed := [], [];
    while indexNew != indexFork
      invariant IsAncestor(indexNew, tipNew) && IsAncestor(indexFork, tipFork)
      invariant added == Arm(tipNew, indexNew) && removed == Arm(tipFork, indexFork)
      invariant Meet(indexNew, indexFork) == Meet(tipNew, tipFork)
      decreases Depth(indexNew) + Depth(indexFork)
    {
      if indexNew.Null? {
        return None, added, removed;
      }
      if indexNew.time >= LastBlockTime(indexFork) {
        ArmSplits(tipNew, indexNew, indexNew.prev);
        added := added + [indexNew];
        indexNew := indexNew.prev;
      } else {
        if indexFork.Null? {
          return None, added, removed;
        }
        ArmSplits(tipFork, indexFork, indexFork.prev);
        removed := removed + [indexFork];
        indexFork := indexFork.prev;
      }
    }
    meet := Some(indexNew);
  }

  lemma {:induction false} MeetIsCommon(indexNew: BlockIndex, indexFork: BlockIndex)
    requires Meet(indexNew, indexFork).Some?
    ensures IsAncestor(Meet(indexNew, indexFork).value, indexNew)
    ensures IsAncestor(Meet(indexNew, indexFork).value, indexFork)
    decreases Depth(indexNew) + Depth(indexFork)
  {
    if indexNew != indexFork {
      if indexNew.time >= LastBlockTime(indexFork) {
        MeetIsCommon(indexNew.prev, indexFork);
      } else {
        MeetIsCommon(indexNew, indexFork.prev);
      }
    }
  }

  /** With non-decreasing times `GetBlockChanges` returns exactly the two arms above the lowest
      common ancestor if and only if no removed block ties with that ancestor's time. */
  lemma {:induction false} MeetIsLowest(indexNew: BlockIndex, indexFork: BlockIndex, c: BlockIndex)
    requires IsLowestCommon(c, indexNew, indexFork) && c.Index?
    requires NeverFalls(indexNew, c) && NeverFalls(indexFork, c)
    ensures Meet(indexNew, indexFork) == Some(c) <==> Ties(indexFork, c) == 0
    decreases Depth(indexNew) + Depth(indexFork)
  {
    ArmsApart(c, indexNew, indexFork);
    AncestorDepth(c, indexFork);
    NeverFallsTo(indexNew, c);
    NeverFallsTo(indexFork, c);
    if indexNew == indexFork {
    } else if indexNew == c {
      if indexNew.time == indexFork.time {
        TieIsCounted(indexFork, c);
        if Meet(indexNew.prev, indexFork) == Some(c) {
          MeetIsCommon(indexNew.prev, indexFork);
          AncestorDepth(c, indexNew.prev);
          assert false;
        }
      } else {
        MeetIsLowest(indexNew, indexFork.prev, c);
      }
    } else if indexNew.time >= indexFork.time {
      MeetIsLowest(indexNew.prev, indexFork, c);
    } else {
      MeetIsLowest(indexNew, indexFork.prev, c);
    }
  }

  /** A removed block that ties with the common ancestor makes the walk step past it, here past the genesis block. */
  lemma MeetCanMissLowest()
    ensures exists indexNew, indexFork, c ::
              IsLowestCommon(c, indexNew, indexFork) && c.Index? && NeverFalls(indexNew, c) && NeverFalls(indexFork, c) &&
              Meet(indexNew, indexFork).None?
  {
    var g := Index(1, Null, Genesis, 5, 0, 0, DiskPos(0, 0));
    var a := Index(2, g, Primary, 6, 1, 2, DiskPos(0, 1));
    var b := Index(3, g, Primary, 5, 1, 1, DiskPos(0, 2));
    assert Meet(a, b) == Meet(g, b) == Meet(Null, b) == None;
    forall x | IsAncestor(x, a) && IsAncestor(x, b) ensures IsAncestor(x, g) {
      assert x == a || IsAncestor(x, g);
    }
    assert IsAncestor(g, a) && IsAncestor(g, b);
    assert IsLowestCommon(g, a, b);
    assert NeverFalls(a, g) && NeverFalls(b, g);
  }

  /** Every block of the chain has the largest time. */
  predicate AllAtMaxTime(p: BlockIndex) {
    p.Index? ==> p.time == MAX_TIME && AllAtMaxTime(p.prev)
  }

  /** For a fork that has no tip yet the walk adds every block only when all of them have the largest time; otherwise it
      follows the missing tip. */
  lemma {:induction false} MeetWithoutTip(indexNew: BlockIndex)
    ensures Meet(indexNew, Null) == if AllAtMaxTime(indexNew) then Some(Null) else None
  {
    if indexNew.Index? {
      MeetWithoutTip(indexNew.prev);
    }
  }

  /** From tips without a common block the walk never meets, whatever the times are. */
  lemma {:induction false} MeetNeedsCommon(indexNew: BlockIndex, indexFork: BlockIndex)
    requires IsLowestCommon(Null, indexNew, indexFork) && indexFork.Index?
    ensures Meet(indexNew, indexFork).None?
    decreases Depth(indexNew) + Depth(indexFork)
  {
    ArmsApart(Null, indexNew, indexFork);
    if indexNew.Index? {
      if indexNew.time >= indexFork.time {
        MeetNeedsCommon(indexNew.prev, indexFork);
      } else if indexFork.prev.Index? {
        MeetNeedsCommon(indexNew, indexFork.prev);
      }
    }
  }
}
