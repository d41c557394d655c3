/** The delta-encoded table of valid forks of `CForkManager` (and of its twin `CCheckForkManager`):
    every primary block stores either the full map of the forks valid there or the increment over one
    full ancestor. */
module ForkTable {
  import opened Common

  /** A block hash carries the block's height in its top word. */
  datatype Hash = Hash(height: nat, digest: nat)

  const ZERO := Hash(0, 0)

  datatype ForkContext = ForkContext(hashFork: Hash, hashParent: Hash, name: string)

  /** Fork to the height at which it was created. */
  type ForkMap = map<Hash, nat>

  /** `CValidForkId`: a full map when `ref` is zero, else an increment over the entry of `ref`. */
  datatype ValidForkId = ValidForkId(ref: Hash, forks: ForkMap)

  // ---------------------------------------------------------------- the simple thing

  /** A branch of primary blocks from the genesis block up, with the forks each block creates. */
  datatype Branch =
    | Root
    | Grow(below: Branch, block: Hash, created: seq<ForkContext>, checkpoint: bool)

  /** Insert the created forks; like `std::map::insert`, an entry that exists is kept. */
  function InsertAll(m: ForkMap, created: seq<ForkContext>, height: nat): ForkMap
    decreases |created|
  {
    if created == [] then m
    else
      var f := created[0].hashFork;
      InsertAll(if f in m then m else m[f := height], created[1..], height)
  }

  /** All forks created along a branch, each with the height at which it was first created. */
  function Fold(b: Branch): ForkMap {
    match b
    case Root => map[]
    case Grow(below, block, created, _) => InsertAll(Fold(below), created, block.height)
  }

  // ---------------------------------------------------------------- the encoding

  /** The nearest block at or below the tip that stores a full map. */
  function Anchor(b: Branch): Branch {
    match b
    case Root => Root
    case Grow(below, _, _, checkpoint) => if checkpoint then b else Anchor(below)
  }

  /** The increment over the anchor. */
  function Since(b: Branch): ForkMap {
    match b
    case Root => map[]
    case Grow(below, block, created, checkpoint) =>
      if checkpoint then map[] else InsertAll(Since(below), created, block.height)
  }

  /** The entry that the table holds for the tip of a branch. */
  function Entry(b: Branch): ValidForkId
    requires b.Grow? && Anchor(b).Grow?
  {
    if b.checkpoint then ValidForkId(ZERO, Fold(b)) else ValidForkId(Anchor(b).block, Since(b))
  }

  lemma {:induction false} InsertAllKeys(m: ForkMap, created: seq<ForkContext>, height: nat)
    ensures forall f :: f in m ==> f in InsertAll(m, created, height) && InsertAll(m, created, height)[f] == m[f]
    ensures forall f :: f in InsertAll(m, created, height) && f !in m ==> InsertAll(m, created, height)[f] == height
    ensures forall f :: f in InsertAll(m, created, height) <==> f in m || exists k :: 0 <= k < |created| && created[k].hashFork == f
    decreases |created|
  {
    if created != [] {
      var f := created[0].hashFork;
      InsertAllKeys(if f in m then m else m[f := height], created[1..], height);
      assert forall k :: 0 < k < |created| ==> created[k] == created[1..][k - 1];
    }
  }

  lemma InsertAllMerges(m: ForkMap, more: ForkMap, created: seq<ForkContext>, height: nat)
    ensures InsertAll(Merge(m, more), created, height) == Merge(m, InsertAll(more, created, height))
  {
    InsertAllKeys(Merge(m, more), created, height);
    InsertAllKeys(more, created, height);
  }

  /** The full map of the anchor and the increment together are the fold of the whole branch. */
  lemma {:induction false} AnchorAndIncrement(b: Branch)
    ensures Fold(b) == Merge(Fold(Anchor(b)), Since(b))
    ensures Anchor(b).Grow? ==> Anchor(b).checkpoint
  {
    match b
    case Root =>
    case Grow(below, block, created, checkpoint) =>
      if !checkpoint {
        AnchorAndIncrement(below);
        InsertAllMerges(Fold(Anchor(below)), Since(below), created, block.height);
      }
  }

  /** Two branches with the same blocks and forks, whatever their checkpoints. */
  predicate SameBlocks(a: Branch, b: Branch) {
    match (a, b)
    case (Root, Root) => true
    case (Grow(a', x, f, _), Grow(b', y, g, _)) => x == y && f == g && SameBlocks(a', b')
    case _ => false
  }

  /** Checkpoints change how the forks are stored and nothing else. */
  lemma {:induction false} CheckpointsOnlyRepresent(a: Branch, b: Branch)
    requires SameBlocks(a, b)
    ensures Merge(Fold(Anchor(a)), Since(a)) == Merge(Fold(Anchor(b)), Since(b))
  {
    FoldIgnoresCheckpoints(a, b);
    AnchorAndIncrement(a);
    AnchorAndIncrement(b);
  }

  lemma {:induction false} FoldIgnoresCheckpoints(a: Branch, b: Branch)
    requires SameBlocks(a, b)
    ensures Fold(a) == Fold(b)
  {
    if a.Grow? {
      FoldIgnoresCheckpoints(a.below, b.below);
    }
  }

  // ---------------------------------------------------------------- verified branches

  /** Heights strictly increase, as they do along the primary chain. */
  predicate Climbs(b: Branch) {
    b.Grow? ==> Climbs(b.below) && (b.below.Grow? ==> b.below.block.height < b.block.height)
  }

  /** Every created fork is new on the branch and in its block, by hash and by name: `VerifyFork` against
      the branch, `VerifyBlockForkTx` against the forks of the same block. */
  ghost predicate Verified(b: Branch, nameOf: Hash -> string) {
    b.Grow? ==>
      Verified(b.below, nameOf) &&
      AreNew(b.created, Fold(b.below), nameOf) && ArePairwiseNew(b.created)
  }

  /** On a verified branch no two valid forks share a name. */
  lemma {:induction false} NamesAreDistinct(b: Branch, nameOf: Hash -> string)
    requires Verified(b, nameOf)
    ensures forall f, g :: f in Fold(b) && g in Fold(b) && f != g ==> nameOf(f) != nameOf(g)
  {
    if b.Grow? {
      NamesAreDistinct(b.below, nameOf);
      InsertAllKeys(Fold(b.below), b.created, b.block.height);
    }
  }

  lemma {:induction false} FoldHeights(b: Branch)
    requires Climbs(b)
    ensures forall f :: f in Fold(b) ==> b.Grow? && Fold(b)[f] <= b.block.height
    ensures forall f :: f in Since(b) ==> Anchor(b).Grow? ==> Since(b)[f] > Anchor(b).block.height
    ensures b.Grow? && Anchor(b).Grow? ==> Anchor(b).block.height <= b.block.height
    ensures Climbs(Anchor(b))
  {
    if b.Grow? {
      FoldHeights(b.below);
      InsertAllKeys(Fold(b.below), b.created, b.block.height);
      InsertAllKeys(Since(b.below), b.created, b.block.height);
    }
  }

  /** The height that `GetValidForkCreatedHeight` answers: the block's own map first. */
  function OwnFirst(b: Branch, f: Hash): int {
    if b.Grow? && b.checkpoint then (if f in Fold(b) then Fold(b)[f] else -1)
    else if f in Since(b) then Since(b)[f]
    else if f in Fold(Anchor(b)) then Fold(Anchor(b))[f]
    else -1
  }

  /** The height in the fold, -1 when the fork is not valid. */
  function CreatedHeight(b: Branch, f: Hash): int {
    if f in Fold(b) then Fold(b)[f] else -1
  }

  /** The created-height query agrees with the list of valid forks for every fork if and only if no fork
      was created again above the anchor. */
  lemma QueriesAgree(b: Branch)
    requires Climbs(b)
    ensures (forall f :: OwnFirst(b, f) == CreatedHeight(b, f)) <==> Since(b).Keys !! Fold(Anchor(b)).Keys
  {
    AnchorAndIncrement(b);
    FoldHeights(b);
    FoldHeights(Anchor(b));
    if f :| f in Since(b) && f in Fold(Anchor(b)) {
      assert OwnFirst(b, f) != CreatedHeight(b, f);
    }
  }

  /** On a verified branch no fork is ever created again, so the two queries agree. */
  lemma {:induction false} VerifiedIsDisjoint(b: Branch, nameOf: Hash -> string)
    requires Verified(b, nameOf)
    ensures Since(b).Keys !! Fold(Anchor(b)).Keys
  {
    if b.Grow? && !b.checkpoint {
      VerifiedIsDisjoint(b.below, nameOf);
      AnchorAndIncrement(b.below);
      InsertAllKeys(Since(b.below), b.created, b.block.height);
    }
  }

  /** Without `VerifyFork` the queries can disagree: a fork created at height 0 and again at height 1. */
  lemma QueriesCanDisagree()
    ensures exists b, f :: Climbs(b) && OwnFirst(b, f) != CreatedHeight(b, f)
  {
    var fork := ForkContext(Hash(0, 7), ZERO, "x");
    var g := Grow(Root, Hash(0, 1), [fork], true);
    var b := Grow(g, Hash(1, 2), [fork], false);
    InsertAllKeys(map[], [fork], 0);
    InsertAllKeys(map[], [fork], 1);
    assert [fork][0].hashFork == Hash(0, 7);
    assert Fold(g) == InsertAll(map[], [fork], 0);
    assert Since(b) == InsertAll(map[], [fork], 1);
    AnchorAndIncrement(b);
    assert Climbs(g) && Climbs(b);
    assert OwnFirst(b, Hash(0, 7)) != CreatedHeight(b, Hash(0, 7));
  }

  // ---------------------------------------------------------------- what the table means

  /** `b` and everything below it are known under their own hashes, up from a full genesis entry. */
  ghost predicate Known(b: Branch, branches: map<Hash, Branch>) {
    b.Grow? ==>
      b.block != ZERO && b.block in branches && branches[b.block] == b &&
      Known(b.below, branches) && (b.below.Root? ==> b.checkpoint)
  }

  ghost predicate Named(b: Branch, names: map<Hash, string>, nameOf: Hash -> string) {
    forall f :: f in Fold(b) ==> f in names && names[f] == nameOf(f)
  }

  /** The table is the encoding of the branches, one entry for each known block. */
  ghost predicate Encodes(table: map<Hash, ValidForkId>, branches: map<Hash, Branch>) {
    table.Keys == branches.Keys &&
    forall h :: h in branches ==>
      branches[h].Grow? && branches[h].block == h && Known(branches[h], branches) &&
      Anchor(branches[h]).Grow? && table[h] == Entry(branches[h])
  }

  ghost predicate AllNamed(branches: map<Hash, Branch>, names: map<Hash, string>, nameOf: Hash -> string) {
    forall h :: h in branches ==> Named(branches[h], names, nameOf)
  }

  /** A non-full entry always refers to a full one: the anchor of a known branch is known and full. */
  lemma {:induction false} AnchorIsKnown(b: Branch, branches: map<Hash, Branch>)
    requires Known(b, branches) && b.Grow?
    ensures Anchor(b).Grow? && Known(Anchor(b), branches) && Anchor(b).checkpoint
  {
    if !b.checkpoint {
      AnchorIsKnown(b.below, branches);
    }
  }

  /** Depth one: the entry that a table refers to is itself full, and the two maps decode to the fold. */
  lemma DecodesToFold(table: map<Hash, ValidForkId>, branches: map<Hash, Branch>, h: Hash)
    requires Encodes(table, branches) && h in table
    ensures table[h].ref != ZERO ==> table[h].ref in table && table[table[h].ref].ref == ZERO
    ensures Fold(branches[h]) ==
            if table[h].ref == ZERO then table[h].forks else Merge(table[table[h].ref].forks, table[h].forks)
  {
    AnchorIsKnown(branches[h], branches);
    AnchorAndIncrement(branches[h]);
  }

  lemma {:induction false} KnownExtends(b: Branch, branches: map<Hash, Branch>, block: Hash, tip: Branch)
    requires Known(b, branches) && block !in branches
    ensures Known(b, branches[block := tip])
  {
    if b.Grow? {
      KnownExtends(b.below, branches, block, tip);
    }
  }

  /** Adding the entry of a new tip keeps the table an encoding. */
  lemma EncodesExtends(table: map<Hash, ValidForkId>, branches: map<Hash, Branch>, tip: Branch)
    requires Encodes(table, branches) && tip.Grow? && tip.block != ZERO && tip.block !in table
    requires tip.below.Root? ==> tip.checkpoint
    requires tip.below.Grow? ==> tip.below.block in branches && branches[tip.below.block] == tip.below
    ensures Anchor(tip).Grow? && Encodes(table[tip.block := Entry(tip)], branches[tip.block := tip])
  {
    var branches' := branches[tip.block := tip];
    KnownExtends(tip.below, branches, tip.block, tip);
    AnchorIsKnown(tip, branches');
    forall h | h in branches ensures Known(branches[h], branches') {
      KnownExtends(branches[h], branches, tip.block, tip);
    }
  }

  /** So does adding an entry again. */
  lemma EncodesWith(table: map<Hash, ValidForkId>, branches: map<Hash, Branch>, tip: Branch)
    requires Encodes(table, branches) && tip.Grow? && tip.block != ZERO && Anchor(tip).Grow?
    requires tip.below.Root? ==> tip.checkpoint
    requires tip.below.Grow? ==> tip.below.block in branches && branches[tip.below.block] == tip.below
    requires tip.block !in table || branches[tip.block] == tip
    ensures Encodes(table[tip.block := Entry(tip)], branches[tip.block := tip])
  {
    if tip.block !in table {
      EncodesExtends(table, branches, tip);
    } else {
      assert table[tip.block := Entry(tip)] == table && branches[tip.block := tip] == branches;
    }
  }

  /** The entry of a new tip, from the full copy or the increment it starts with. */
  lemma EntryOfTip(table: map<Hash, ValidForkId>, branches: map<Hash, Branch>, tip: Branch, ref: Hash, start: ForkMap)
    requires Encodes(table, branches) && tip.Grow? && (tip.below.Root? ==> tip.checkpoint)
    requires tip.below.Grow? ==> tip.below.block in branches && branches[tip.below.block] == tip.below
    requires if tip.checkpoint then ref == ZERO && start == Fold(tip.below)
             else tip.below.Grow? && Anchor(tip.below).Grow? && ref == Anchor(tip.below).block && start == Since(tip.below)
    ensures Anchor(tip).Grow? && Entry(tip) == ValidForkId(ref, InsertAll(start, tip.created, tip.block.height))
  {
  }

  lemma NamedTip(tip: Branch, branches: map<Hash, Branch>, names: map<Hash, string>, nameOf: Hash -> string)
    requires tip.Grow? && AllNamed(branches, names, nameOf)
    requires tip.below.Grow? ==> tip.below.block in branches && branches[tip.below.block] == tip.below
    requires forall k :: 0 <= k < |tip.created| ==>
               tip.created[k].hashFork in names && names[tip.created[k].hashFork] == nameOf(tip.created[k].hashFork)
    ensures Named(tip, names, nameOf) && AllNamed(branches[tip.block := tip], names, nameOf)
  {
    InsertAllKeys(Fold(tip.below), tip.created, tip.block.height);
    assert tip.below.Grow? ==> Named(branches[tip.below.block], names, nameOf);
  }

  /** Removing a block that no other branch runs through keeps the table an encoding. */
  lemma EncodesShrinks(table: map<Hash, ValidForkId>, branches: map<Hash, Branch>, block: Hash)
    requires Encodes(table, branches) && forall h :: h in branches && h != block ==> !RunsThrough(branches[h], block)
    ensures Encodes(table - {block}, branches - {block})
  {
    forall h | h in branches && h != block ensures Known(branches[h], branches - {block}) {
      KnownShrinks(branches[h], branches, block);
    }
  }

  /** What the table answers for a block: an entry it refers to and does not hold counts as empty. */
  function Decoded(table: map<Hash, ValidForkId>, h: Hash): ForkMap
    requires h in table
  {
    if table[h].ref != ZERO && table[h].ref in table then Merge(table[table[h].ref].forks, table[h].forks) else table[h].forks
  }

  /** Removing a block changes the answer for another block if and only if its entry refers to the removed one, which
      holds a fork that the entry does not hold itself. */
  lemma RemovalKeepsAnswer(table: map<Hash, ValidForkId>, branches: map<Hash, Branch>, block: Hash, h: Hash)
    requires Encodes(table, branches) && block in table && h in table && h != block
    ensures Decoded(table - {block}, h) == Decoded(table, h) <==>
            (table[h].ref == block ==> forall f :: f in table[block].forks ==>
                                         f in table[h].forks && table[h].forks[f] == table[block].forks[f])
  {
    DecodesToFold(table, branches, h);
    assert block != ZERO;
    if table[h].ref == block {
      var full, own := table[block].forks, table[h].forks;
      assert Decoded(table - {block}, h) == own && Decoded(table, h) == Merge(full, own);
      if Merge(full, own) == own {
        forall f | f in full ensures f in own && own[f] == full[f] {
          assert Merge(full, own)[f] == full[f];
        }
      }
    }
  }

  predicate RunsThrough(b: Branch, block: Hash) {
    b.Grow? && (b.block == block || RunsThrough(b.below, block))
  }

  lemma {:induction false} KnownShrinks(b: Branch, branches: map<Hash, Branch>, block: Hash)
    requires Known(b, branches) && !RunsThrough(b, block)
    ensures Known(b, branches - {block})
  {
    if b.Grow? {
      KnownShrinks(b.below, branches, block);
    }
  }

  // ---------------------------------------------------------------- the forks of one block

  /** What a transaction of a primary block does to the forks of the block. `valid` stands for the checks of the origin
      block that the transaction carries. */
  datatype ForkTx = Create(dest: nat, fork: ForkContext, valid: bool) | Cancel(dest: nat)
  {
    predicate Fits(nameOf: Hash -> string) {
      Create? ==> fork.name == nameOf(fork.hashFork)
    }
  }

  function Forks(kept: seq<(nat, ForkContext)>): seq<ForkContext> {
    seq(|kept|, i requires 0 <= i < |kept| => kept[i].1)
  }

  function WithoutDest(kept: seq<(nat, ForkContext)>, dest: nat): seq<(nat, ForkContext)> {
    if kept == [] then []
    else if kept[0].0 == dest then WithoutDest(kept[1..], dest)
    else [kept[0]] + WithoutDest(kept[1..], dest)
  }

  /** Whether a created fork is kept: its parent is known or created by the same block, and by hash and by name it is not
      valid yet and not kept already. */
  ghost predicate IsKept(kept: seq<(nat, ForkContext)>, valid: ForkMap, known: set<Hash>, fork: ForkContext, nameOf: Hash -> string) {
    (fork.hashParent in known || exists k :: 0 <= k < |kept| && kept[k].1.hashFork == fork.hashParent) &&
    fork.hashFork !in valid && (forall g :: g in valid ==> nameOf(g) != fork.name) &&
    forall k :: 0 <= k < |kept| ==> kept[k].1.hashFork != fork.hashFork && kept[k].1.name != fork.name
  }

  /** The forks that a block creates above a block with the given valid forks. */
  ghost function Kept(valid: ForkMap, known: set<Hash>, txs: seq<ForkTx>, nameOf: Hash -> string): seq<(nat, ForkContext)> {
    if txs == [] then []
    else
      var kept := Kept(valid, known, txs[..|txs| - 1], nameOf);
      match txs[|txs| - 1]
      case Create(dest, fork, ok) => if ok && IsKept(kept, valid, known, fork, nameOf) then kept + [(dest, fork)] else kept
      case Cancel(dest) => WithoutDest(kept, dest)
  }

  /** They are new to the branch and to each other. */
  lemma {:induction false} KeptIsNew(valid: ForkMap, known: set<Hash>, txs: seq<ForkTx>, nameOf: Hash -> string)
    requires forall k :: 0 <= k < |txs| ==> txs[k].Fits(nameOf)
    ensures AreNew(Forks(Kept(valid, known, txs, nameOf)), valid, nameOf)
    ensures ArePairwiseNew(Forks(Kept(valid, known, txs, nameOf)))
  {
    if txs != [] {
      var n := |txs| - 1;
      KeptIsNew(valid, known, txs[..n], nameOf);
      var kept := Kept(valid, known, txs[..n], nameOf);
      assert txs[n].Fits(nameOf);
      match txs[n]
      case Create(dest, fork, ok) =>
        if ok && IsKept(kept, valid, known, fork, nameOf) {
          assert AreNew([fork], valid, nameOf);
          OneMoreIsNew(kept, dest, fork, valid, nameOf);
        }
      case Cancel(dest) => KeepingIsNew(kept, dest, valid, nameOf);
    }
  }

  ghost predicate AreNew(created: seq<ForkContext>, valid: ForkMap, nameOf: Hash -> string) {
    forall k :: 0 <= k < |created| ==>
      created[k].name == nameOf(created[k].hashFork) && created[k].hashFork !in valid &&
      forall g :: g in valid ==> nameOf(g) != created[k].name
  }

  ghost predicate ArePairwiseNew(created: seq<ForkContext>) {
    forall j, k :: 0 <= j < k < |created| ==>
      created[j].hashFork != created[k].hashFork && created[j].name != created[k].name
  }

  lemma {:induction false} WithoutDestKeeps(kept: seq<(nat, ForkContext)>, dest: nat)
    ensures forall x :: x in WithoutDest(kept, dest) ==> x in kept
    ensures ArePairwiseNew(Forks(kept)) ==> ArePairwiseNew(Forks(WithoutDest(kept, dest)))
  {
    if kept != [] {
      var rest := WithoutDest(kept[1..], dest);
      WithoutDestKeeps(kept[1..], dest);
      if ArePairwiseNew(Forks(kept)) {
        assert forall k :: 0 <= k < |kept| - 1 ==> Forks(kept[1..])[k] == Forks(kept)[k + 1];
        assert ArePairwiseNew(Forks(kept[1..]));
        forall x | x in rest ensures x.1.hashFork != kept[0].1.hashFork && x.1.name != kept[0].1.name {
          var i :| 0 <= i < |kept[1..]| && kept[1..][i] == x;
          assert Forks(kept)[0] == kept[0].1 && Forks(kept)[i + 1] == x.1;
        }
        var all := [kept[0]] + rest;
        forall j, k | 0 <= j < k < |all|
          ensures Forks(all)[j].hashFork != Forks(all)[k].hashFork && Forks(all)[j].name != Forks(all)[k].name
        {
          assert Forks(all)[k] == rest[k - 1].1 == Forks(rest)[k - 1];
          if j > 0 {
            assert Forks(all)[j] == Forks(rest)[j - 1];
          }
        }
      }
    }
  }

  lemma KeepingIsNew(kept: seq<(nat, ForkContext)>, dest: nat, valid: ForkMap, nameOf: Hash -> string)
    requires AreNew(Forks(kept), valid, nameOf) && ArePairwiseNew(Forks(kept))
    ensures AreNew(Forks(WithoutDest(kept, dest)), valid, nameOf) && ArePairwiseNew(Forks(WithoutDest(kept, dest)))
  {
    WithoutDestKeeps(kept, dest);
    var rest := WithoutDest(kept, dest);
    forall k | 0 <= k < |rest|
      ensures Forks(rest)[k].name == nameOf(Forks(rest)[k].hashFork) && Forks(rest)[k].hashFork !in valid
      ensures forall g :: g in valid ==> nameOf(g) != Forks(rest)[k].name
    {
      assert rest[k] in kept;
      var i :| 0 <= i < |kept| && kept[i] == rest[k];
      assert Forks(kept)[i] == Forks(rest)[k];
    }
  }

  lemma OneMoreIsNew(kept: seq<(nat, ForkContext)>, dest: nat, fork: ForkContext, valid: ForkMap, nameOf: Hash -> string)
    requires AreNew(Forks(kept), valid, nameOf) && ArePairwiseNew(Forks(kept)) && AreNew([fork], valid, nameOf)
    requires forall k :: 0 <= k < |kept| ==> kept[k].1.hashFork != fork.hashFork && kept[k].1.name != fork.name
    ensures AreNew(Forks(kept + [(dest, fork)]), valid, nameOf) && ArePairwiseNew(Forks(kept + [(dest, fork)]))
  {
    assert Forks(kept + [(dest, fork)]) == Forks(kept) + [fork];
    assert AreNew([fork], valid, nameOf) ==> [fork][0].hashFork !in valid;
  }

  // ---------------------------------------------------------------- the table in place

  class ForkManager {
    /** The name in the profile of a fork; the fork's hash fixes it. */
    ghost const nameOf: Hash -> string
    var table: map<Hash, ValidForkId>
    var names: map<Hash, string>
    var primaryLast: Hash
    var current: set<Hash>
    /** The branch that ends at each block of the table. */
    ghost var branches: map<Hash, Branch>

    constructor (ghost nameOf: Hash -> string)
      ensures Valid() && table == map[] && branches == map[] && current == {} && this.nameOf == nameOf
    {
      this.nameOf := nameOf;
      table, names, branches, primaryLast, current := map[], map[], map[], ZERO, {};
    }

    ghost predicate Valid()
      reads this
    {
      Encodes(table, branches) && AllNamed(branches, names, nameOf)
    }

    /** The forks valid at a block: the fold of its branch. */
    method GetValidFdForkId(block: Hash) returns (found: bool, forks: ForkMap)
      requires Valid()
      ensures found <==> block in table
      ensures forks == if found then Fold(branches[block]) else map[]
    {
      forks := map[];
      found := block in table;
      if found {
        DecodesToFold(table, branches, block);
        if table[block].ref != ZERO {
          if table[block].ref in table {
            forks := Merge(forks, table[table[block].ref].forks);
          }
        }
        forks := Merge(forks, table[block].forks);
      }
    }

    method GetValidForkCreatedHeight(block: Hash, fork: Hash) returns (height: int)
      requires Valid()
      ensures height == if block in table then OwnFirst(branches[block], fork) else -1
    {
      if block in table {
        AnchorIsKnown(branches[block], branches);
        var entry := table[block];
        if fork in entry.forks {
          return entry.forks[fork];
        }
        if entry.ref != ZERO && entry.ref in table && fork in table[entry.ref].forks {
          return table[entry.ref].forks[fork];
        }
      }
      height := -1;
    }

    /** Whether a new fork may be created above `prev`: by hash and by name it is not yet valid there. */
    method VerifyFork(prev: Hash, fork: Hash, name: string) returns (ok: bool)
      requires Valid()
      ensures ok <==> (prev in table ==>
                         fork !in Fold(branches[prev]) && forall g :: g in Fold(branches[prev]) ==> nameOf(g) != name)
    {
      var found, valid := GetValidFdForkId(prev);
      if found {
        if fork in valid {
          return false;
        }
        assert Named(branches[prev], names, nameOf);
        if exists g :: g in valid && g in names && names[g] == name {
          return false;
        }
      }
      ok := true;
    }

    /** Where the new entry starts from: a full copy at a checkpoint, else the increment of the block below. */
    method StartEntry(prev: Hash, checkpoint: bool) returns (ok: bool, ref: Hash, start: ForkMap)
      requires Valid()
      ensures ok <==> prev in table || (checkpoint && prev == ZERO)
      ensures ok && checkpoint ==> ref == ZERO && start == if prev == ZERO then map[] else Fold(branches[prev])
      ensures ok && !checkpoint ==> ref == Anchor(branches[prev]).block && start == Since(branches[prev])
    {
      ok, ref, start := true, ZERO, map[];
      if checkpoint {
        if prev != ZERO {
          ok, start := GetValidFdForkId(prev);
        }
      } else if prev !in table {
        ok := false;
      } else {
        AnchorIsKnown(branches[prev], branches);
        if table[prev].ref == ZERO {
          ref := prev;
        } else {
          start, ref := table[prev].forks, table[prev].ref;
        }
      }
    }

    /** The loop over the created forks: their names are recorded and they join the entry. */
    method RecordCreated(created: seq<ForkContext>, height: nat, start: ForkMap) returns (valid: ForkMap)
      requires AllNamed(branches, names, nameOf)
      requires forall k :: 0 <= k < |created| ==> created[k].name == nameOf(created[k].hashFork)
      modifies this`names
      ensures valid == InsertAll(start, created, height)
      ensures AllNamed(branches, names, nameOf)
      ensures forall k :: 0 <= k < |created| ==>
                created[k].hashFork in names && names[created[k].hashFork] == nameOf(created[k].hashFork)
    {
      valid := start;
      for k := 0 to |created|
        invariant InsertAll(start, created, height) == InsertAll(valid, created[k..], height)
        invariant AllNamed(branches, names, nameOf)
        invariant forall j :: 0 <= j < k ==>
                    created[j].hashFork in names && names[created[j].hashFork] == nameOf(created[j].hashFork)
      {
        var f := created[k];
        assert created[k..][1..] == created[k + 1..];
        ghost var was := names;
        names := names[f.hashFork := f.name];
        if f.hashParent != ZERO && f.hashParent !in names {
          names := names[f.hashParent := ""];
        }
        forall h | h in branches ensures Named(branches[h], names, nameOf) {
          assert Named(branches[h], was, nameOf);
        }
        if f.hashFork !in valid {
          valid := valid[f.hashFork := height];
        }
      }
      assert created[|created|..] == [];
    }

    /** The forks valid at a block; none at one that is not known. */
    ghost function ValidAt(block: Hash): ForkMap
      reads this
    {
      if block in branches then Fold(branches[block]) else map[]
    }

    /** The forks that the transactions of a block create above a block. */
    ghost function CreatedBy(prev: Hash, txs: seq<ForkTx>): seq<ForkContext>
      reads this
    {
      Forks(Kept(ValidAt(prev), names.Keys, txs, nameOf))
    }

    /** The branch that a block extends. */
    ghost function Tip(prev: Hash, block: Hash, created: seq<ForkContext>, checkpoint: bool): Branch
      reads this
    {
      Grow(if prev in branches then branches[prev] else Root, block, created, checkpoint)
    }

    /** The entry of a block is written, over one that it may have. A new block keeps the table an encoding, and so does one
        that is added again in the same way. A block above an unknown one is refused, and its entry erased. */
    method AddValidForkContext(prev: Hash, block: Hash, created: seq<ForkContext>, checkpoint: bool)
      returns (ok: bool, ref: Hash, valid: ForkMap)
      requires Valid() && block != ZERO && prev != block
      requires forall k :: 0 <= k < |created| ==> created[k].name == nameOf(created[k].hashFork)
      modifies this`table, this`names, this`branches
      ensures ok <==> prev in old(table) || (checkpoint && prev == ZERO)
      ensures !ok ==> table == old(table) - {block} && branches == old(branches) - {block} && names == old(names)
      ensures ok ==> table == old(table)[block := ValidForkId(ref, valid)]
      ensures ok ==> branches == old(branches)[block := old(Tip(prev, block, created, checkpoint))]
      ensures ok ==> ValidForkId(ref, valid) == Entry(old(Tip(prev, block, created, checkpoint)))
      ensures block !in old(table) || (ok && branches == old(branches)) ==> Valid()
    {
      var start;
      ghost var tip := Tip(prev, block, created, checkpoint);
      ok, ref, start := StartEntry(prev, checkpoint);
      if !ok {
        assert block !in table ==> table - {block} == table && branches - {block} == branches;
        table := table - {block};
        branches := branches - {block};
        return false, ZERO, map[];
      }
      EntryOfTip(table, branches, tip, ref, start);
      valid := RecordCreated(created, block.height, start);
      if block !in table || branches[block] == tip {
        EncodesWith(table, branches, tip);
      }
      NamedTip(tip, branches, names, nameOf);
      table := table[block := ValidForkId(ref, valid)];
      branches := branches[block := tip];
    }

    /** The loop of `AddBlockForkContext` over a block's transactions: a fork is kept when its parent is known, its origin
        block is valid, it passes `VerifyFork` and no fork kept so far has its hash or name; spending from a fork's address
        takes the fork back. */
    method CollectForks(prev: Hash, txs: seq<ForkTx>) returns (kept: seq<(nat, ForkContext)>)
      requires Valid() && forall k :: 0 <= k < |txs| ==> txs[k].Fits(nameOf)
      ensures kept == Kept(ValidAt(prev), names.Keys, txs, nameOf)
      ensures AreNew(Forks(kept), ValidAt(prev), nameOf) && ArePairwiseNew(Forks(kept))
    {
      kept := [];
      for i := 0 to |txs|
        invariant kept == Kept(ValidAt(prev), names.Keys, txs[..i], nameOf)
      {
        assert txs[..i + 1][..i] == txs[..i];
        match txs[i]
        case Create(dest, fork, valid) =>
          var ok := VerifyFork(prev, fork.hashFork, fork.name);
          if valid && (fork.hashParent in names || exists k :: 0 <= k < |kept| && kept[k].1.hashFork == fork.hashParent) && ok &&
             forall k :: 0 <= k < |kept| ==> kept[k].1.hashFork != fork.hashFork && kept[k].1.name != fork.name
          {
            kept := kept + [(dest, fork)];
          }
        case Cancel(dest) =>
          kept := WithoutDest(kept, dest);
      }
      assert txs[..|txs|] == txs;
      KeptIsNew(ValidAt(prev), names.Keys, txs, nameOf);
    }

    /** Every branch of the table creates only forks that are new on it. */
    ghost predicate AllVerified()
      reads this
    {
      forall h :: h in branches ==> Verified(branches[h], nameOf)
    }

    /** `AddBlockForkContext` of a new block that is not the genesis block: above a known one it extends that block's branch
        by the forks it creates and keeps every branch verified; with `NamesAreDistinct` and `VerifiedIsDisjoint`, names
        stay distinct and the two queries agree. Above an unknown one it fails and changes nothing. */
    method AddBlockForkContext(prev: Hash, block: Hash, txs: seq<ForkTx>, checkpoint: bool) returns (ok: bool)
      requires Valid() && AllVerified() && block != ZERO && block !in table && prev != block
      requires forall k :: 0 <= k < |txs| ==> txs[k].Fits(nameOf)
      modifies this`table, this`names, this`branches
      ensures Valid() && AllVerified() && (ok <==> prev in old(table) || (checkpoint && prev == ZERO))
      ensures branches == if !ok then old(branches)
                          else old(branches)[block := old(Tip(prev, block, CreatedBy(prev, txs), checkpoint))]
    {
      var kept := CollectForks(prev, txs);
      var ref, valid;
      ok, ref, valid := AddValidForkContext(prev, block, Forks(kept), checkpoint);
      assert !ok ==> branches == old(branches);
    }

    /** `AddBlockForkContext` of the genesis block: its own fork is valid from there on. */
    method AddGenesisForkContext(block: Hash, own: ForkContext)
      requires Valid() && AllVerified() && block != ZERO && block !in table && ZERO !in table
      requires own.hashFork == block && own.name == nameOf(block)
      modifies this`table, this`names, this`branches
      ensures Valid() && AllVerified() && branches == old(branches)[block := Grow(Root, block, [own], true)]
      ensures table == old(table)[block := ValidForkId(ZERO, map[block := block.height])]
    {
      var ok, ref, valid := AddValidForkContext(ZERO, block, [own], true);
      InsertAllKeys(map[], [own], block.height);
      assert [own][0].hashFork == block;
      assert Fold(Grow(Root, block, [own], true)) == InsertAll(map[], [own], block.height) == map[block := block.height];
    }

    /** Taking back a block. The table stays an encoding when no other branch runs through the block; what it answers
        otherwise is in `RemovalKeepsAnswer`. */
    method RemoveValidForkContext(block: Hash)
      requires Valid()
      modifies this`table, this`branches
      ensures table == old(table) - {block} && branches == old(branches) - {block}
      ensures (forall h :: h in branches ==> !RunsThrough(branches[h], block)) ==> Valid()
    {
      ghost var rest := branches - {block};
      if forall h :: h in rest ==> !RunsThrough(rest[h], block) {
        forall h | h in branches && h != block ensures !RunsThrough(branches[h], block) {
          assert h in rest;
        }
        EncodesShrinks(table, branches, block);
      }
      table := table - {block};
      branches := rest;
    }

    /** The end of `ForkUpdate` on the primary chain: the current forks become those that are valid at the
        primary tip and allowed, and the ones that were dropped are reported. */
    method UpdateCurrent(allowed: set<Hash>) returns (dropped: set<Hash>)
      requires Valid()
      modifies this`current
      ensures current == if primaryLast in table then set f | f in Fold(branches[primaryLast]) && f in allowed else {}
      ensures dropped == old(current) - current
    {
      var found, valid := GetValidFdForkId(primaryLast);
      dropped := set f | f in current && !(f in valid && f in allowed);
      current := (current - dropped) + set f | f in valid && f in allowed;
    }
  }
}
