/** The window of the delegated channel over the primary chain: the last blocks, newest first, with the delegates enrolled
    in each and the distribution and publication data collected for them. Reorganisations drop blocks from the front,
    extensions push new ones and drop the oldest. Sets of delegates travel between peers as 64-bit bitmaps. */
module DelegatedWindow {
  import opened Common

  type Bytes = seq<bv8>

  /** What is known about one block: its enrolled delegates in their fixed order, and the data by delegate. */
  datatype ChainData = ChainData(enrolled: seq<nat>, distribute: map<nat, Bytes>, publish: map<nat, Bytes>)

  /** Block hashes from the newest to the oldest, the data by block hash, and the height of the newest block. */
  datatype Window = Window(list: seq<nat>, data: map<nat, ChainData>, last: int)

  /** A change of the primary chain as the channel is told about it: the blocks above `start`, lowest first, with their
      enrolled delegates, and the data this node has to distribute and to publish. */
  datatype Update = Update(start: int, enrolled: seq<(nat, seq<nat>)>, distributed: seq<(nat, map<nat, Bytes>)>,
                           published: map<nat, Bytes>, publishHash: nat)

  const CLEARED := Window([], map[], -1)

  function Elements<T>(s: seq<T>): set<T> {
    set x | x in s
  }

  /** The hashes of the new blocks, newest first. */
  function Pushed<T>(blocks: seq<(nat, T)>): seq<nat> {
    if blocks == [] then [] else [blocks[|blocks| - 1].0] + Pushed(blocks[..|blocks| - 1])
  }

  function DataAt(data: map<nat, ChainData>, hash: nat): ChainData {
    if hash in data then data[hash] else ChainData([], map[], map[])
  }

  function Enrol(data: map<nat, ChainData>, blocks: seq<(nat, seq<nat>)>): map<nat, ChainData> {
    if blocks == [] then data
    else
      var before, block := Enrol(data, blocks[..|blocks| - 1]), blocks[|blocks| - 1];
      var entry := DataAt(before, block.0);
      before[block.0 := entry.(enrolled := entry.enrolled + block.1)]
  }

  /** Inserting into a map keeps the entries that are there. */
  function Distribute(data: map<nat, ChainData>, blocks: seq<(nat, map<nat, Bytes>)>): map<nat, ChainData> {
    if blocks == [] then data
    else
      var before, block := Distribute(data, blocks[..|blocks| - 1]), blocks[|blocks| - 1];
      var entry := DataAt(before, block.0);
      before[block.0 := entry.(distribute := Merge(entry.distribute, block.1))]
  }

  /** How many blocks an update takes off the front: all of them when it starts above the newest. */
  function Dropped(w: Window, start: int): nat {
    if w.last < start then |w.list| else Min(w.last - start, |w.list|)
  }

  /** The blocks once the new ones are pushed, before the oldest are dropped. */
  function Extended(w: Window, u: Update): seq<nat> {
    Pushed(u.enrolled) + w.list[Dropped(w, u.start)..]
  }

  function ExtendedData(w: Window, u: Update): map<nat, ChainData> {
    var kept := if w.last < u.start then map[] else w.data - Elements(w.list[..Dropped(w, u.start)]);
    Distribute(Enrol(kept, u.enrolled), u.distributed)
  }

  function Trim(list: seq<nat>, data: map<nat, ChainData>, last: int, interval: nat): Window {
    var n := Min(|list|, interval + 1);
    Window(list[..n], data - Elements(list[n..]), last)
  }

  function Publish(w: Window, u: Update, interval: nat): Window {
    if |w.list| == interval + 1 && u.publishHash == w.list[interval] && u.published != map[] then
      var entry := DataAt(w.data, u.publishHash);
      w.(data := w.data[u.publishHash := entry.(publish := Merge(entry.publish, u.published))])
    else w
  }

  /** What `Update` does to the window. */
  function Updated(w: Window, u: Update, interval: nat): Window {
    Publish(Trim(Extended(w, u), ExtendedData(w, u), u.start + |u.enrolled|, interval), u, interval)
  }

  // ---------------------------------------------------------------- following the primary chain

  /** The list is the top of the chain, newest first. */
  predicate IsTop(list: seq<nat>, chain: seq<nat>) {
    |list| <= |chain| && forall i :: 0 <= i < |list| ==> list[i] == chain[|chain| - 1 - i]
  }

  /** The window follows a primary chain, given as the hash of the block at each height: it is a contiguous run of blocks
      that ends at the tip, of at most `interval + 1` blocks, and holds data for exactly these. */
  ghost predicate Follows(w: Window, chain: seq<nat>, interval: nat) {
    w.last == |chain| - 1 && IsTop(w.list, chain) && |w.list| <= interval + 1 && w.data.Keys == Elements(w.list)
  }

  /** The update tells of a change of the primary chain: below `start` nothing changes, as far as the channel knew the
      chain there, and the new blocks are those listed. */
  predicate Tells(u: Update, before: seq<nat>, after: seq<nat>) {
    -1 <= u.start && |after| == u.start + 1 + |u.enrolled| && Distinct(after) &&
    (forall i :: 0 <= i < |u.enrolled| ==> after[u.start + 1 + i] == u.enrolled[i].0) &&
    (u.start < |before| ==> after[..u.start + 1] == before[..u.start + 1])
  }

  /** All data to distribute is for blocks in the window. */
  predicate InRange(w: Window, u: Update) {
    forall i :: 0 <= i < |u.distributed| ==> u.distributed[i].0 in Extended(w, u)
  }

  lemma {:induction false} PushedIs<T>(blocks: seq<(nat, T)>)
    ensures |Pushed(blocks)| == |blocks|
    ensures forall i :: 0 <= i < |blocks| ==> Pushed(blocks)[i] == blocks[|blocks| - 1 - i].0
  {
    if blocks != [] {
      PushedIs(blocks[..|blocks| - 1]);
    }
  }

  lemma {:induction false} EnrolKeys(data: map<nat, ChainData>, blocks: seq<(nat, seq<nat>)>)
    ensures Enrol(data, blocks).Keys == data.Keys + Elements(Pushed(blocks))
  {
    if blocks != [] {
      EnrolKeys(data, blocks[..|blocks| - 1]);
    }
  }

  lemma {:induction false} DistributeKeys(data: map<nat, ChainData>, blocks: seq<(nat, map<nat, Bytes>)>)
    ensures Distribute(data, blocks).Keys == data.Keys + Elements(Pushed(blocks))
  {
    if blocks != [] {
      DistributeKeys(data, blocks[..|blocks| - 1]);
    }
  }

  /** Before the oldest blocks are dropped, the list is the top of the new chain. */
  lemma ExtendedIsTop(w: Window, u: Update, before: seq<nat>, after: seq<nat>, interval: nat)
    requires Follows(w, before, interval) && Tells(u, before, after)
    ensures IsTop(Extended(w, u), after) && Distinct(Extended(w, u))
  {
    PushedIs(u.enrolled);
    var n, list, d := |u.enrolled|, Extended(w, u), Dropped(w, u.start);
    forall i | 0 <= i < |list| ensures i < |after| && list[i] == after[|after| - 1 - i] {
      if i >= n {
        assert list[i] == w.list[d + i - n];
        var h := |before| - 1 - (d + i - n);
        assert before[h] == before[..u.start + 1][h] == after[..u.start + 1][h];
      }
    }
    assert |list| > 0 ==> |list| - 1 < |after|;
    forall i, j | 0 <= i < j < |list| ensures list[i] != list[j] {
      assert after[|after| - 1 - j] != after[|after| - 1 - i];
    }
  }

  lemma KeptKeys(data: map<nat, ChainData>, list: seq<nat>, d: nat)
    requires data.Keys == Elements(list) && Distinct(list) && d <= |list|
    ensures (data - Elements(list[..d])).Keys == Elements(list[d..])
  {
    assert list == list[..d] + list[d..];
    forall x | x in list[d..] ensures x !in list[..d] {
      var i :| 0 <= i < |list[d..]| && list[d..][i] == x;
      assert list[d + i] == x;
    }
  }

  lemma ElementsAppend(a: seq<nat>, b: seq<nat>)
    ensures Elements(a + b) == Elements(a) + Elements(b)
  {
  }

  lemma ExtendedKeys(w: Window, u: Update)
    requires w.data.Keys == Elements(w.list) && Distinct(w.list)
    ensures ExtendedData(w, u).Keys == Elements(Extended(w, u)) + Elements(Pushed(u.distributed))
  {
    var d := Dropped(w, u.start);
    var kept := if w.last < u.start then map[] else w.data - Elements(w.list[..d]);
    KeptKeys(w.data, w.list, d);
    EnrolKeys(kept, u.enrolled);
    DistributeKeys(Enrol(kept, u.enrolled), u.distributed);
    ElementsAppend(Pushed(u.enrolled), w.list[d..]);
  }

  lemma TopIsDistinct(list: seq<nat>, chain: seq<nat>)
    requires IsTop(list, chain) && Distinct(chain)
    ensures Distinct(list)
  {
    forall i, j | 0 <= i < j < |list| ensures list[i] != list[j] {
      assert chain[|chain| - 1 - j] != chain[|chain| - 1 - i];
    }
  }

  /** Dropping the oldest blocks leaves data for exactly the blocks that stay, if and only if there was data for none but
      the blocks of the list. */
  lemma TrimKeys(list: seq<nat>, data: map<nat, ChainData>, more: set<nat>, last: int, interval: nat)
    requires Distinct(list) && data.Keys == Elements(list) + more
    ensures var w := Trim(list, data, last, interval); w.data.Keys == Elements(w.list) <==> more <= Elements(list)
  {
    var n := Min(|list|, interval + 1);
    var w := Trim(list, data, last, interval);
    assert list == list[..n] + list[n..];
    assert Elements(list) == Elements(list[..n]) + Elements(list[n..]);
    assert Elements(list[..n]) !! Elements(list[n..]);
    assert w.data.Keys == Elements(list[..n]) + (more - Elements(list[n..]));
    if !(more <= Elements(list)) {
      var x :| x in more && x !in Elements(list);
      assert x in w.data.Keys;
    }
  }

  /** One update keeps the window a run of at most `interval + 1` blocks that ends at the tip of the new chain. It holds
      data for exactly these blocks if and only if all data to distribute was for blocks in range. */
  lemma UpdateFollows(w: Window, u: Update, before: seq<nat>, after: seq<nat>, interval: nat)
    requires Follows(w, before, interval) && Distinct(before) && Tells(u, before, after)
    ensures var x := Updated(w, u, interval);
            x.last == |after| - 1 && IsTop(x.list, after) && |x.list| == Min(|Extended(w, u)|, interval + 1)
    ensures Follows(Updated(w, u, interval), after, interval) <==> InRange(w, u)
  {
    ExtendedIsTop(w, u, before, after, interval);
    TopIsDistinct(w.list, before);
    ExtendedKeys(w, u);
    var list, more := Extended(w, u), Elements(Pushed(u.distributed));
    TrimKeys(list, ExtendedData(w, u), more, u.start + |u.enrolled|, interval);
    DistributedHashes(u.distributed, list);
    var t := Trim(list, ExtendedData(w, u), u.start + |u.enrolled|, interval);
    TrimHolds(list, ExtendedData(w, u), u.start + |u.enrolled|, interval);
    assert Updated(w, u, interval).list == t.list;
    assert Updated(w, u, interval).data.Keys == t.data.Keys;
  }

  lemma TrimHolds(list: seq<nat>, data: map<nat, ChainData>, last: int, interval: nat)
    requires Distinct(list) && Elements(list) <= data.Keys
    ensures Elements(Trim(list, data, last, interval).list) <= Trim(list, data, last, interval).data.Keys
  {
  }

  lemma DistributedHashes<T>(blocks: seq<(nat, T)>, list: seq<nat>)
    ensures Elements(Pushed(blocks)) <= Elements(list) <==> forall i :: 0 <= i < |blocks| ==> blocks[i].0 in list
  {
    PushedIs(blocks);
    if Elements(Pushed(blocks)) <= Elements(list) {
      forall i | 0 <= i < |blocks| ensures blocks[i].0 in list {
        assert Pushed(blocks)[|blocks| - 1 - i] == blocks[i].0;
        assert blocks[i].0 in Elements(Pushed(blocks));
      }
    }
  }

  /** Data for a block that is not in the window is kept, where only data for its blocks should be. */
  lemma DataOutOfRangeStays()
    ensures var u := Update(-1, [(1, [])], [(2, map[])], map[], 0);
            var w := Updated(CLEARED, u, 3);
            w.list == [1] && w.data.Keys == {1, 2}
  {
    var u := Update(-1, [(1, [])], [(2, map[])], map[], 0);
    PushedIs(u.enrolled);
    PushedIs(u.distributed);
    assert Pushed(u.enrolled) == [1] && Pushed(u.distributed) == [2];
    assert Extended(CLEARED, u) == [1];
    ExtendedKeys(CLEARED, u);
    TrimFits([1], ExtendedData(CLEARED, u), 0, 3);
  }

  lemma TrimFits(list: seq<nat>, data: map<nat, ChainData>, last: int, interval: nat)
    requires |list| <= interval + 1
    ensures Trim(list, data, last, interval) == Window(list, data, last)
  {
    assert list[..|list|] == list && list[|list|..] == [];
    assert data - Elements<nat>([]) == data;
  }

  // ---------------------------------------------------------------- what the window knows of a block

  lemma {:induction false} EnrolAt(data: map<nat, ChainData>, blocks: seq<(nat, seq<nat>)>, hash: nat)
    requires Distinct(Pushed(blocks)) && forall x :: x in Pushed(blocks) ==> x !in data
    ensures hash !in Pushed(blocks) ==> DataAt(Enrol(data, blocks), hash) == DataAt(data, hash)
    ensures forall i :: 0 <= i < |blocks| && blocks[i].0 == hash ==>
              DataAt(Enrol(data, blocks), hash) == ChainData(blocks[i].1, map[], map[])
  {
    if blocks != [] {
      var n := |blocks| - 1;
      PushedIs(blocks);
      PushedIs(blocks[..n]);
      assert Pushed(blocks)[1..] == Pushed(blocks[..n]);
      EnrolAt(data, blocks[..n], hash);
      if hash == blocks[n].0 {
        assert hash == Pushed(blocks)[0] && hash !in Pushed(blocks[..n]);
        forall i | 0 <= i < n ensures blocks[i].0 != hash {
          assert blocks[i].0 == Pushed(blocks)[n - i];
        }
      }
    }
  }

  /** More data may be known, but nothing is forgotten or replaced. */
  predicate Grown(before: ChainData, after: ChainData) {
    after.enrolled == before.enrolled &&
    (forall d :: d in before.distribute ==> d in after.distribute && after.distribute[d] == before.distribute[d]) &&
    (forall d :: d in before.publish ==> d in after.publish && after.publish[d] == before.publish[d])
  }

  lemma {:induction false} DistributeAt(data: map<nat, ChainData>, blocks: seq<(nat, map<nat, Bytes>)>, hash: nat)
    ensures Grown(DataAt(data, hash), DataAt(Distribute(data, blocks), hash))
  {
    if blocks != [] {
      DistributeAt(data, blocks[..|blocks| - 1], hash);
    }
  }

  /** Dropping the oldest blocks and publishing change nothing for a block that stays, but for new publications. */
  lemma StaysKnown(w: Window, u: Update, interval: nat, hash: nat)
    requires Distinct(Extended(w, u)) && hash in Updated(w, u, interval).list && hash in ExtendedData(w, u)
    ensures hash in Updated(w, u, interval).data && Grown(ExtendedData(w, u)[hash], Updated(w, u, interval).data[hash])
  {
    var list := Extended(w, u);
    var n := Min(|list|, interval + 1);
    assert hash in list[..n] && hash !in list[n..];
  }

  /** An update forgets nothing about a block that stays in the window, and a new block enters it with exactly the
      delegates enrolled in it, in their order. */
  lemma UpdateKeepsData(w: Window, u: Update, before: seq<nat>, after: seq<nat>, interval: nat, hash: nat)
    requires Follows(w, before, interval) && Distinct(before) && Tells(u, before, after)
    requires hash in Updated(w, u, interval).list
    ensures var x := Updated(w, u, interval); hash in x.data
    ensures var x := Updated(w, u, interval); hash in w.list[Dropped(w, u.start)..] ==> Grown(DataAt(w.data, hash), x.data[hash])
    ensures var x := Updated(w, u, interval);
            forall i :: 0 <= i < |u.enrolled| && u.enrolled[i].0 == hash ==> x.data[hash].enrolled == u.enrolled[i].1
  {
    ExtendedIsTop(w, u, before, after, interval);
    TopIsDistinct(w.list, before);
    ExtendedKeys(w, u);
    assert hash in Extended(w, u);
    StaysKnown(w, u, interval, hash);
    var d := Dropped(w, u.start);
    var kept := if w.last < u.start then map[] else w.data - Elements(w.list[..d]);
    KeptIs(w, u, before, after, interval);
    EnrolAt(kept, u.enrolled, hash);
    DistributeAt(Enrol(kept, u.enrolled), u.distributed, hash);
  }

  /** The blocks that are not dropped keep their data, and the new ones have none yet. */
  lemma KeptIs(w: Window, u: Update, before: seq<nat>, after: seq<nat>, interval: nat)
    requires Follows(w, before, interval) && Distinct(before) && Tells(u, before, after)
    ensures var d, added := Dropped(w, u.start), Pushed(u.enrolled);
            var kept := if w.last < u.start then map[] else w.data - Elements(w.list[..d]);
            Distinct(added) && (forall x :: x in added ==> x !in kept && x !in w.list[d..]) &&
            forall x :: x in w.list[d..] ==> DataAt(kept, x) == DataAt(w.data, x)
  {
    ExtendedIsTop(w, u, before, after, interval);
    TopIsDistinct(w.list, before);
    var d, added, list := Dropped(w, u.start), Pushed(u.enrolled), Extended(w, u);
    assert w.list == w.list[..d] + w.list[d..];
    assert forall i :: 0 <= i < |added| ==> list[i] == added[i];
    forall x | x in added ensures x !in w.list[d..] {
      var i :| 0 <= i < |added| && added[i] == x;
      assert forall j :: 0 <= j < |w.list[d..]| ==> list[|added| + j] == w.list[d..][j];
    }
  }

  // ---------------------------------------------------------------- bitmaps

  /** A 64-bit word as its bits, lowest first. */
  type Bits = s: seq<bool> | |s| == 64 witness seq(64, i => false)

  function Or(a: Bits, b: Bits): Bits {
    seq(64, i requires 0 <= i < 64 => a[i] || b[i])
  }

  function And(a: Bits, b: Bits): Bits {
    seq(64, i requires 0 <= i < 64 => a[i] && b[i])
  }

  function Xor(a: Bits, b: Bits): Bits {
    seq(64, i requires 0 <= i < 64 => a[i] != b[i])
  }

  /** A word whose bit `i` is `on`, and no other. */
  function Shifted(on: bool, i: nat): Bits
    requires i < 64
  {
    seq(64, k => on && k == i)
  }

  /** The delegates that a bitmap stands for. */
  function Known(enrolled: seq<nat>, bitmap: Bits): set<nat>
    requires |enrolled| <= 64
  {
    set i | 0 <= i < |enrolled| && bitmap[i] :: enrolled[i]
  }

  /** `GetBitmap`: one bit for each enrolled delegate, set when there is data of that delegate. */
  method GetBitmap(enrolled: seq<nat>, data: map<nat, Bytes>) returns (bitmap: Bits)
    requires |enrolled| <= 64
    ensures forall i :: 0 <= i < 64 ==> (bitmap[i] <==> i < |enrolled| && enrolled[i] in data)
    ensures Known(enrolled, bitmap) == Elements(enrolled) * data.Keys
  {
    bitmap := Shifted(false, 0);
    for i := 0 to |enrolled|
      invariant forall k :: 0 <= k < 64 ==> (bitmap[k] <==> k < i && enrolled[k] in data)
    {
      bitmap := Or(bitmap, Shifted(enrolled[i] in data, i));
    }
  }

  /** `GetKnownData`. */
  method GetKnownData(enrolled: seq<nat>, bitmap: Bits) returns (dests: set<nat>)
    requires |enrolled| <= 64
    ensures dests == Known(enrolled, bitmap)
  {
    dests := {};
    for i := 0 to |enrolled|
      invariant dests == set k | 0 <= k < i && bitmap[k] :: enrolled[k]
    {
      if And(bitmap, Shifted(true, i))[i] {
        dests := dests + {enrolled[i]};
      }
    }
  }

  /** The delegates to ask a peer for, given the peer's bitmap. When that is the bitmap of data which the peer has, they
      are exactly the enrolled delegates whose data the peer has and this node lacks. */
  method AskFor(enrolled: seq<nat>, ours: map<nat, Bytes>, bitmap: Bits) returns (dests: set<nat>)
    requires |enrolled| <= 64
    ensures dests == set i | 0 <= i < |enrolled| && bitmap[i] && enrolled[i] !in ours :: enrolled[i]
    ensures forall theirs: set<nat> ::
              (forall i :: 0 <= i < |enrolled| ==> (bitmap[i] <==> enrolled[i] in theirs)) ==>
              dests == Elements(enrolled) * theirs - ours.Keys
  {
    var known := GetBitmap(enrolled, ours);
    var missing := Xor(And(known, bitmap), bitmap);
    dests := GetKnownData(enrolled, missing);
  }

  // ---------------------------------------------------------------- runs

  /** What happens to a channel: the primary chain changes to `after`, or data arrives from a peer. */
  datatype Event =
    | Changed(u: Update, after: seq<nat>)
    | Distributed(hash: nat, dest: nat, bytes: Bytes)
    | Published(hash: nat, dest: nat, bytes: Bytes)

  function InsertedDistribute(w: Window, hash: nat, dest: nat, bytes: Bytes): Window {
    if hash in w.data && dest !in w.data[hash].distribute then
      var entry := w.data[hash];
      w.(data := w.data[hash := entry.(distribute := entry.distribute[dest := bytes])])
    else w
  }

  /** Publications are taken for the oldest block of a full window only. */
  predicate InPublishRange(w: Window, hash: nat, interval: nat) {
    |w.list| == interval + 1 && w.list[interval] == hash
  }

  function InsertedPublish(w: Window, hash: nat, dest: nat, bytes: Bytes, interval: nat): Window {
    if InPublishRange(w, hash, interval) && hash in w.data && dest !in w.data[hash].publish then
      var entry := w.data[hash];
      w.(data := w.data[hash := entry.(publish := entry.publish[dest := bytes])])
    else w
  }

  function After(events: seq<Event>, interval: nat): Window {
    if events == [] then CLEARED
    else
      var w := After(events[..|events| - 1], interval);
      match events[|events| - 1]
      case Changed(u, _) => Updated(w, u, interval)
      case Distributed(hash, dest, bytes) => InsertedDistribute(w, hash, dest, bytes)
      case Published(hash, dest, bytes) => InsertedPublish(w, hash, dest, bytes, interval)
  }

  /** The primary chain after some events. */
  function ChainAfter(events: seq<Event>): seq<nat> {
    if events == [] then []
    else
      var e := events[|events| - 1];
      if e.Changed? then e.after else ChainAfter(events[..|events| - 1])
  }

  /** The channel is told truthfully about every change, with data to distribute for new blocks only. */
  predicate Truthful(events: seq<Event>) {
    events != [] ==>
      var before, e := events[..|events| - 1], events[|events| - 1];
      Truthful(before) &&
      (e.Changed? ==> Tells(e.u, ChainAfter(before), e.after) &&
                      forall i :: 0 <= i < |e.u.distributed| ==> e.u.distributed[i].0 in Pushed(e.u.enrolled))
  }

  /** Whatever extensions, rollbacks, gaps and arrivals of data happened, the window is a contiguous run that ends at the
      tip of the primary chain and holds data for exactly its members. */
  lemma {:induction false} RunFollows(events: seq<Event>, interval: nat)
    requires Truthful(events)
    ensures Distinct(ChainAfter(events)) && Follows(After(events, interval), ChainAfter(events), interval)
  {
    if events != [] {
      var before, e := events[..|events| - 1], events[|events| - 1];
      RunFollows(before, interval);
      if e.Changed? {
        UpdateFollows(After(before, interval), e.u, ChainAfter(before), e.after, interval);
        assert InRange(After(before, interval), e.u);
      }
    }
  }

  /** Data for a block outside the window, which does not enter it, is erased by an update exactly when this leaves a gap
      above the newest block, so that everything is cleared, and does not bring the data again. */
  lemma StrayData(w: Window, u: Update, interval: nat, hash: nat)
    requires hash in w.data && hash !in w.list && hash !in Pushed(u.enrolled)
    ensures var x := Updated(w, u, interval);
            hash !in x.list && (hash in x.data <==> u.start <= w.last || hash in Pushed(u.distributed))
  {
    var d := Dropped(w, u.start);
    var kept := if w.last < u.start then map[] else w.data - Elements(w.list[..d]);
    EnrolKeys(kept, u.enrolled);
    DistributeKeys(Enrol(kept, u.enrolled), u.distributed);
    assert hash in kept <==> u.start <= w.last;
    var list := Extended(w, u);
    assert hash !in list;
    var t := Trim(list, ExtendedData(w, u), u.start + |u.enrolled|, interval);
    assert hash !in t.list && (hash in t.data <==> hash in ExtendedData(w, u));
  }

  /** From some events on, the primary chain changes without gaps, and never to one with the block of a hash on top. */
  predicate Avoids(events: seq<Event>, more: seq<Event>, interval: nat, hash: nat)
    decreases |more|
  {
    more != [] ==>
      var before, e := more[..|more| - 1], more[|more| - 1];
      Avoids(events, before, interval, hash) &&
      (e.Changed? ==> e.u.start <= After(events + before, interval).last && hash !in Pushed(e.u.enrolled))
  }

  /** So such data stays however long the channel runs, until the chain changes with a gap. */
  lemma {:induction false} StrayDataStays(events: seq<Event>, more: seq<Event>, interval: nat, hash: nat)
    requires hash in After(events, interval).data && hash !in After(events, interval).list && Avoids(events, more, interval, hash)
    ensures hash in After(events + more, interval).data && hash !in After(events + more, interval).list
    decreases |more|
  {
    if more == [] {
      assert events + more == events;
    } else {
      var before, e := more[..|more| - 1], more[|more| - 1];
      StrayDataStays(events, before, interval, hash);
      assert (events + more)[..|events + more| - 1] == events + before;
      if e.Changed? {
        StrayData(After(events + before, interval), e.u, interval, hash);
      }
    }
  }

  // ---------------------------------------------------------------- the channel's chain object

  class ChannelChain {
    const interval: nat
    var listBlockHash: seq<nat>
    var mapChainData: map<nat, ChainData>
    var nLastBlockHeight: int

    function State(): Window
      reads this
    {
      Window(listBlockHash, mapChainData, nLastBlockHeight)
    }

    constructor (interval: nat)
      ensures State() == CLEARED && this.interval == interval
    {
      this.interval := interval;
      listBlockHash, mapChainData, nLastBlockHeight := [], map[], -1;
    }

    method Clear()
      modifies this
      ensures State() == CLEARED
    {
      listBlockHash, mapChainData, nLastBlockHeight := [], map[], -1;
    }

    /** The first loop of `Update`: blocks above `start` are taken off the front. */
    method DropFront(start: int)
      requires start <= nLastBlockHeight
      modifies this
      ensures var w, d := old(State()), Dropped(old(State()), start);
              listBlockHash == w.list[d..] && mapChainData == w.data - Elements(w.list[..d])
    {
      ghost var w := State();
      ghost var k := 0;
      assert w.data - Elements(w.list[..0]) == w.data;
      while nLastBlockHeight > start && listBlockHash != []
        invariant 0 <= k <= |w.list| && nLastBlockHeight == w.last - k >= start
        invariant listBlockHash == w.list[k..] && mapChainData == w.data - Elements(w.list[..k])
      {
        var hash := listBlockHash[0];
        assert w.list[..k + 1] == w.list[..k] + [hash];
        mapChainData := mapChainData - {hash};
        listBlockHash := listBlockHash[1..];
        nLastBlockHeight := nLastBlockHeight - 1;
        k := k + 1;
      }
      assert k == Dropped(w, start);
    }

    /** The second loop of `Update`. */
    method PushBlocks(blocks: seq<(nat, seq<nat>)>)
      modifies this
      ensures listBlockHash == Pushed(blocks) + old(listBlockHash) && mapChainData == Enrol(old(mapChainData), blocks)
      ensures nLastBlockHeight == old(nLastBlockHeight) + |blocks|
    {
      for i := 0 to |blocks|
        invariant listBlockHash == Pushed(blocks[..i]) + old(listBlockHash)
        invariant mapChainData == Enrol(old(mapChainData), blocks[..i])
        invariant nLastBlockHeight == old(nLastBlockHeight) + i
      {
        assert blocks[..i + 1][..i] == blocks[..i];
        var hash, entry := blocks[i].0, DataAt(mapChainData, blocks[i].0);
        for k := 0 to |blocks[i].1|
          invariant entry == DataAt(mapChainData, hash).(enrolled := DataAt(mapChainData, hash).enrolled + blocks[i].1[..k])
        {
          entry := entry.(enrolled := entry.enrolled + [blocks[i].1[k]]);
        }
        assert blocks[i].1[..|blocks[i].1|] == blocks[i].1;
        mapChainData := mapChainData[hash := entry];
        listBlockHash := [hash] + listBlockHash;
        nLastBlockHeight := nLastBlockHeight + 1;
      }
      assert blocks[..|blocks|] == blocks;
    }

    /** The third loop of `Update`. */
    method AddDistribute(blocks: seq<(nat, map<nat, Bytes>)>)
      modifies `mapChainData
      ensures mapChainData == Distribute(old(mapChainData), blocks)
    {
      for i := 0 to |blocks|
        invariant mapChainData == Distribute(old(mapChainData), blocks[..i])
      {
        assert blocks[..i + 1][..i] == blocks[..i];
        var entry := DataAt(mapChainData, blocks[i].0);
        mapChainData := mapChainData[blocks[i].0 := entry.(distribute := Merge(entry.distribute, blocks[i].1))];
      }
      assert blocks[..|blocks|] == blocks;
    }

    /** The last loop of `Update`: the oldest blocks are dropped until the window fits. */
    method DropBack()
      modifies this
      ensures State() == Trim(old(listBlockHash), old(mapChainData), old(nLastBlockHeight), interval)
    {
      ghost var list, data := listBlockHash, mapChainData;
      assert data - Elements(list[|list|..]) == data;
      while |listBlockHash| > interval + 1
        invariant Min(|list|, interval + 1) <= |listBlockHash| <= |list| && nLastBlockHeight == old(nLastBlockHeight)
        invariant listBlockHash == list[..|listBlockHash|] && mapChainData == data - Elements(list[|listBlockHash|..])
      {
        var n := |listBlockHash| - 1;
        var hash := listBlockHash[n];
        assert list[n..] == [hash] + list[n + 1..];
        mapChainData := mapChainData - {hash};
        listBlockHash := listBlockHash[..n];
      }
    }

    /** `CDelegatedChannelChain::Update`. */
    method Update(u: Update)
      modifies this
      ensures State() == Updated(old(State()), u, interval)
    {
      ghost var w := State();
      if nLastBlockHeight < u.start {
        Clear();
      } else {
        DropFront(u.start);
      }
      assert listBlockHash == w.list[Dropped(w, u.start)..];
      nLastBlockHeight := u.start;
      PushBlocks(u.enrolled);
      AddDistribute(u.distributed);
      assert listBlockHash == Extended(w, u) && mapChainData == ExtendedData(w, u);
      DropBack();
      if |listBlockHash| == interval + 1 && u.publishHash == listBlockHash[interval] && u.published != map[] {
        var entry := DataAt(mapChainData, u.publishHash);
        mapChainData := mapChainData[u.publishHash := entry.(publish := Merge(entry.publish, u.published))];
      }
    }

    method InsertDistributeData(hash: nat, dest: nat, bytes: Bytes) returns (ok: bool)
      modifies this
      ensures State() == InsertedDistribute(old(State()), hash, dest, bytes) && (ok <==> State() != old(State()))
    {
      ok := hash in mapChainData && dest !in mapChainData[hash].distribute;
      if ok {
        var entry := mapChainData[hash];
        mapChainData := mapChainData[hash := entry.(distribute := entry.distribute[dest := bytes])];
        assert dest in mapChainData[hash].distribute;
      }
    }

    method InsertPublishData(hash: nat, dest: nat, bytes: Bytes) returns (ok: bool)
      modifies this
      ensures State() == InsertedPublish(old(State()), hash, dest, bytes, interval) && (ok <==> State() != old(State()))
    {
      ok := |listBlockHash| == interval + 1 && listBlockHash[interval] == hash && hash in mapChainData &&
            dest !in mapChainData[hash].publish;
      if ok {
        var entry := mapChainData[hash];
        mapChainData := mapChainData[hash := entry.(publish := entry.publish[dest := bytes])];
        assert dest in mapChainData[hash].publish;
      }
    }

    /** `AskForDistribute`: nothing for a block that is not in the window. */
    method AskForDistribute(hash: nat, bitmap: Bits) returns (dests: set<nat>)
      requires hash in mapChainData ==> |mapChainData[hash].enrolled| <= 64
      ensures hash !in mapChainData ==> dests == {}
      ensures hash in mapChainData ==>
                forall theirs: set<nat> ::
                  (forall i :: 0 <= i < |mapChainData[hash].enrolled| ==> (bitmap[i] <==> mapChainData[hash].enrolled[i] in theirs)) ==>
                  dests == Elements(mapChainData[hash].enrolled) * theirs - mapChainData[hash].distribute.Keys
    {
      dests := {};
      if hash in mapChainData {
        dests := AskFor(mapChainData[hash].enrolled, mapChainData[hash].distribute, bitmap);
      }
    }

    /** `AskForPublish`: nothing but for the oldest block of a full window. */
    method AskForPublish(hash: nat, bitmap: Bits) returns (dests: set<nat>)
      requires hash in mapChainData ==> |mapChainData[hash].enrolled| <= 64
      ensures !InPublishRange(State(), hash, interval) || hash !in mapChainData ==> dests == {}
      ensures InPublishRange(State(), hash, interval) && hash in mapChainData ==>
                forall theirs: set<nat> ::
                  (forall i :: 0 <= i < |mapChainData[hash].enrolled| ==> (bitmap[i] <==> mapChainData[hash].enrolled[i] in theirs)) ==>
                  dests == Elements(mapChainData[hash].enrolled) * theirs - mapChainData[hash].publish.Keys
    {
      dests := {};
      if |listBlockHash| == interval + 1 && hash == listBlockHash[interval] {
        if hash in mapChainData {
          dests := AskFor(mapChainData[hash].enrolled, mapChainData[hash].publish, bitmap);
        }
      }
    }
  }
}
