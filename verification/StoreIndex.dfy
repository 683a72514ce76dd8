/** The paged index over the records of a store. The store is modelled over the plain map of
    key positions; here a paged index that stands for this map follows it step by step, and
    the keys it compares are the keys the store reads at its positions. */
module StoreIndex {
  import opened Wrappers
  import opened Keys
  import opened Codec
  import opened WalFormat
  import opened WalSegments
  import opened WalLog
  import opened WalFiles
  import opened CheckpointFiles
  import opened Recovery
  import opened IndexModule
  import opened LiveItems
  import opened Ranges
  import opened Iteration

  ghost predicate Injective(index: Positions) {
    forall a, b :: a in index && b in index && index[a] == index[b] ==> a == b
  }

  /** The keys at the indexed positions. */
  function KeysOf(index: Positions): (k: Patricia.Records)
    requires Injective(index)
    ensures forall key :: key in index ==> index[key] in k && k[index[key]] == key
    ensures forall p :: p in k ==> k[p] in index && index[k[p]] == p
  {
    map key | key in index :: index[key] := key
  }

  /** The paged index stands for the map of positions. */
  ghost predicate Implements(ix: Index, index: Positions)
    reads ix, ix.nodes, ix.nodes.Repr
  {
    Injective(index) && ix.Valid(KeysOf(index)) && ix.Map(KeysOf(index)) == index
  }

  /** A store whose index resolves can be read through the paged index: positions are not
      shared, and each is read as a put record with the very key the index compares. */
  lemma KeysAreRead(index: Positions, m: Values, view: map<nat, Segment>, snapshot: seq<OwnedRecord>)
    requires Resolves(index, m, view, snapshot)
    ensures Injective(index)
    ensures forall p :: p in KeysOf(index) ==>
      ReadItem(view, snapshot, p).Some? && ReadItem(view, snapshot, p).value.key == KeysOf(index)[p]
  {
    hide ReadItem;
    forall a, b | a in index && b in index && index[a] == index[b] ensures a == b {
      assert ReadItem(view, snapshot, index[a]) == Some(Item(a, m[a]));
      assert ReadItem(view, snapshot, index[b]) == Some(Item(b, m[b]));
    }
    forall p | p in KeysOf(index)
      ensures ReadItem(view, snapshot, p).Some? && ReadItem(view, snapshot, p).value.key == KeysOf(index)[p]
    {
      var key := KeysOf(index)[p];
      assert ReadItem(view, snapshot, index[key]) == Some(Item(key, m[key]));
    }
  }

  /** They are read just the same after records were added. */
  lemma KeysStayRead(index: Positions, m: Values, view: map<nat, Segment>, view2: map<nat, Segment>,
                     snapshot: seq<OwnedRecord>)
    requires Resolves(index, m, view, snapshot) && Keeps(view, view2)
    ensures Injective(index)
    ensures forall p :: p in KeysOf(index) ==>
      ReadItem(view2, snapshot, p).Some? && ReadItem(view2, snapshot, p).value.key == KeysOf(index)[p]
  {
    hide ReadItem, Resolves;
    ResolvesKept(index, m, view, view2, snapshot);
    KeysAreRead(index, m, view2, snapshot);
  }

  // --------------------------------------------------------- positions of new records

  ghost predicate Known(p: Position, index0: Positions, log: seq<Replayed>) {
    (exists key :: key in index0 && index0[key] == p) || exists i :: 0 <= i < |log| && log[i].pos == p
  }

  /** A replayed index holds positions from before and positions of the log. */
  lemma {:induction false} PlayedKnown(index0: Positions, log: seq<Replayed>)
    ensures forall key :: key in Play(index0, log) ==> Known(Play(index0, log)[key], index0, log)
    decreases |log|
  {
    if log != [] {
      var n := |log| - 1;
      PlayedKnown(index0, log[..n]);
      forall key | key in Play(index0, log) ensures Known(Play(index0, log)[key], index0, log) {
        if key in Play(index0, log[..n]) && Play(index0, log)[key] == Play(index0, log[..n])[key] {
          KnownMore(Play(index0, log)[key], index0, log[..n], log);
        } else {
          assert Play(index0, log)[key] == log[n].pos;
        }
      }
    }
  }

  lemma KnownMore(p: Position, index0: Positions, a: seq<Replayed>, b: seq<Replayed>)
    requires Known(p, index0, a) && a <= b
    ensures Known(p, index0, b)
  {
    if !exists key :: key in index0 && index0[key] == p {
      var i :| 0 <= i < |a| && a[i].pos == p;
      assert b[i].pos == p;
    }
  }

  /** The position of a record just written is not in the index yet, and it fits. */
  lemma NewPosition(items: seq<Item>, view: map<nat, Segment>, view2: map<nat, Segment>, x: Replayed)
    requires AllLoaded(view2) && |items| <= MAX_ITEMS && WholeLog(view2) == WholeLog(view) + [x]
    ensures var index := Play(SnapshotIndex(items), WholeLog(view));
      forall key :: key in index ==> index[key] != x.pos
    ensures x.pos < NodeStore.CHILD_TAG
  {
    hide WholeLog, Loaded, IsSnapshotPosition, Play, SnapshotIndex, FileNo, ReadAt;
    var log, index := WholeLog(view), Play(SnapshotIndex(items), WholeLog(view));
    assert items[..|items|] == items;
    SnapshotResolves(items, |items|, view);
    PlayedKnown(SnapshotIndex(items), log);
    WholeIs(view2);
    LogRising(view2, FILE_LIMIT);
    assert x == (log + [x])[|log|] && x in log + [x];
    LogReadable(view2, FILE_LIMIT, x);
    forall key | key in index ensures index[key] != x.pos {
      assert Known(index[key], SnapshotIndex(items), log);
      if !IsSnapshotPosition(index[key]) {
        var i :| 0 <= i < |log| && log[i].pos == index[key];
        assert (log + [x])[i].pos < (log + [x])[|log|].pos;
      }
    }
  }

  lemma WholeIs(view: map<nat, Segment>)
    ensures WholeLog(view) == LogBelow(view, FILE_LIMIT)
  {
  }

  // ------------------------------------------------------------- the two in step

  lemma Narrow(ix: Index, k: Patricia.Records, index: Positions)
    requires ix.Valid(k) && ix.Map(k) == index && Injective(index)
    ensures Implements(ix, index)
  {
    hide KeysOf;
    ix.ValidMeans(k);
    OrderSorted(ix.tree, k);
    ix.RecordsMayChange(k, KeysOf(index));
  }

  /** What a lookup in the paged index finds. */
  method GetIndexed(ix: Index, index: Positions, key: Key) returns (r: Result<ProbeResult>)
    requires Implements(ix, index)
    ensures r.Err? <==> |key| > MAX_KEY_SIZE
    ensures r.Ok? ==> r.value == if key in index then ProbeResult(index[key], true) else ProbeResult(0, false)
  {
    r := ix.Get(key, KeysOf(index));
  }

  /** A new record enters both. */
  method PutIndexed(ix: Index, index: Positions, key: Key, pos: Position) returns (r: Result<PutResult>)
    requires Implements(ix, index) && |key| <= MAX_KEY_SIZE && pos < NodeStore.CHILD_TAG
    requires forall a :: a in index ==> index[a] != pos
    modifies ix, ix.nodes, ix.nodes.Repr
    ensures fresh(ix.nodes.Repr - old(ix.nodes.Repr))
    ensures r.Ok? ==> Implements(ix, index[key := pos])
    ensures r.Ok? ==> r.value == if key in index then PutResult(index[key], true) else PutResult(0, false)
    ensures r.Err? ==> Implements(ix, index) && r == Err(PositionTag) && |ix.nodes.nodes| >= NodeStore.CHILD_TAG
  {
    hide KeysOf;
    var k := KeysOf(index)[pos := key];
    Wider(ix, index, key, pos);
    ix.MapIs(k);
    r := ix.Put(key, pos, k);
    ix.MapIs(k);
    Narrow(ix, k, if r.Ok? then index[key := pos] else index);
  }

  lemma Wider(ix: Index, index: Positions, key: Key, pos: Position)
    requires Implements(ix, index) && forall a :: a in index ==> index[a] != pos
    ensures Injective(index) && Injective(index[key := pos])
    ensures ix.Valid(KeysOf(index)[pos := key]) && ix.Map(KeysOf(index)[pos := key]) == index
  {
    hide KeysOf;
    ix.ValidMeans(KeysOf(index));
    OrderSorted(ix.tree, KeysOf(index));
    ix.RecordsMayChange(KeysOf(index), KeysOf(index)[pos := key]);
  }

  /** A key leaves both. */
  method DeleteIndexed(ix: Index, index: Positions, key: Key) returns (r: Result<DeleteResult>)
    requires Implements(ix, index)
    modifies ix, ix.nodes, ix.nodes.Repr
    ensures ix.nodes.Repr == old(ix.nodes.Repr)
    ensures r.Err? <==> |key| > MAX_KEY_SIZE
    ensures r.Ok? ==> Implements(ix, index - {key})
    ensures r.Ok? ==> r.value == if key in index then DeleteResult(index[key], true) else DeleteResult(0, false)
    ensures r.Err? ==> Implements(ix, index)
  {
    hide KeysOf;
    var k := KeysOf(index);
    ix.MapIs(k);
    r := ix.Delete(key, k);
    ix.MapIs(k);
    Narrow(ix, k, if r.Ok? then index - {key} else index);
  }

  /** Replaying a log into the paged index is replaying it into the map of positions. */
  method ReplayIndexed(ix: Index, index0: Positions, log: seq<Replayed>) returns (ok: bool)
    requires Implements(ix, index0) && Replayable(index0, log)
    modifies ix, ix.nodes, ix.nodes.Repr
    ensures ok ==> Implements(ix, Play(index0, log))
    ensures !ok ==> |ix.nodes.nodes| >= NodeStore.CHILD_TAG
  {
    hide *;
    ghost var nodes := ix.nodes;
    var index: Positions := index0;
    PlayNone(index0, log);
    var i := 0;
    while i < |log|
      invariant 0 <= i <= |log| && Implements(ix, index) && index == Play(index0, log[..i])
      invariant fresh(ix.nodes.Repr - old(ix.nodes.Repr))
    {
      var x := log[i];
      PlayNext(index0, log, i);
      NextIsNew(index0, log, i);
      if x.record.op == OP_PUT {
        var r := PutIndexed(ix, index, x.record.key, x.pos);
        if r.Err? {
          return false;
        }
        index := index[x.record.key := x.pos];
      } else {
        var r := DeleteIndexed(ix, index, x.record.key);
        index := index - {x.record.key};
      }
      i := i + 1;
    }
    assert log[..|log|] == log;
    return true;
  }

  /** What is known of a log: legal keys, and positions that rise and are not in use. */
  ghost predicate Replayable(index0: Positions, log: seq<Replayed>) {
    && (forall x :: x in log ==> |x.record.key| <= MAX_KEY_SIZE && x.pos < NodeStore.CHILD_TAG)
    && Rising(log) && forall key, x :: key in index0 && x in log ==> index0[key] != x.pos
  }

  /** The log behind a snapshot is. */
  lemma LogReplayable(items: seq<Item>, view: map<nat, Segment>)
    requires AllLoaded(view) && |items| <= MAX_ITEMS
    ensures Replayable(SnapshotIndex(items), WholeLog(view))
  {
    hide Loaded, IsSnapshotPosition, SnapshotIndex, ReadAt, LogBelow;
    assert items[..|items|] == items;
    SnapshotResolves(items, |items|, view);
    LogRising(view, FILE_LIMIT);
    forall x | x in WholeLog(view)
      ensures |x.record.key| <= MAX_KEY_SIZE && x.pos < NodeStore.CHILD_TAG && !IsSnapshotPosition(x.pos)
    {
      LogReadable(view, FILE_LIMIT, x);
    }
  }

  lemma PlayNone(index0: Positions, log: seq<Replayed>)
    ensures log[..0] == [] && Play(index0, log[..0]) == index0
  {
  }

  lemma PlayNext(index0: Positions, log: seq<Replayed>, i: nat)
    requires i < |log|
    ensures var x, before := log[i], Play(index0, log[..i]);
      Play(index0, log[..i + 1])
        == if x.record.op == OP_PUT then before[x.record.key := x.pos] else before - {x.record.key}
  {
    assert log[..i + 1][..i] == log[..i];
  }

  lemma NextIsNew(index0: Positions, log: seq<Replayed>, i: nat)
    requires Replayable(index0, log) && i < |log|
    ensures |log[i].record.key| <= MAX_KEY_SIZE && log[i].pos < NodeStore.CHILD_TAG
    ensures forall key :: key in Play(index0, log[..i]) ==> Play(index0, log[..i])[key] != log[i].pos
  {
    hide Play;
    PlayedKnown(index0, log[..i]);
    assert log[i] in log;
    forall key | key in Play(index0, log[..i]) ensures Play(index0, log[..i])[key] != log[i].pos {
      var p := Play(index0, log[..i])[key];
      assert Known(p, index0, log[..i]);
      if !exists a :: a in index0 && index0[a] == p {
        var j :| 0 <= j < |log[..i]| && log[..i][j].pos == p;
        assert log[j].pos < log[i].pos;
      }
    }
  }

  // ------------------------------------------------------------------- iterating

  /** The iteration over the paged index: the keys of the map in order, each with its position. */
  method ListIndexed(ix: Index, index: Positions) returns (out: seq<IterItem>)
    requires Implements(ix, index)
    ensures ListsAll(out, index)
  {
    hide *;
    ImplementsMeans(ix, index);
    var k := KeysOf(index);
    var keep := (key: Key, pos: Position) => true;
    out := ix.Ascend(k, keep);
    AllVisited(ix, index, out, keep);
  }

  lemma ImplementsMeans(ix: Index, index: Positions)
    requires Implements(ix, index)
    ensures Injective(index) && ix.Valid(KeysOf(index)) && ix.Map(KeysOf(index)) == index
  {
    hide KeysOf;
  }

  /** The positions of the map in the order of their keys. */
  ghost predicate ListsAll(out: seq<IterItem>, index: Positions) {
    && (forall i, j :: 0 <= i < j < |out| ==> Less(out[i].key, out[j].key))
    && forall key: Key, pos: Position :: IterItem(key, pos) in out <==> key in index && index[key] == pos
  }

  lemma AllVisited(ix: Index, index: Positions, out: seq<IterItem>, keep: (Key, Position) -> bool)
    requires Injective(index) && ix.Valid(KeysOf(index)) && ix.Map(KeysOf(index)) == index
    requires Ranges.Known(Order(ix.tree), KeysOf(index))
    requires Visits(out, Select(Order(ix.tree), KeysOf(index), Bounds(None, true, None, false)), keep)
    requires forall key: Key, pos: Position :: keep(key, pos)
    ensures ListsAll(out, index)
  {
    hide KeysOf, Select, Less, Ranges.Known;
    var k := KeysOf(index);
    ix.ValidMeans(k);
    RangeOfMap(ix.tree, k, Bounds(None, true, None, false));
  }

  /** What the store collects for a checkpoint are exactly the keys this iteration visits. */
  lemma ListIsCollected(out: seq<IterItem>, index: Positions, items: seq<Item>)
    requires ListsAll(out, index) && InKeyOrder(items) && SnapshotValues(items).Keys == index.Keys
    ensures |out| == |items| && forall i :: 0 <= i < |items| ==> out[i].key == items[i].key
  {
    hide *;
    ListedAre(out, index);
    ItemsAre(items, index);
    SortedSame(ListedKeys(out), ItemKeys(items), index.Keys);
    SameKeys(out, items);
  }

  lemma SameKeys(out: seq<IterItem>, items: seq<Item>)
    requires ListedKeys(out) == ItemKeys(items)
    ensures |out| == |items| && forall i :: 0 <= i < |items| ==> out[i].key == items[i].key
  {
    forall i | 0 <= i < |items| ensures out[i].key == items[i].key {
      assert ListedKeys(out)[i] == ItemKeys(items)[i];
    }
  }

  ghost predicate Rises(a: seq<Key>) {
    forall i, j :: 0 <= i < j < |a| ==> Less(a[i], a[j])
  }

  ghost predicate HasKeys(a: seq<Key>, keys: set<Key>) {
    forall key: Key :: key in a <==> key in keys
  }

  lemma ListedAre(out: seq<IterItem>, index: Positions)
    requires ListsAll(out, index)
    ensures Rises(ListedKeys(out)) && HasKeys(ListedKeys(out), index.Keys)
  {
    hide Less;
    var a := ListedKeys(out);
    forall key: Key ensures key in a <==> key in index {
      if key in index {
        assert IterItem(key, index[key]) in out;
        var i :| 0 <= i < |out| && out[i] == IterItem(key, index[key]);
        assert a[i] == key;
      }
      if i :| 0 <= i < |out| && a[i] == key {
        assert out[i] == IterItem(key, out[i].pos) && out[i] in out;
      }
    }
  }

  lemma ItemsAre(items: seq<Item>, index: Positions)
    requires InKeyOrder(items) && SnapshotValues(items).Keys == index.Keys
    ensures Rises(ItemKeys(items)) && HasKeys(ItemKeys(items), index.Keys)
  {
    hide Less;
    forall key: Key ensures key in ItemKeys(items) <==> key in index {
      KeysOfItems(items, key);
    }
  }

  ghost function ListedKeys(out: seq<IterItem>): (s: seq<Key>)
    ensures |s| == |out| && forall i :: 0 <= i < |s| ==> s[i] == out[i].key
  {
    seq(|out|, i requires 0 <= i < |out| => out[i].key)
  }

  ghost function ItemKeys(items: seq<Item>): (s: seq<Key>)
    ensures |s| == |items| && forall i :: 0 <= i < |s| ==> s[i] == items[i].key
  {
    seq(|items|, i requires 0 <= i < |items| => items[i].key)
  }

  lemma {:induction false} KeysOfItems(items: seq<Item>, key: Key)
    ensures key in SnapshotValues(items) <==> key in ItemKeys(items)
    decreases |items|
  {
    if items != [] {
      var n := |items| - 1;
      KeysOfItems(items[..n], key);
      assert ItemKeys(items) == ItemKeys(items[..n]) + [items[n].key];
    }
  }

  /** Two sorted lists of the same keys are the same list. */
  lemma {:induction false} SortedSame(a: seq<Key>, b: seq<Key>, keys: set<Key>)
    requires Rises(a) && Rises(b) && HasKeys(a, keys) && HasKeys(b, keys)
    ensures a == b
    decreases |a|
  {
    hide *;
    SameEmpty(a, b, keys);
    if a != [] {
      SameFirst(a, b, keys);
      WithoutFirst(a, keys);
      WithoutFirst(b, keys);
      SortedSame(a[1..], b[1..], keys - {a[0]});
      assert a == [a[0]] + a[1..] && b == [b[0]] + b[1..];
    }
  }

  lemma SameEmpty(a: seq<Key>, b: seq<Key>, keys: set<Key>)
    requires HasKeys(a, keys) && HasKeys(b, keys)
    ensures a == [] <==> b == []
  {
    assert a != [] ==> a[0] in a;
    assert b != [] ==> b[0] in b;
  }

  lemma SameFirst(a: seq<Key>, b: seq<Key>, keys: set<Key>)
    requires Rises(a) && Rises(b) && HasKeys(a, keys) && HasKeys(b, keys) && a != [] && b != []
    ensures a[0] == b[0]
  {
    hide Less;
    assert a[0] in a && b[0] in b;
    var i :| 0 <= i < |b| && b[i] == a[0];
    var j :| 0 <= j < |a| && a[j] == b[0];
    LessTotal(a[0], b[0]);
  }

  lemma WithoutFirst(a: seq<Key>, keys: set<Key>)
    requires Rises(a) && HasKeys(a, keys) && a != []
    ensures Rises(a[1..]) && HasKeys(a[1..], keys - {a[0]})
  {
    hide Less;
    forall key: Key ensures key in a[1..] <==> key in keys && key != a[0] {
      if key in keys && key != a[0] {
        assert key in a;
        var i :| 0 <= i < |a| && a[i] == key;
        assert a[1..][i - 1] == key;
      }
      if i :| 0 <= i < |a[1..]| && a[1..][i] == key {
        assert a[i + 1] in a && Less(a[0], a[i + 1]);
        LessTotal(a[0], a[i + 1]);
      }
    }
  }
}
