/** The index (class Index of index.h): a sorted map from keys to record positions that
    stores no keys. The record store is a map from positions to keys. */
module IndexModule {
  import opened Wrappers
  import opened Keys
  import opened Patricia
  import opened NodePages
  import opened NodeStore
  import opened Paging
  import opened PageBuilder
  import opened Boundary
  import opened Search
  import opened Growth
  import opened Insertion
  import opened Shrinking
  import opened Deletion
  import opened Replacement
  import opened Accounting
  import opened Ranges
  import opened Iteration

  datatype ProbeResult = ProbeResult(pos: Position, found: bool)
  datatype PutResult = PutResult(oldPos: Position, replaced: bool)
  datatype DeleteResult = DeleteResult(pos: Position, deleted: bool)

  /** The sorted map an index stands for. */
  ghost function MapOf(tree: Option<Tree>, k: Records): map<Key, Position> {
    match tree
    case None => map[]
    case Some(w) => Contents(w, k)
  }

  /** Every stored key has one record, listed in key order. */
  lemma OrderSorted(tree: Option<Tree>, k: Records)
    requires Usable(tree, k)
    ensures SortedKeys(Order(tree), k) && |Order(tree)| == |MapOf(tree, k)|
    ensures forall p :: p in Order(tree) <==> p in k && k[p] in MapOf(tree, k) && MapOf(tree, k)[k[p]] == p
  {
    if tree.Some? {
      FlatSorted(tree.value, k);
      FlatIsAll(tree.value);
      ContentsSize(tree.value, k);
      ContentsAre(tree.value, k);
    }
  }

  /** What the iterations list is the part of the map within the bounds, in key order. */
  lemma RangeOfMap(tree: Option<Tree>, k: Records, b: Bounds)
    requires Usable(tree, k)
    ensures Known(Order(tree), k)
    ensures forall key, pos :: IterItem(key, pos) in Select(Order(tree), k, b) <==>
      key in MapOf(tree, k) && MapOf(tree, k)[key] == pos && Inside(key, b)
    ensures var items := Select(Order(tree), k, b);
      forall i, j :: 0 <= i < j < |items| ==> Less(items[i].key, items[j].key)
  {
    hide Inside, Less;
    OrderSorted(tree, k);
    SelectOrdered(Order(tree), k, b);
    if tree.Some? {
      ContentsAre(tree.value, k);
      FlatIsAll(tree.value);
    }
  }

  // ------------------------------------------------------ steps of the contents

  lemma SearchEnds(w: Tree, k: Records, key: Key)
    requires Readable(w, k)
    ensures Best(w, key) in k && |k[Best(w, key)]| <= MAX_KEY_SIZE && Best(w, key) in All(w)
    ensures key in Contents(w, k) <==> k[Best(w, key)] == key
    ensures key in Contents(w, k) ==> Contents(w, k)[key] == Best(w, key)
  {
    BestExact(w, k, key);
  }

  /** A record delivered to the tree enters the map. */
  lemma PutContents(w: Tree, w2: Tree, k: Records, key: Key, diff: nat, pos: Position)
    requires Enters(w, k, key, diff, pos) && Delivers(w, w2, key, diff, pos)
    ensures Readable(w2, k) && Contents(w2, k) == Contents(w, k)[key := pos] && key !in Contents(w, k)
  {
    var t := Insert(w, key, diff, pos);
    FreshAbsent(w, k, key, diff, pos);
    InsertContents(w, k, key, diff, pos);
    EnteredReadable(w, k, key, diff, pos);
    ReadableErase(w2, t, k);
    EraseKeeps(w2, k);
    EraseKeeps(t, k);
  }

  lemma EntersIs(w: Tree, k: Records, key: Key, diff: nat, pos: Position)
    requires Readable(w, k) && pos in k && k[pos] == key && |key| <= MAX_KEY_SIZE
    requires Best(w, key) in k && FirstDiff(key, k[Best(w, key)], diff)
    ensures Enters(w, k, key, diff, pos)
    ensures Less(key, k[Best(w, key)]) <==> !Bit(key, diff)
  {
    FirstDiffUnique(key, k[Best(w, key)], diff);
    DiffIsFirst(key, k[Best(w, key)]);
  }

  lemma ReplacedContents(w: Tree, k: Records, key: Key, pos: Position)
    requires Readable(w, k) && Best(w, key) in k && pos in k && k[pos] == k[Best(w, key)]
    ensures Readable(Replace(w, key, pos), k)
    ensures Contents(Replace(w, key, pos), k) == Contents(w, k)[k[pos] := pos]
  {
    SamePath(w, k, key, pos);
    ReplaceValid(w, k, k[pos], pos);
    ReplaceAll(w, key, pos);
    RetargetExact(w, k, key, pos);
  }

  lemma FirstRecord(k: Records, key: Key, pos: Position)
    requires pos in k && k[pos] == key && |key| <= MAX_KEY_SIZE
    ensures var w := Sub(0, Rec(pos));
      && Readable(w, k) && Contents(w, k) == map[key := pos] && WellPaged(w)
      && Views(w) == map[0 := PageOf(Rec(pos))]
  {
  }

  /** The deletion below the root, and the map without the key. */
  lemma DeleteFromRoot(view: map<nat, PageView>, w: Tree, k: Records, key: Key, w2: Tree)
    requires w.Sub? && w.id == 0 && Readable(w, k) && Holds(w, k, key) && Deleted(view, map[], w, key, w2)
    ensures key in Contents(w, k)
    ensures Delete(w, key).None? ==> Contents(w, k) - {key} == map[] && view == map[0 := EMPTY_PAGE]
    ensures Delete(w, key).Some? ==>
      w2.Sub? && w2.id == 0 && WellPaged(w2) && view == Views(w2)
      && Readable(w2, k) && Contents(w2, k) == Contents(w, k) - {key}
  {
    SearchEnds(w, k, key);
    DeleteContents(w, k, key);
    DeleteValid(w, k, key);
    DeleteAll(w, key);
    if Delete(w, key).Some? {
      var t := Delete(w, key).value;
      ReadableErase(w2, t, k);
      EraseKeeps(w2, k);
      EraseKeeps(t, k);
      assert map[] + Views(w2) == Views(w2);
    }
  }

  lemma SomeContents(tree: Option<Tree>, k: Records)
    requires Usable(tree, k)
    ensures tree.None? ==> MapOf(tree, k) == map[]
    ensures tree.Some? ==> MapOf(tree, k) == Contents(tree.value, k) && Readable(tree.value, k)
    ensures tree.Some? ==> MapOf(tree, k) != map[]
  {
    if tree.Some? {
      ContentsAre(tree.value, k);
      assert First(tree.value) in All(tree.value);
    }
  }

  lemma ReadableMeans(w: Tree, k: Records)
    requires Readable(w, k)
    ensures Valid(w, k)
  {
  }

  lemma SameTree(tree: Option<Tree>, tree2: Option<Tree>, k: Records)
    requires Usable(tree, k) && (tree.None? <==> tree2.None?)
    requires tree.Some? ==> Erase(tree2.value) == Erase(tree.value)
    ensures Usable(tree2, k) && MapOf(tree2, k) == MapOf(tree, k)
  {
    if tree.Some? {
      ReadableErase(tree2.value, tree.value, k);
      EraseKeeps(tree.value, k);
      EraseKeeps(tree2.value, k);
    }
  }

  lemma PutFirst(k: Records, key: Key, pos: Position, child: nat)
    ensures PutPages(None, k, key, pos, child, Some(Sub(0, Rec(pos))))
  {
  }

  lemma PutReplaces(w: Tree, k: Records, key: Key, pos: Position, child: nat)
    requires w.Sub? && Best(w, key) in k && k[Best(w, key)] == key
    ensures PutPages(Some(w), k, key, pos, child, Some(Replace(w, key, pos)))
  {
  }

  lemma PutEnters(w: Tree, k: Records, key: Key, diff: nat, pos: Position, child: nat, w2: Tree)
    requires w.Sub? && Enters(w, k, key, diff, pos) && key != k[Best(w, key)]
    requires Enlarged(w, PathTo(w, key, diff), key, diff, pos, child, w2)
    ensures PutPages(Some(w), k, key, pos, child, Some(w2))
  {
    hide Enlarged, PathTo, FirstDiff;
  }

  lemma DeletedPagesAre(w: Tree, key: Key, w1: Tree, tree1: Option<Tree>, tree2: Option<Tree>)
    requires Deletion.Shrunk(w, key, w1) && tree1 == if Patricia.Delete(w, key).None? then None else Some(w1)
    requires tree1.None? <==> tree2.None?
    requires tree1.Some? ==> tree1.value.Sub? && tree2.value == Compressed(tree1.value)
    ensures w.Sub? && tree2 == DeletePages(w, key)
  {
  }

  lemma CheckKeySizeIs(key: Key)
    ensures CheckKeySize(key) <==> |key| <= MAX_KEY_SIZE
  {
  }

  lemma BestStored(w: Tree, k: Records, key: Key)
    requires Readable(w, k)
    ensures Best(w, key) in k && k[Best(w, key)] in Contents(w, k) && Contents(w, k)[k[Best(w, key)]] == Best(w, key)
  {
    ContentsAre(w, k);
  }

  lemma WithinSelf(v: map<nat, PageView>)
    ensures Within(v, v)
  {
  }

  lemma OrderOf(tree: Option<Tree>)
    ensures tree.None? ==> Order(tree) == []
    ensures tree.Some? ==> Order(tree) == Flat(tree.value)
  {
  }

  lemma HoldsIs(w: Tree, k: Records, key: Key)
    ensures Holds(w, k, key) <==> Best(w, key) in k && k[Best(w, key)] == key
  {
  }

  lemma DeliversMeans(w: Tree, w2: Tree, key: Key, diff: nat, pos: Position)
    requires Delivers(w, w2, key, diff, pos)
    ensures w2.Sub? && w2.id == w.id && WellPaged(w2)
  {
  }

  lemma AtTargetIs(w: Tree, frames: seq<PutFrame>, key: Key, diff: nat, target: nat, view: map<nat, PageView>)
    requires w.Sub? && WellPaged(w) && view == Views(w)
    requires Reached(w, frames, key) && Target(w, frames, key, diff, target)
    ensures AtTarget(w, frames, key, diff, target, view) && target < |frames|
  {
  }

  lemma OneFewer<X, Y>(m: map<X, Y>, x: X)
    requires x in m
    ensures |m - {x}| == |m| - 1
  {
    assert (m - {x}).Keys == m.Keys - {x};
  }

  lemma OneMore<X, Y>(m: map<X, Y>, x: X, y: Y)
    ensures |m[x := y]| == |m| + if x in m then 0 else 1
  {
    assert m[x := y].Keys == m.Keys + {x};
  }

  lemma StoredRoot(w: Tree)
    requires w.Sub? && w.id == 0 && WellPaged(w)
    ensures Stored(Views(w), map[], w) && UnderRoot(map[], w)
  {
    assert map[] + Views(w) == Views(w);
  }

  method CountStored(nodes: HeapNodeStore, ghost tree: Option<Tree>, ghost k: Records) returns (n: nat)
    requires nodes.Valid() && Paged(nodes.View(), tree) && Usable(tree, k)
    ensures n == |MapOf(tree, k)|
  {
    hide *;
    OrderSorted(tree, k);
    OrderOf(tree);
    PagedRoot(nodes.View(), tree);
    var root := nodes.Get(0);
    if root.size == 0 {
      return 0;
    }
    WithinSelf(nodes.View());
    n := CountRecords(nodes, 0, tree.value);
  }

  class Index {
    const nodes: HeapNodeStore
    var count: nat
    ghost var tree: Option<Tree>

    ghost predicate Valid(k: Records)
      reads this, nodes, nodes.Repr
    {
      && this !in nodes.Repr && nodes.Valid() && Paged(nodes.View(), tree)
      && Usable(tree, k) && count == |MapOf(tree, k)|
    }

    lemma ValidMeans(k: Records)
      requires Valid(k)
      ensures this !in nodes.Repr && nodes.Valid() && Paged(nodes.View(), tree)
      ensures Usable(tree, k) && Map(k) == MapOf(tree, k) && count == |Map(k)|
    {
    }

    lemma IsValid(k: Records)
      requires this !in nodes.Repr && nodes.Valid() && Paged(nodes.View(), tree)
      requires Usable(tree, k) && count == |MapOf(tree, k)|
      ensures Valid(k) && Map(k) == MapOf(tree, k)
    {
    }

    /** The sorted map. */
    ghost function Map(k: Records): map<Key, Position>
      reads this
    {
      MapOf(tree, k)
    }

    /** NewWithNodes over an empty store: the empty index. */
    constructor ()
      ensures Valid(map[]) && fresh(nodes) && fresh(nodes.Repr) && tree == None
    {
      nodes := new HeapNodeStore();
      count := 0;
      tree := None;
    }

    /** OpenWithNodes: over the pages of a tree, the records are counted. */
    constructor Open(store: HeapNodeStore, ghost t: Option<Tree>, ghost k: Records)
      requires store.Valid() && Paged(store.View(), t) && Usable(t, k)
      ensures nodes == store && tree == t && Valid(k)
    {
      var n := CountStored(store, t, k);
      nodes := store;
      count := n;
      tree := t;
    }

    /** Len is the size of the map. */
    method Len(ghost k: Records) returns (n: nat)
      requires Valid(k)
      ensures n == |Map(k)|
    {
      n := count;
    }

    /** LiveNodes is the number of pages of the tree; every page but the root is held by
        exactly one slot of one page. */
    method LiveNodes(ghost k: Records) returns (n: nat)
      requires Valid(k)
      ensures n == |nodes.View()|
      ensures n == if tree.None? then 1 else PageCount(tree.value)
      ensures tree.Some? ==> Owned(tree.value) && nodes.View() == Views(tree.value)
    {
      hide *;
      ValidMeans(k);
      nodes.LiveCount();
      PagedRoot(nodes.View(), tree);
      if tree.Some? {
        ViewsSize(tree.value);
        PagesOwned(tree.value);
      } else {
        assert |map[0 := EMPTY_PAGE]| == 1;
      }
      n := nodes.live;
    }

    /** Records the index does not refer to may come, go and change. */
    lemma RecordsMayChange(k: Records, k2: Records)
      requires Valid(k)
      requires forall p :: p in Order(tree) ==> p in k2 && p in k && k2[p] == k[p]
      ensures Valid(k2) && Map(k2) == Map(k)
    {
      if tree.Some? {
        FlatIsAll(tree.value);
        RecordsMayGrow(tree.value, k, k2);
      }
    }

    /** Get and Probe share the walk to the record that the bits of key lead to. */
    method Probe(key: Key, k: Records) returns (r: Result<ProbeResult>)
      requires Valid(k)
      ensures r.Err? <==> |key| > MAX_KEY_SIZE
      ensures r.Err? ==> r == Err(KeyTooLarge)
      ensures r.Ok? ==> (r.value.found <==> Map(k) != map[])
      ensures r.Ok? ==> r.value.pos == if tree.Some? then Best(tree.value, key) else 0
      ensures r.Ok? && !r.value.found ==> r.value.pos == 0
      ensures r.Ok? && key in Map(k) ==> r.value == ProbeResult(Map(k)[key], true)
      ensures r.Ok? && r.value.found ==> r.value.pos in k && k[r.value.pos] in Map(k)
      ensures r.Ok? && r.value.found ==> (key in Map(k) <==> k[r.value.pos] == key)
    {
      if !CheckKeySize(key) {
        return Err(KeyTooLarge);
      }
      hide *;
      ValidMeans(k);
      PagedRoot(nodes.View(), tree);
      SomeContents(tree, k);
      var root := nodes.Get(0);
      if root.size == 0 {
        return Ok(ProbeResult(0, false));
      }
      SearchEnds(tree.value, k, key);
      ContentsAre(tree.value, k) by { ReadableMeans(tree.value, k); }
      var frames, pos := Walk(nodes, key, tree.value);
      return Ok(ProbeResult(pos, true));
    }

    /** Get is the lookup of the map, whatever the key. */
    method Get(key: Key, k: Records) returns (r: Result<ProbeResult>)
      requires Valid(k)
      ensures r.Err? <==> |key| > MAX_KEY_SIZE
      ensures r.Err? ==> r == Err(KeyTooLarge)
      ensures r.Ok? ==> r.value == if key in Map(k) then ProbeResult(Map(k)[key], true) else ProbeResult(0, false)
    {
      r := Probe(key, k);
      if r.Err? || !r.value.found {
        return r;
      }
      if CompareKeys(k[r.value.pos], key) != 0 {
        return Ok(ProbeResult(0, false));
      }
    }

    /** Put binds the key, new or not, and touches no other key. It fails for an oversized
        key, a position that does not fit, or when page ids run out; then nothing changes. */
    method Put(key: Key, pos: Position, k: Records) returns (r: Result<PutResult>)
      requires Valid(k)
      requires CheckKeySize(key) && pos < CHILD_TAG ==> pos in k && k[pos] == key
      modifies this, nodes, nodes.Repr
      ensures Valid(k) && fresh(nodes.Repr - old(nodes.Repr))
      ensures r == Err(KeyTooLarge) <==> |key| > MAX_KEY_SIZE
      ensures r.Err? && |key| <= MAX_KEY_SIZE ==>
        r == Err(PositionTag) && (pos >= CHILD_TAG || |nodes.nodes| >= CHILD_TAG)
      ensures pos >= CHILD_TAG ==> r.Err?
      ensures r.Err? ==> tree == old(tree) && nodes.View() == old(nodes.View())
      ensures r.Ok? ==> Map(k) == old(Map(k))[key := pos]
      ensures r.Ok? ==> PutPages(old(tree), k, key, pos, old(nodes.NextId()), tree)
      ensures r.Ok? ==> r.value == if key in old(Map(k)) then PutResult(old(Map(k))[key], true) else PutResult(0, false)
    {
      hide *;
      CheckKeySizeIs(key);
      if !CheckKeySize(key) {
        return Err(KeyTooLarge);
      }
      if pos >= CHILD_TAG {
        return Err(PositionTag);
      }
      ValidMeans(k);
      SomeContents(tree, k);
      OneMore(Map(k), key, pos);
      r := InsertOrReplace(key, pos, k);
      MapIs(k);
      if r.Ok? && !r.value.replaced {
        count := count + 1;
      }
      MapIs(k);
      IsValid(k);
    }

    lemma MapIs(k: Records)
      ensures Map(k) == MapOf(tree, k)
    {
    }

    lemma SetTree(k: Records)
      requires tree.Some? ==> Readable(tree.value, k)
      ensures Usable(tree, k)
      ensures tree.None? ==> Map(k) == map[]
      ensures tree.Some? ==> Map(k) == Contents(tree.value, k)
    {
    }

    /** InsertOrReplace: everything but the record count. */
    method InsertOrReplace(key: Key, pos: Position, k: Records) returns (r: Result<PutResult>)
      requires Valid(k) && |key| <= MAX_KEY_SIZE && pos in k && k[pos] == key
      modifies this`tree, nodes, nodes.Repr
      ensures this !in nodes.Repr && nodes.Valid() && fresh(nodes.Repr - old(nodes.Repr))
      ensures Paged(nodes.View(), tree) && Usable(tree, k)
      ensures r.Err? ==> r == Err(PositionTag) && |nodes.nodes| >= CHILD_TAG
      ensures r.Err? ==> tree == old(tree) && nodes.View() == old(nodes.View())
      ensures r.Ok? ==> Map(k) == old(Map(k))[key := pos]
      ensures r.Ok? ==> PutPages(old(tree), k, key, pos, old(nodes.NextId()), tree)
      ensures r.Ok? ==> r.value == if key in old(Map(k)) then PutResult(old(Map(k))[key], true) else PutResult(0, false)
    {
      hide *;
      ValidMeans(k);
      PagedRoot(nodes.View(), tree);
      SomeContents(tree, k);
      var root := nodes.Get(0);
      if root.size == 0 {
        FirstRecord(k, key, pos);
        nodes.InsertRecordIn(0, 0, pos, key, 0, Rec(pos));
        tree := Some(Sub(0, Rec(pos)));
        PagedIs(nodes.View(), Sub(0, Rec(pos)));
        PutFirst(k, key, pos, old(nodes.NextId()));
        SetTree(k);
        return Ok(PutResult(0, false));
      }
      ghost var w := tree.value;
      SearchEnds(w, k, key);
      var frames, oldPos := Walk(nodes, key, w);
      var cmp := CompareKeys(key, k[oldPos]);
      if cmp == 0 {
        ReplacedContents(w, k, key, pos);
        ReplaceAtPath(nodes, frames, pos, key, w);
        tree := Some(Replace(w, key, pos));
        PagedIs(nodes.View(), Replace(w, key, pos));
        PutReplaces(w, k, key, pos, old(nodes.NextId()));
        SetTree(k);
        return Ok(PutResult(oldPos, true));
      }
      var diff := CompareAndDiffBit(key, k[oldPos]);
      EntersIs(w, k, key, diff.value.diff, pos);
      var target, slot := InsertSlotFromPath(nodes, frames, key, cmp, diff.value.diff, w);
      AtTargetIs(w, frames, key, diff.value.diff, target, nodes.View());
      var ok; ghost var w2;
      ok, w2 := InsertAtPath(nodes, k, frames, target, slot, pos, key, diff.value.diff, w);
      if !ok {
        PagedIs(nodes.View(), w);
        return Err(PositionTag);
      }
      TargetPath(w, frames, key, diff.value.diff, target, target);
      PutEnters(w, k, key, diff.value.diff, pos, old(nodes.NextId()), w2);
      PutContents(w, w2, k, key, diff.value.diff, pos);
      DeliversMeans(w, w2, key, diff.value.diff, pos);
      tree := Some(w2);
      PagedIs(nodes.View(), w2);
      SetTree(k);
      return Ok(PutResult(0, false));
    }

    /** Delete removes the key, if it is stored, and touches no other key. */
    method Delete(key: Key, k: Records) returns (r: Result<DeleteResult>)
      requires Valid(k)
      modifies this, nodes, nodes.Repr
      ensures Valid(k) && nodes.Repr == old(nodes.Repr)
      ensures r.Err? <==> |key| > MAX_KEY_SIZE
      ensures r.Err? ==> r == Err(KeyTooLarge)
      ensures r.Err? || key !in old(Map(k)) ==> tree == old(tree) && nodes.View() == old(nodes.View())
      ensures r.Ok? ==> Map(k) == old(Map(k)) - {key}
      ensures r.Ok? && key in old(Map(k)) ==>
        old(tree).Some? && old(tree).value.Sub? && tree == DeletePages(old(tree).value, key)
      ensures r.Ok? ==>
        r.value == if key in old(Map(k)) then DeleteResult(old(Map(k))[key], true) else DeleteResult(0, false)
    {
      if !CheckKeySize(key) {
        return Err(KeyTooLarge);
      }
      hide *;
      ValidMeans(k);
      PagedRoot(nodes.View(), tree);
      SomeContents(tree, k);
      var root := nodes.Get(0);
      if root.size == 0 {
        return Ok(DeleteResult(0, false));
      }
      r := DeleteStored(key, k);
    }

    /** Delete on an index that holds records. */
    method DeleteStored(key: Key, k: Records) returns (r: Result<DeleteResult>)
      requires Valid(k) && tree.Some? && |key| <= MAX_KEY_SIZE
      modifies this, nodes, nodes.Repr
      ensures Valid(k) && nodes.Repr == old(nodes.Repr)
      ensures key !in old(Map(k)) ==> tree == old(tree) && nodes.View() == old(nodes.View())
      ensures Map(k) == old(Map(k)) - {key}
      ensures key in old(Map(k)) ==> old(tree).value.Sub? && tree == DeletePages(old(tree).value, key)
      ensures r == Ok(if key in old(Map(k)) then DeleteResult(old(Map(k))[key], true) else DeleteResult(0, false))
    {
      hide *;
      ValidMeans(k);
      PagedRoot(nodes.View(), tree);
      SomeContents(tree, k);
      ghost var w := tree.value;
      SearchEnds(w, k, key);
      StoredRoot(w);
      var deleted, pos; ghost var w1;
      deleted, pos, w1 := DeleteFrom(nodes, k, 0, key, w, map[]);
      HoldsIs(w, k, key);
      if !deleted {
        PagedIs(nodes.View(), w);
        IsValid(k);
        return Ok(DeleteResult(0, false));
      }
      ghost var m := Map(k);
      OneFewer(m, key);
      count := count - 1;
      DeleteFromRoot(nodes.View(), w, k, key, w1);
      if Patricia.Delete(w, key).None? {
        tree := None;
        PagedNone(nodes.View());
      } else {
        tree := Some(w1);
        PagedIs(nodes.View(), w1);
      }
      SetTree(k);
      SomeContents(tree, k);
      ghost var tree1 := tree;
      tree := CompressRoot(nodes, tree1);
      SameTree(tree1, tree, k);
      DeletedPagesAre(w, key, w1, tree1, tree);
      IsValid(k);
      return Ok(DeleteResult(pos, true));
    }

    /** Retarget moves a record to a new position. It looks only at the position stored where the
        bits of key lead: it succeeds just when that is oldPos, and then the tree has the new
        position in its place. Only a position that carries the same key keeps the index valid,
        and then the map is rebound at exactly this key. */
    method Retarget(key: Key, oldPos: Position, newPos: Position, k: Records) returns (r: Result<()>)
      requires Valid(k)
      modifies this, nodes.Repr
      ensures nodes.Valid() && nodes.Repr == old(nodes.Repr) && Paged(nodes.View(), tree)
      ensures r == Err(KeyTooLarge) <==> |key| > MAX_KEY_SIZE
      ensures r == Err(PositionTag) <==> |key| <= MAX_KEY_SIZE && newPos >= CHILD_TAG
      ensures r.Err? ==> r.error in {KeyTooLarge, PositionTag, PositionMismatch}
      ensures r.Err? ==> Valid(k) && tree == old(tree) && nodes.View() == old(nodes.View())
      ensures |key| <= MAX_KEY_SIZE && newPos < CHILD_TAG ==>
        (r.Ok? <==> old(tree).Some? && Best(old(tree).value, key) == oldPos)
      ensures |key| <= MAX_KEY_SIZE && newPos < CHILD_TAG && key in old(Map(k)) ==>
        (r.Ok? <==> old(Map(k))[key] == oldPos)
      ensures r.Ok? ==> tree == Some(Replace(old(tree).value, key, newPos))
      ensures r.Ok? ==> oldPos in k && k[oldPos] in old(Map(k)) && old(Map(k))[k[oldPos]] == oldPos
      ensures r.Ok? && newPos in k && k[newPos] == k[oldPos] ==>
        Valid(k) && Map(k) == old(Map(k))[k[oldPos] := newPos]
    {
      hide *;
      CheckKeySizeIs(key);
      ValidMeans(k);
      if !CheckKeySize(key) {
        return Err(KeyTooLarge);
      }
      if newPos >= CHILD_TAG {
        return Err(PositionTag);
      }
      PagedRoot(nodes.View(), tree);
      SomeContents(tree, k);
      var root := nodes.Get(0);
      if root.size == 0 {
        return Err(PositionMismatch);
      }
      ghost var w := tree.value;
      SearchEnds(w, k, key);
      BestStored(w, k, key);
      var frames, pos := Walk(nodes, key, w);
      if pos != oldPos {
        IsValid(k);
        return Err(PositionMismatch);
      }
      ReplaceAtPath(nodes, frames, newPos, key, w);
      tree := Some(Replace(w, key, newPos));
      PagedIs(nodes.View(), Replace(w, key, newPos));
      if newPos in k && k[newPos] == k[oldPos] {
        ReplacedContents(w, k, key, newPos);
        OneMore(MapOf(Some(w), k), k[newPos], newPos);
        SetTree(k);
        SomeContents(tree, k);
        SomeContents(Some(w), k);
        MapIs(k);
        IsValid(k);
      }
      return Ok(());
    }

    // -------------------------------------------------------------- iterating

    /** Each iteration calls keep for the items of its range in turn and ends early when
        keep says no. The result lists the calls. */
    method Ascend(k: Records, keep: (Key, Position) -> bool) returns (out: seq<IterItem>)
      requires Valid(k)
      ensures Known(Order(tree), k) && Visits(out, Select(Order(tree), k, Bounds(None, true, None, false)), keep)
    {
      out := AscendWithin(nodes, k, None, None, keep, tree);
    }

    method AscendRange(greaterOrEqual: Key, lessThan: Key, k: Records, keep: (Key, Position) -> bool)
      returns (r: Result<seq<IterItem>>)
      requires Valid(k)
      ensures r.Err? <==> |greaterOrEqual| > MAX_KEY_SIZE || |lessThan| > MAX_KEY_SIZE
      ensures r.Err? ==> r == Err(KeyTooLarge)
      ensures r.Ok? ==> Known(Order(tree), k)
      ensures r.Ok? ==>
        Visits(r.value, Select(Order(tree), k, Bounds(Some(greaterOrEqual), true, Some(lessThan), false)), keep)
    {
      if !CheckKeySize(greaterOrEqual) || !CheckKeySize(lessThan) {
        return Err(KeyTooLarge);
      }
      var out := AscendWithin(nodes, k, Some(greaterOrEqual), Some(lessThan), keep, tree);
      return Ok(out);
    }

    method AscendLessThan(pivot: Key, k: Records, keep: (Key, Position) -> bool) returns (r: Result<seq<IterItem>>)
      requires Valid(k)
      ensures r.Err? <==> |pivot| > MAX_KEY_SIZE
      ensures r.Err? ==> r == Err(KeyTooLarge)
      ensures r.Ok? ==> Known(Order(tree), k)
      ensures r.Ok? ==> Visits(r.value, Select(Order(tree), k, Bounds(None, true, Some(pivot), false)), keep)
    {
      if !CheckKeySize(pivot) {
        return Err(KeyTooLarge);
      }
      var out := AscendWithin(nodes, k, None, Some(pivot), keep, tree);
      return Ok(out);
    }

    method AscendGreaterOrEqual(pivot: Key, k: Records, keep: (Key, Position) -> bool)
      returns (r: Result<seq<IterItem>>)
      requires Valid(k)
      ensures r.Err? <==> |pivot| > MAX_KEY_SIZE
      ensures r.Err? ==> r == Err(KeyTooLarge)
      ensures r.Ok? ==> Known(Order(tree), k)
      ensures r.Ok? ==> Visits(r.value, Select(Order(tree), k, Bounds(Some(pivot), true, None, false)), keep)
    {
      if !CheckKeySize(pivot) {
        return Err(KeyTooLarge);
      }
      var out := AscendWithin(nodes, k, Some(pivot), None, keep, tree);
      return Ok(out);
    }

    method Descend(k: Records, keep: (Key, Position) -> bool) returns (out: seq<IterItem>)
      requires Valid(k)
      ensures Known(Order(tree), k)
      ensures Visits(out, Backwards(Select(Order(tree), k, Bounds(None, false, None, true))), keep)
    {
      out := DescendWithin(nodes, k, None, None, keep, tree);
    }

    method DescendRange(lessOrEqual: Key, greaterThan: Key, k: Records, keep: (Key, Position) -> bool)
      returns (r: Result<seq<IterItem>>)
      requires Valid(k)
      ensures r.Err? <==> |lessOrEqual| > MAX_KEY_SIZE || |greaterThan| > MAX_KEY_SIZE
      ensures r.Err? ==> r == Err(KeyTooLarge)
      ensures r.Ok? ==> Known(Order(tree), k)
      ensures r.Ok? ==>
        Visits(r.value, Backwards(Select(Order(tree), k, Bounds(Some(greaterThan), false, Some(lessOrEqual), true))),
               keep)
    {
      if !CheckKeySize(lessOrEqual) || !CheckKeySize(greaterThan) {
        return Err(KeyTooLarge);
      }
      var out := DescendWithin(nodes, k, Some(lessOrEqual), Some(greaterThan), keep, tree);
      return Ok(out);
    }

    method DescendLessOrEqual(pivot: Key, k: Records, keep: (Key, Position) -> bool) returns (r: Result<seq<IterItem>>)
      requires Valid(k)
      ensures r.Err? <==> |pivot| > MAX_KEY_SIZE
      ensures r.Err? ==> r == Err(KeyTooLarge)
      ensures r.Ok? ==> Known(Order(tree), k)
      ensures r.Ok? ==> Visits(r.value, Backwards(Select(Order(tree), k, Bounds(None, false, Some(pivot), true))), keep)
    {
      if !CheckKeySize(pivot) {
        return Err(KeyTooLarge);
      }
      var out := DescendWithin(nodes, k, Some(pivot), None, keep, tree);
      return Ok(out);
    }

    method DescendGreaterThan(pivot: Key, k: Records, keep: (Key, Position) -> bool) returns (r: Result<seq<IterItem>>)
      requires Valid(k)
      ensures r.Err? <==> |pivot| > MAX_KEY_SIZE
      ensures r.Err? ==> r == Err(KeyTooLarge)
      ensures r.Ok? ==> Known(Order(tree), k)
      ensures r.Ok? ==> Visits(r.value, Backwards(Select(Order(tree), k, Bounds(Some(pivot), false, None, true))), keep)
    {
      if !CheckKeySize(pivot) {
        return Err(KeyTooLarge);
      }
      var out := DescendWithin(nodes, k, None, Some(pivot), keep, tree);
      return Ok(out);
    }
  }
}
