/** The live items of a store in key order, as a checkpoint writes them, and the removal of
    what a checkpoint made obsolete. */
module LiveItems {
  import opened Keys
  import opened CheckpointFiles
  import opened Recovery
  import opened Disks
  import opened Sequences

  /** The first of the keys in key order. */
  method LeastKey(keys: set<Key>) returns (least: Key)
    requires keys != {}
    ensures least in keys && forall k :: k in keys ==> k == least || Less(least, k)
  {
    least :| least in keys;
    var rest := keys - {least};
    while rest != {}
      invariant least in keys && rest <= keys
      invariant forall k :: k in keys && k !in rest ==> k == least || Less(least, k)
      decreases |rest|
    {
      var key :| key in rest;
      if CompareKeys(key, least) < 0 {
        LessThanAll(keys - rest, least, key);
        least := key;
      } else {
        LessTotal(key, least);
      }
      rest := rest - {key};
    }
  }

  lemma LessThanAll(keys: set<Key>, least: Key, key: Key)
    requires Less(key, least) && forall k :: k in keys ==> k == least || Less(least, k)
    ensures forall k :: k in keys ==> Less(key, k)
  {
    hide Less;
    forall k | k in keys ensures Less(key, k) {
      if k != least {
        LessTransitive(key, least, k);
      }
    }
  }

  /** Keys rise from item to item. */
  ghost predicate InKeyOrder(items: seq<Item>) {
    forall i, j :: 0 <= i < j < |items| ==> Less(items[i].key, items[j].key)
  }

  /** The items of m whose keys are not left are listed in key order; those left come later. */
  ghost predicate Collected(m: Values, left: set<Key>, items: seq<Item>) {
    && left <= m.Keys && SnapshotValues(items) == m - left && |items| + |left| == |m|
    && InKeyOrder(items)
    && forall i, key :: 0 <= i < |items| && key in left ==> Less(items[i].key, key)
  }

  lemma CollectStart(m: Values)
    ensures Collected(m, m.Keys, [])
  {
    assert |m.Keys| == |m|;
  }

  lemma CollectNext(m: Values, left: set<Key>, items: seq<Item>, key: Key)
    requires Collected(m, left, items) && key in left
    requires forall k :: k in left ==> k == key || Less(key, k)
    ensures Collected(m, left - {key}, items + [Item(key, m[key])])
  {
    hide Less, SnapshotValues, InKeyOrder;
    SnapshotNext(items, Item(key, m[key]));
    OneLess(m, left, key);
    OrderNext(items, Item(key, m[key]));
  }

  lemma OneLess(m: Values, left: set<Key>, key: Key)
    requires key in left && left <= m.Keys
    ensures m - (left - {key}) == (m - left)[key := m[key]] && |left - {key}| == |left| - 1
  {
  }

  lemma OrderNext(items: seq<Item>, x: Item)
    requires InKeyOrder(items) && forall i :: 0 <= i < |items| ==> Less(items[i].key, x.key)
    ensures InKeyOrder(items + [x])
  {
    hide Less;
  }

  lemma SnapshotNext(items: seq<Item>, x: Item)
    ensures SnapshotValues(items + [x]) == SnapshotValues(items)[x.key := x.value]
  {
    assert (items + [x])[..|items|] == items;
  }

  lemma CollectDone(m: Values, items: seq<Item>)
    requires Collected(m, {}, items)
    ensures SnapshotValues(items) == m && |items| == |m| && InKeyOrder(items)
  {
  }

  lemma {:induction false} SnapshotKeys(items: seq<Item>, i: nat)
    requires i < |items|
    ensures items[i].key in SnapshotValues(items)
    ensures InKeyOrder(items) ==> SnapshotValues(items)[items[i].key] == items[i].value
    decreases |items|
  {
    var n := |items| - 1;
    if i < n {
      SnapshotKeys(items[..n], i);
      LessTotal(items[i].key, items[n].key);
    }
  }

  /** Items listed from small values are small. */
  lemma SmallStorable(items: seq<Item>)
    requires InKeyOrder(items)
    requires forall key :: key in SnapshotValues(items) ==>
      |key| <= MAX_KEY_SIZE && |SnapshotValues(items)[key]| < 0x1_0000_0000
    ensures Storable(items)
  {
    forall i | 0 <= i < |items| ensures |items[i].key| <= MAX_KEY_SIZE && |items[i].value| < 0x1_0000_0000 {
      SnapshotKeys(items, i);
    }
  }

  // ------------------------------------------------------------------- cleaning up

  /** Files are missing, but none of the generation to keep. */
  ghost predicate Shrunk(d: Disk, d2: Disk, keep: nat) {
    && d2.manifest == d.manifest
    && (keep in d.snapshots <==> keep in d2.snapshots)
    && (keep in d.snapshots ==> d2.snapshots[keep] == d.snapshots[keep])
    && (keep in d.wals <==> keep in d2.wals) && (keep in d.wals ==> d2.wals[keep] == d.wals[keep])
    && (forall h :: h in d2.snapshots ==> h in d.snapshots && d2.snapshots[h] == d.snapshots[h])
    && (forall h :: h in d2.wals ==> h in d.wals && d2.wals[h].Keys <= d.wals[h].Keys)
  }

  lemma ShrunkMore(a: Disk, b: Disk, c: Disk, keep: nat)
    requires Shrunk(a, b, keep) && Shrunk(b, c, keep)
    ensures Shrunk(a, c, keep)
  {
  }

  /** Only files of generation g, which is not kept, are missing. */
  ghost predicate OnlyGone(d: Disk, d2: Disk, g: nat) {
    && d2.manifest == d.manifest && d2.snapshots == d.snapshots && d2.wals - {g} == d.wals - {g}
    && g in d.wals && (g in d2.wals ==> d2.wals[g].Keys <= d.wals[g].Keys)
  }

  lemma GoneIsShrunk(d: Disk, d2: Disk, g: nat, keep: nat)
    requires OnlyGone(d, d2, g) && g != keep
    ensures Shrunk(d, d2, keep)
  {
    forall h | h != g
      ensures (h in d.wals <==> h in d2.wals) && (h in d.wals ==> d2.wals[h] == d.wals[h])
    {
      assert (h in d.wals - {g} <==> h in d2.wals - {g}) && (h in d.wals ==> (d2.wals - {g})[h] == (d.wals - {g})[h]);
    }
  }

  lemma FileGone(d: Disk, d2: Disk, g: nat, id: nat)
    requires OnlyGone(d, d2, g) && g in d2.wals
    ensures OnlyGone(d, d2.(wals := d2.wals[g := d2.wals[g] - {id}]), g)
  {
    assert d2.wals[g := d2.wals[g] - {id}] - {g} == d2.wals - {g};
  }

  lemma TreeGone(d: Disk, d2: Disk, g: nat)
    requires OnlyGone(d, d2, g)
    ensures OnlyGone(d, d2.(wals := d2.wals - {g}), g) && d2.(wals := d2.wals - {g}) == d.(wals := d.wals - {g})
  {
    assert d2.wals - {g} - {g} == d2.wals - {g};
  }

  /** RemoveTree of one WAL generation: its files in any order, then the directory. */
  method RemoveTree(d: Disk, g: nat, keep: nat) returns (d2: Disk, ghost passed: seq<Disk>)
    requires g in d.wals && g != keep
    ensures Shrunk(d, d2, keep) && d2 == d.(wals := d.wals - {g})
    ensures forall p :: p in passed ==> Shrunk(d, p, keep)
    ensures Chain(DiskStep, d, passed, d2)
  {
    d2, passed := d, [];
    var files := d.wals[g].Keys;
    hide Shrunk;
    assert OnlyGone(d, d, g);
    hide OnlyGone, DiskStep;
    ChainNone(DiskStep, d);
    while files != {}
      invariant g in d2.wals && OnlyGone(d, d2, g) && files == d2.wals[g].Keys && Chain(DiskStep, d, passed, d2)
      invariant forall p :: p in passed ==> Shrunk(d, p, keep)
      decreases |files|
    {
      var id :| id in files;
      FileGone(d, d2, g, id);
      RemoveFileStep(d2, g, id);
      ChainSnoc(DiskStep, d, passed, d2, d2.(wals := d2.wals[g := d2.wals[g] - {id}]));
      d2 := d2.(wals := d2.wals[g := d2.wals[g] - {id}]);
      GoneIsShrunk(d, d2, g, keep);
      passed := passed + [d2];
      files := files - {id};
    }
    TreeGone(d, d2, g);
    RemoveDirectoryStep(d2, g);
    ChainSnoc(DiskStep, d, passed, d2, d2.(wals := d2.wals - {g}));
    d2 := d2.(wals := d2.wals - {g});
    GoneIsShrunk(d, d2, g, keep);
    passed := passed + [d2];
  }

  lemma ShrunkSelf(d: Disk, keep: nat)
    ensures Shrunk(d, d, keep)
  {
  }

  lemma SnapshotGone(d: Disk, g: nat, keep: nat)
    requires g != keep
    ensures Shrunk(d, d.(snapshots := d.snapshots - {g}), keep)
  {
  }

  /** RemoveOldWalGenerations: passed are all directories on the way. */
  method RemoveOldWals(d: Disk, keep: nat) returns (d2: Disk, ghost passed: seq<Disk>)
    ensures Shrunk(d, d2, keep) && d2.wals.Keys == d.wals.Keys * {keep} && d2.snapshots == d.snapshots
    ensures forall p :: p in passed ==> Shrunk(d, p, keep)
    ensures Chain(DiskStep, d, passed, d2)
  {
    hide Shrunk, DiskStep;
    d2, passed := d, [];
    ShrunkSelf(d, keep);
    ChainNone(DiskStep, d);
    var others := d.wals.Keys - {keep};
    while others != {}
      invariant Shrunk(d, d2, keep) && d2.snapshots == d.snapshots && Chain(DiskStep, d, passed, d2)
      invariant others == d2.wals.Keys - {keep} && d2.wals.Keys * {keep} == d.wals.Keys * {keep}
      invariant forall p :: p in passed ==> Shrunk(d, p, keep)
      decreases |others|
    {
      var g :| g in others;
      ghost var before := d2;
      ghost var more;
      d2, more := RemoveTree(d2, g, keep);
      ShrunkAll(d, before, more, keep);
      ShrunkMore(d, before, d2, keep);
      ChainConcat(DiskStep, d, passed, before, more, d2);
      passed := passed + more;
      others := others - {g};
    }
  }

  lemma ShrunkAll(a: Disk, b: Disk, more: seq<Disk>, keep: nat)
    requires Shrunk(a, b, keep) && forall p :: p in more ==> Shrunk(b, p, keep)
    ensures forall p :: p in more ==> Shrunk(a, p, keep)
  {
    hide Shrunk;
    forall p | p in more ensures Shrunk(a, p, keep) {
      ShrunkMore(a, b, p, keep);
    }
  }

  /** RemoveOldSnapshots */
  method RemoveOldSnapshots(d: Disk, keep: nat) returns (d2: Disk, ghost passed: seq<Disk>)
    ensures Shrunk(d, d2, keep) && d2.wals == d.wals && d2.snapshots.Keys == d.snapshots.Keys * {keep}
    ensures forall p :: p in passed ==> Shrunk(d, p, keep)
    ensures Chain(DiskStep, d, passed, d2)
  {
    hide Shrunk, DiskStep;
    d2, passed := d, [];
    ShrunkSelf(d, keep);
    ChainNone(DiskStep, d);
    var others := d.snapshots.Keys - {keep};
    while others != {}
      invariant Shrunk(d, d2, keep) && d2.wals == d.wals && Chain(DiskStep, d, passed, d2)
      invariant others == d2.snapshots.Keys - {keep} && d2.snapshots.Keys * {keep} == d.snapshots.Keys * {keep}
      invariant forall p :: p in passed ==> Shrunk(d, p, keep)
      decreases |others|
    {
      var g :| g in others;
      SnapshotGone(d2, g, keep);
      ShrunkMore(d, d2, d2.(snapshots := d2.snapshots - {g}), keep);
      RemoveSnapshotStep(d2, g);
      ChainSnoc(DiskStep, d, passed, d2, d2.(snapshots := d2.snapshots - {g}));
      d2 := d2.(snapshots := d2.snapshots - {g});
      passed := passed + [d2];
      others := others - {g};
    }
  }

  /** The directory without the files of other generations. */
  ghost function OnlyGeneration(d: Disk, keep: nat): Disk {
    Disk(d.manifest, map g | g in d.snapshots && g == keep :: d.snapshots[g],
         map g | g in d.wals && g == keep :: d.wals[g])
  }

  lemma ShrunkToOne(d: Disk, d2: Disk, keep: nat)
    requires Shrunk(d, d2, keep)
    requires d2.wals.Keys == d.wals.Keys * {keep} && d2.snapshots.Keys == d.snapshots.Keys * {keep}
    ensures d2 == OnlyGeneration(d, keep)
  {
    var d3 := OnlyGeneration(d, keep);
    assert d2.wals == d3.wals && d2.snapshots == d3.snapshots;
  }

  /** The cleanup after a checkpoint and after opening: WAL generations, then snapshots. */
  method RemoveOld(d: Disk, keep: nat) returns (d2: Disk, ghost passed: seq<Disk>)
    ensures Shrunk(d, d2, keep) && d2 == OnlyGeneration(d, keep)
    ensures d2.wals.Keys == d.wals.Keys * {keep} && d2.snapshots.Keys == d.snapshots.Keys * {keep}
    ensures forall p :: p in passed ==> Shrunk(d, p, keep)
    ensures Chain(DiskStep, d, passed, d2)
  {
    hide Shrunk, DiskStep;
    d2, passed := RemoveOldWals(d, keep);
    ghost var mid := d2;
    ghost var more;
    d2, more := RemoveOldSnapshots(d2, keep);
    ShrunkAll(d, mid, more, keep);
    ShrunkMore(d, mid, d2, keep);
    ChainConcat(DiskStep, d, passed, mid, more, d2);
    ShrunkToOne(d, d2, keep);
    passed := passed + more;
  }
}
