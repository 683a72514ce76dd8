/** A store may hold one item more than a snapshot may: the checkpoint of such a store leaves a
    directory that cannot be opened any more. */
module CheckpointLimits {
  import opened Wrappers
  import opened Keys
  import opened Codec
  import opened WalFormat
  import opened WalSegments
  import opened WalLog
  import opened WalFiles
  import opened CheckpointFiles
  import opened Recovery
  import opened Disks
  import opened Checkpoints
  import opened RecoveryLimits

  function NumberedItem(i: nat): Item {
    Item(Store(i, 4), [])
  }

  /** Items under n different keys. */
  function NumberedItems(n: nat): (items: seq<Item>)
    ensures |items| == n && forall i :: 0 <= i < n ==> items[i] == NumberedItem(i)
  {
    seq(n, i requires 0 <= i < n => NumberedItem(i))
  }

  lemma KeysDiffer(i: nat, j: nat)
    requires i < U32 && j < U32 && i != j
    ensures NumberedItem(i).key != NumberedItem(j).key
  {
    WordRange();
    LoadStore(i, 4);
    LoadStore(j, 4);
  }

  lemma {:induction false} NumberedValues(n: nat)
    requires n <= U32
    ensures |SnapshotValues(NumberedItems(n))| == n
    ensures forall key :: key in SnapshotValues(NumberedItems(n)) ==>
      exists i :: 0 <= i < n && key == NumberedItem(i).key
    decreases n
  {
    hide NumberedItem;
    if n > 0 {
      NumberedValues(n - 1);
      NumberedNext(n - 1);
      var before := SnapshotValues(NumberedItems(n - 1));
      var x := NumberedItem(n - 1);
      if x.key in before {
        var i :| 0 <= i < n - 1 && x.key == NumberedItem(i).key;
        KeysDiffer(i, n - 1);
      }
      assert |before[x.key := x.value]| == |before| + 1;
    }
  }

  lemma NumberedNext(n: nat)
    ensures NumberedItems(n + 1)[..n] == NumberedItems(n)
    ensures SnapshotValues(NumberedItems(n + 1))
      == SnapshotValues(NumberedItems(n))[NumberedItem(n).key := NumberedItem(n).value]
  {
    assert NumberedItems(n + 1)[..n] == NumberedItems(n);
  }

  lemma NumberedStorable(n: nat)
    ensures Storable(NumberedItems(n))
  {
    hide Store;
  }

  /** A directory with a snapshot of as many items as there may be, and one put more. */
  ghost function CrowdedDisk(walSize: nat): Disk
    requires HEADER + RECORD_HEADER + 4 <= walSize
  {
    Disk(Some(EncodeManifest(1)), map[1 := EncodeSnapshot(1, NumberedItems(MAX_ITEMS))],
         map[1 := FilesOf(map[1 := OnePut(walSize, NumberedItem(MAX_ITEMS).key)])])
  }

  lemma CrowdedReads(walSize: nat)
    requires HEADER + RECORD_HEADER + 4 <= walSize <= OFFSET_LIMIT
    ensures var d := CrowdedDisk(walSize);
      && DiskGeneration(d) == Ok(1) && DiskItems(d) == Ok(NumberedItems(MAX_ITEMS)) && FutureEmpty(d)
      && DiskFiles(d) == FilesOf(map[1 := OnePut(walSize, NumberedItem(MAX_ITEMS).key)])
  {
    hide EncodeManifest, EncodeSnapshot, DecodeManifest, DecodeSnapshot, OnePut, NumberedItems, NumberedItem, FilesOf;
    WordRange();
    ManifestRoundTrip(1);
    NumberedStorable(MAX_ITEMS);
    NumberedCount(MAX_ITEMS);
    SnapshotRoundTrip(1, NumberedItems(MAX_ITEMS));
  }

  lemma NumberedCount(n: nat)
    ensures |NumberedItems(n)| == n
  {
  }

  lemma CrowdedShows(walSize: nat, key: Key)
    requires HEADER + RECORD_HEADER + 4 <= walSize <= OFFSET_LIMIT && |key| == 4
    ensures var x := Gained(1, NewSegment(ZeroFile(walSize)), OP_PUT, key, []);
      Shows(walSize, FilesOf(map[1 := OnePut(walSize, key)]), [x])
  {
    hide Full, SegmentLog, OnePut, NewSegment, ZeroFile, Shows, Kept;
    OnePutMeans(walSize, 1, key);
    var view := map[1 := OnePut(walSize, key)];
    assert 1 in view && AllFull(view) && Sized(walSize, view);
    RunningShows(walSize, view);
    LogAbove(view, 2, FILE_LIMIT);
    LogNext(view, 1);
    LogNext(view, 0);
    LogNone(view);
    var x := Gained(1, NewSegment(ZeroFile(walSize)), OP_PUT, key, []);
    assert [] + [x] == [x];
  }

  /** This directory recovers to more items than a snapshot may hold, and however the checkpoint
      lists them, the directory it leaves cannot be opened. */
  lemma CheckpointTooLarge(walSize: nat, items: seq<Item>)
    requires HEADER + RECORD_HEADER + 4 <= walSize <= OFFSET_LIMIT
    requires SnapshotValues(items) == SnapshotValues(NumberedItems(MAX_ITEMS + 1)) && Storable(items)
    requires |items| == |SnapshotValues(items)|
    ensures var d, m := CrowdedDisk(walSize), SnapshotValues(NumberedItems(MAX_ITEMS + 1));
      Recovers(walSize, d, m) && |m| == MAX_ITEMS + 1 && !Loadable(walSize, Switched(d, 2, items))
  {
    hide EncodeManifest, EncodeSnapshot, DecodeManifest, DecodeSnapshot, OnePut, NumberedItems, NumberedItem, FilesOf,
         Shows, SnapshotValues, Recovers, Loadable, DiskGeneration, DiskItems, DiskFiles, FutureEmpty, CrowdedDisk,
         Gained, NewSegment, ZeroFile, Mean, Switched;
    var d, last := CrowdedDisk(walSize), NumberedItem(MAX_ITEMS);
    WordRange();
    CrowdedReads(walSize);
    KeySize(MAX_ITEMS);
    CrowdedShows(walSize, last.key);
    var x := Gained(1, NewSegment(ZeroFile(walSize)), OP_PUT, last.key, []);
    RecoversBy(walSize, d, NumberedItems(MAX_ITEMS), [x]);
    OnePutMeaning(SnapshotValues(NumberedItems(MAX_ITEMS)), x, last, NewSegment(ZeroFile(walSize)));
    NumberedNext(MAX_ITEMS);
    NumberedValues(MAX_ITEMS + 1);
    SwitchedLoads(walSize, d, 2, items, SnapshotValues(items));
  }

  lemma KeySize(i: nat)
    ensures |NumberedItem(i).key| == 4 && NumberedItem(i).value == []
  {
  }

  lemma OnePutMeaning(m: Values, x: Replayed, item: Item, s: Segment)
    requires x == Gained(1, s, OP_PUT, item.key, item.value)
    ensures Mean(m, [x]) == m[item.key := item.value]
  {
    PlaySnoc(map[], m, [], x);
    assert [] + [x] == [x];
  }
}
