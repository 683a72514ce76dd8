/** What holds of a running store: its index, its segments, its snapshot records and the
    directory all stand for one key-value map. */
module StoreState {
  import opened Wrappers
  import opened Keys
  import opened Codec
  import opened WalFormat
  import opened WalSegments
  import opened WalLog
  import opened WalFiles
  import opened CheckpointFiles
  import opened Recovery
  import opened Disks

  /** The key-value map of a snapshot and the log behind it. */
  ghost function Meaning(items: seq<Item>, view: map<nat, Segment>): Values {
    Mean(SnapshotValues(items), WholeLog(view))
  }

  ghost predicate Running(walSize: nat, generation: nat, view: map<nat, Segment>, snapshot: seq<OwnedRecord>,
                          items: seq<Item>, index: Positions, d: Disk) {
    && AllFull(view) && Sized(walSize, view) && 0 < generation < U64
    && snapshot == SnapshotRecords(items) && |items| <= MAX_ITEMS && Storable(items)
    && index == Play(SnapshotIndex(items), WholeLog(view))
    && DiskGeneration(d) == Ok(generation) && DiskItems(d) == Ok(items) && FutureEmpty(d)
  }

  /** Every indexed position is a readable put record with its key and its latest value. */
  lemma RunningResolves(walSize: nat, generation: nat, view: map<nat, Segment>, snapshot: seq<OwnedRecord>,
                        items: seq<Item>, index: Positions, d: Disk)
    requires Running(walSize, generation, view, snapshot, items, index, d)
    ensures Resolves(index, Meaning(items, view), view, snapshot)
  {
    hide Full, Mean, Play, SnapshotIndex, SnapshotValues, SnapshotRecords, DiskItems, LogBelow, ReadAt,
         IsSnapshotPosition;
    assert items[..|items|] == items;
    SnapshotResolves(items, |items|, view);
    AllFullLoaded(view);
    forall x | x in WholeLog(view) ensures ReadAt(view, x.pos) == Some(x.record) && !IsSnapshotPosition(x.pos) {
      LogReadable(view, FILE_LIMIT, x);
    }
    LogResolves(SnapshotIndex(items), SnapshotValues(items), WholeLog(view), view, snapshot);
  }

  /** Whatever log the WAL files show, the directory recovers to its meaning. */
  lemma RunningRecovers(walSize: nat, generation: nat, view: map<nat, Segment>, snapshot: seq<OwnedRecord>,
                        items: seq<Item>, index: Positions, d: Disk, files: Files, log: seq<Replayed>)
    requires Running(walSize, generation, view, snapshot, items, index, d) && Shows(walSize, files, log)
    ensures Recovers(walSize, WithFiles(d, generation, files), Mean(SnapshotValues(items), log))
  {
    hide Mean, SnapshotValues, Shows, Full;
    FilesChange(walSize, d, generation, files, items, log);
  }

  /** A record was added to the log. */
  lemma RunningGrows(walSize: nat, generation: nat, view: map<nat, Segment>, snapshot: seq<OwnedRecord>,
                     items: seq<Item>, index: Positions, d: Disk, view2: map<nat, Segment>, x: Replayed)
    requires Running(walSize, generation, view, snapshot, items, index, d)
    requires AllFull(view2) && Sized(walSize, view2) && WholeLog(view2) == WholeLog(view) + [x]
    ensures Running(walSize, generation, view2, snapshot, items, PlayOne(index, x), d)
    ensures Meaning(items, view2) == MeanOne(Meaning(items, view), x)
  {
    hide Mean, Play, SnapshotValues, SnapshotIndex, WholeLog, Full;
    PlaySnoc(SnapshotIndex(items), SnapshotValues(items), WholeLog(view), x);
  }

  /** The log stayed the same. */
  lemma RunningStays(walSize: nat, generation: nat, view: map<nat, Segment>, snapshot: seq<OwnedRecord>,
                     items: seq<Item>, index: Positions, d: Disk, view2: map<nat, Segment>)
    requires Running(walSize, generation, view, snapshot, items, index, d)
    requires AllFull(view2) && Sized(walSize, view2) && WholeLog(view2) == WholeLog(view)
    ensures Running(walSize, generation, view2, snapshot, items, index, d)
    ensures Meaning(items, view2) == Meaning(items, view)
  {
  }

  lemma PlayWritten(index: Positions, m: Values, key: Key, value: Bytes, pos: Position)
    ensures PlayOne(index, Written(OP_PUT, key, value, pos)) == index[key := pos]
    ensures MeanOne(m, Written(OP_PUT, key, value, pos)) == m[key := value]
    ensures PlayOne(index, Written(OP_DELETE, key, value, pos)) == index - {key}
    ensures MeanOne(m, Written(OP_DELETE, key, value, pos)) == m - {key}
  {
  }

  // ----------------------------------------------------------- sizes of live items

  ghost predicate SmallItems(m: Values) {
    forall key :: key in m ==> |key| <= MAX_KEY_SIZE && |m[key]| < U32
  }

  lemma RecordSize(data: Bytes, used: nat, offset: nat, verify: bool)
    requires used <= |data| && RecordAt(data, used, offset, verify).Ok?
    ensures |RecordAt(data, used, offset, verify).value.value| < U32
  {
    hide Load, RecordCrc, LoadCrc;
    WordRange();
    StoreLoad(data[offset + 5..offset + 9]);
  }

  lemma ReadSize(view: map<nat, Segment>, pos: Position)
    ensures ReadAt(view, pos).Some? ==>
      |ReadAt(view, pos).value.value| < U32 && |ReadAt(view, pos).value.key| <= MAX_KEY_SIZE
  {
    if ReadAt(view, pos).Some? {
      var s := view[FileNo(pos)];
      RecordSize(s.data, s.used, Offset(pos), false);
    }
  }

  /** Live items can always be written to a snapshot. */
  lemma LiveItemsSmall(index: Positions, m: Values, view: map<nat, Segment>, items: seq<Item>)
    requires Resolves(index, m, view, SnapshotRecords(items)) && Storable(items)
    ensures SmallItems(m)
  {
    hide ReadAt;
    forall key | key in m ensures |key| <= MAX_KEY_SIZE && |m[key]| < U32 {
      assert key in index && ReadItem(view, SnapshotRecords(items), index[key]) == Some(Item(key, m[key]));
      ReadSize(view, index[key]);
    }
  }

  lemma ItemSize(data: Bytes)
    ensures DecodeItem(data).Ok? ==>
      |DecodeItem(data).value.value| < U32 && |DecodeItem(data).value.key| <= MAX_KEY_SIZE
  {
    hide Load, ItemCrc, LoadCrc;
    if |data| >= 12 {
      WordRange();
      StoreLoad(data[4..8]);
    }
  }

  lemma {:induction false} ItemsSize(data: Bytes, count: nat)
    ensures DecodeItems(data, count).Ok? ==> Storable(DecodeItems(data, count).value)
    decreases count
  {
    hide DecodeItem;
    if count > 0 && DecodeItem(data).Ok? {
      var first := DecodeItem(data).value;
      ItemSize(data);
      ItemsSize(data[12 + |first.key| + |first.value|..], count - 1);
    }
  }

  /** Items read from a snapshot can be written again. */
  lemma DiskItemsStorable(d: Disk)
    ensures DiskItems(d).Ok? ==> Storable(DiskItems(d).value)
  {
    hide DecodeItems, DecodeManifest;
    var g := DiskGeneration(d);
    if g.Ok? && d.manifest.Some? && g.value in d.snapshots {
      var data := d.snapshots[g.value];
      if |data| >= 32 {
        ItemsSize(data[32..], Load(data[16..24]));
      }
    }
  }
}
