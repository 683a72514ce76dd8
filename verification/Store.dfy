/** The store (Impl of store.cc): puts, gets, deletes, checkpoints and opening. The paged index
    is used here through the map it implements. */
module Stores {
  import opened Wrappers
  import opened Keys
  import opened Codec
  import opened WalFormat
  import opened WalSegments
  import opened WalLog
  import opened WalFiles
  import opened CheckpointFiles
  import opened Recovery
  import opened RecordStores
  import opened Disks
  import opened LiveItems
  import opened StoreState
  import opened Checkpoints
  import opened RecoveryLimits
  import opened Sequences

  const CHECKPOINT_SEGMENTS: nat := 4

  class Store {
    const walSize: nat
    const records: SegmentedRecordStore
    var index: Positions
    /** The store directory, but for the WAL files of the running generation. */
    var directory: Disk
    /** The items of the snapshot the running generation started from. */
    ghost var items: seq<Item>

    ghost predicate Valid()
      reads this, records, records.Repr
    {
      && records.Valid() && this !in records.Repr && records.walSize == walSize
      && Running(walSize, records.generation, records.View(), records.snapshotRecords, items, index, directory)
    }

    /** The key-value map the store holds. */
    ghost function Contents(): Values
      reads this, records, records.Repr
      requires records.Held()
    {
      Meaning(items, records.View())
    }

    /** All that is durable, and all that survives a crash. */
    ghost function OnDisk(): Disk
      reads this, records, records.Repr
      requires records.Held()
    {
      WithFiles(directory, records.generation, FilesOf(records.View()))
    }

    /** A checkpoint still has a generation number and room for every item. */
    ghost predicate CanCheckpoint()
      reads this, records
    {
      |index| <= MAX_ITEMS && records.generation + 1 < U64
    }

    /** What a write leaves: the segments it wrote to, and the directory otherwise as it was; or, if
        these are too many, the checkpoint of the next generation. */
    ghost predicate Stands(g: nat, view: map<nat, Segment>, d: Disk, stays: bool)
      reads this, records, records.Repr
    {
      && records.Held() && walSize >= HEADER
      && if stays then
           records.generation == g && records.View() == view && OnDisk() == WithFiles(d, g, FilesOf(view))
         else
           && records.generation == g + 1 && records.View() == map[1 := NewSegment(ZeroFile(walSize))]
           && OnDisk() == Checkpointed(walSize, g + 1, items)
           && InKeyOrder(items) && SnapshotValues(items) == Contents()
    }

    lemma Parts()
      requires Valid()
      ensures records.Valid() && records.Held() && this !in records.Repr && records.walSize == walSize
      ensures records in records.Repr
      ensures Running(walSize, records.generation, records.View(), records.snapshotRecords, items, index, directory)
      ensures AllFull(records.View()) && Sized(walSize, records.View()) && records.generation > 0
      ensures HEADER + RECORD_HEADER <= walSize <= OFFSET_LIMIT && walSize >= HEADER
      ensures records.Log() == WholeLog(records.View())
      ensures Contents() == Meaning(items, records.View())
      ensures OnDisk() == WithFiles(directory, records.generation, FilesOf(records.View()))
      ensures records.snapshotRecords == SnapshotRecords(items) && Storable(items)
      ensures DiskGeneration(directory) == Ok(records.generation)
    {
    }

    /** A crash between operations: the directory recovers what the store holds. */
    lemma Durable()
      requires Valid()
      ensures records.Held() && Recovers(walSize, OnDisk(), Contents())
    {
      hide *;
      Parts();
      RunningShows(walSize, records.View());
      RunningRecovers(walSize, records.generation, records.View(), records.snapshotRecords, items, index, directory,
                      FilesOf(records.View()), WholeLog(records.View()));
      MeaningIs(items, records.View());
    }

    /** The same in the middle of writing a record: whatever is behind the used part of a file. */
    lemma TornDurable(id: nat, data: Bytes)
      requires Valid() && records.Held() && id in records.View() && TornTail(records.View()[id], data)
      ensures Recovers(walSize, WithFiles(directory, records.generation, FilesOf(records.View())[id := data]),
                       Contents())
    {
      hide *;
      Parts();
      TornShows(walSize, records.View(), id, data);
      RunningRecovers(walSize, records.generation, records.View(), records.snapshotRecords, items, index, directory,
                      FilesOf(records.View())[id := data], WholeLog(records.View()));
      MeaningIs(items, records.View());
    }

    /** What is accepted shows in the directory alone. */
    lemma AcceptsOnDisk(key: Key, value: Bytes)
      requires Valid()
      ensures records.Held() && Loadable(walSize, OnDisk()) && walSize >= HEADER && Opens(walSize, DiskFiles(OnDisk()))
      ensures records.Accepts(key, value) <==>
        TakesRecord(walSize, OpenView(walSize, DiskFiles(OnDisk())), key, value)
    {
      hide *;
      Parts();
      Durable();
      records.AcceptsIs(key, value);
      AllFullLoaded(records.View());
      FoundAgain(walSize, records.View());
      RunningFiles(directory, records.generation, FilesOf(records.View()));
      LoadableOf(walSize, OnDisk(), Contents());
    }

    /** The directory names the running generation, and opens to the open segments. */
    lemma FoundOnDisk()
      requires Valid()
      ensures records.Held() && walSize >= HEADER && Loadable(walSize, OnDisk()) && Opens(walSize, DiskFiles(OnDisk()))
      ensures DiskGeneration(OnDisk()) == Ok(records.generation)
      ensures OpenView(walSize, DiskFiles(OnDisk())) == records.View() && Highest(records.View(), records.activeFileNo)
    {
      hide *;
      Parts();
      Durable();
      records.Undamaged();
      HighestIs(records.View(), records.activeFileNo);
      AllFullLoaded(records.View());
      FoundAgain(walSize, records.View());
      RunningFiles(directory, records.generation, FilesOf(records.View()));
      SameGeneration(directory, records.generation, FilesOf(records.View()));
      LoadableOf(walSize, OnDisk(), Contents());
    }

    lemma Resolved()
      requires Valid()
      ensures records.Held() && Resolves(index, Contents(), records.View(), records.snapshotRecords)
      ensures index.Keys == Contents().Keys && |index| == |Contents()|
    {
      hide Running, Meaning, ReadItem;
      RunningResolves(walSize, records.generation, records.View(), records.snapshotRecords, items, index, directory);
      assert |index.Keys| == |index| && |Contents().Keys| == |Contents()|;
    }

    // ------------------------------------------------------------------- reading

    /** Len */
    method Len() returns (n: nat)
      requires Valid()
      ensures n == |Contents()|
    {
      Resolved();
      n := |index|;
    }

    /** Get: the latest value of the key, or nothing; an oversized key is an error. */
    method Get(key: Key) returns (r: Result<Option<Bytes>>)
      requires Valid()
      ensures r.Err? <==> |key| > MAX_KEY_SIZE
      ensures r.Err? ==> r == Err(InvalidArgument)
      ensures r.Ok? ==> r.value == if key in Contents() then Some(Contents()[key]) else None
    {
      hide Running, Meaning, ReadItem;
      if |key| > MAX_KEY_SIZE {
        return Err(InvalidArgument);
      }
      Resolved();
      if key !in index {
        return Ok(None);
      }
      var item := records.ItemAt(index[key]);
      return Ok(Some(item.value.value));
    }

    /** CollectLiveItemsLocked: every live key with its value, in key order. */
    method CollectLiveItems() returns (r: seq<Item>)
      requires Valid()
      ensures InKeyOrder(r) && SnapshotValues(r) == Contents() && |r| == |index| && Storable(r)
    {
      hide *;
      Resolved();
      ghost var m := Contents();
      CollectStart(m);
      r := [];
      var left := index.Keys;
      while left != {}
        invariant left <= index.Keys && Collected(m, left, r)
        decreases |left|
      {
        var key := LeastKey(left);
        Parts();
        var item := records.ItemAt(index[key]);
        ResolvesAt(index, m, records.View(), records.snapshotRecords, key);
        CollectNext(m, left, r, key);
        r := r + [item.value];
        left := left - {key};
      }
      CollectDone(m, r);
      ItemsStorable(r);
    }

    lemma ItemsStorable(r: seq<Item>)
      requires Valid() && InKeyOrder(r) && SnapshotValues(r) == Contents()
      ensures Storable(r)
    {
      hide *;
      Small();
      SmallStorable(r);
    }

    lemma Small()
      requires Valid()
      ensures records.Held() && forall key :: key in Contents() ==>
        |key| <= MAX_KEY_SIZE && |Contents()[key]| < 0x1_0000_0000
    {
      hide Running, Meaning, Resolves;
      Parts();
      Resolved();
      LiveItemsSmall(index, Contents(), records.View(), items);
    }

    lemma IsValid()
      requires records.Valid() && this !in records.Repr && records.walSize == walSize
      requires records.Held()
      requires Running(walSize, records.generation, records.View(), records.snapshotRecords, items, index, directory)
      ensures Valid()
    {
    }

    constructor Over(records: SegmentedRecordStore, index: Positions, directory: Disk, ghost items: seq<Item>)
      requires records.Valid() && records.Held()
      requires Running(records.walSize, records.generation, records.View(), records.snapshotRecords, items, index,
                       directory)
      ensures Valid() && this.records == records && walSize == records.walSize && this.items == items
      ensures this.directory == directory && this.index == index
    {
      hide *;
      this.walSize := records.walSize;
      this.records := records;
      this.index := index;
      this.directory := directory;
      this.items := items;
      new;
      IsValid();
    }

    // ------------------------------------------------------------------- writing

    /** Put: after success the key has the value and everything else is as before; after a
        failure nothing changed. passed are the directories after every byte of the record and
        after every other step, the store of the used offset and the creation of a header being
        single steps: a crash there recovers the map from before up to some point, and the map
        from after behind it. */
    method Put(key: Key, value: Bytes) returns (r: Result<()>, ghost passed: seq<Disk>)
      requires Valid() && |index| < MAX_ITEMS && CanCheckpoint()
      modifies this, records.Repr
      ensures Valid() && fresh(records.Repr - old(records.Repr)) && records.Held()
      ensures r.Ok? <==> |key| <= MAX_KEY_SIZE && old(records.Accepts(key, value))
      ensures r.Ok? ==> Contents() == old(Contents())[key := value]
      ensures r.Err? ==> Contents() == old(Contents()) && index == old(index)
      ensures r == Err(InvalidArgument) <==> |key| > MAX_KEY_SIZE
      ensures Turns(walSize, passed, old(Contents()), Contents())
      ensures Chain(DiskStep, old(OnDisk()), passed, OnDisk())
      ensures r.Ok? ==> |passed| > RECORD_HEADER + |key| + |value|
      ensures walSize >= HEADER && (|key| > MAX_KEY_SIZE ==> OnDisk() == old(OnDisk()))
      ensures |key| <= MAX_KEY_SIZE ==>
        var view := WithRecord(walSize, old(records.View()), old(records.activeFileNo), OP_PUT, key, value);
        Stands(old(records.generation), view, old(OnDisk()), r.Err? || |view| <= CHECKPOINT_SEGMENTS)
      ensures r.Err? && |key| <= MAX_KEY_SIZE ==>
        r == Err(if old(records.nextFileNo) < FILE_LIMIT then WalFull else CorruptWal)
      ensures r.Ok? ==> |records.View()| <= 4
    {
      hide *;
      Parts();
      CanMeans();
      passed := [];
      if |key| > MAX_KEY_SIZE {
        TurnsNot(walSize, Contents(), Contents());
        ChainNone(DiskStep, OnDisk());
        return Err(InvalidArgument), passed;
      }
      ghost var g, view0, snap0, m0 := records.generation, records.View(), records.snapshotRecords, Contents();
      var pos, files := records.Append(key, value);
      records.Undamaged();
      passed := FileImages(directory, g, files);
      WritingTurns(walSize, g, view0, snap0, items, index, directory, files, records.View());
      FileImagesChain(directory, g, FilesOf(view0), files, FilesOf(records.View()));
      MeaningIs(items, records.View());
      FilesAgain(directory, g, FilesOf(view0), FilesOf(records.View()));
      if pos.Err? {
        RunningStays(walSize, g, view0, snap0, items, index, directory, records.View());
        IsValid();
        Parts();
        StandsStill(g, records.View(), old(OnDisk()));
        return Err(pos.error), passed;
      }
      RunningGrows(walSize, g, view0, snap0, items, index, directory, records.View(), Written(OP_PUT, key, value,
                   pos.value));
      PlayWritten(index, m0, key, value, pos.value);
      IndexGrows(index, key, pos.value);
      index := index[key := pos.value];
      IsValid();
      Parts();
      StillCan(g);
      ghost var more, mid, view := [], OnDisk(), records.View();
      r, more := CheckpointIfNeeded();
      StandsAgain(g, view, mid, old(OnDisk()), |view| <= CHECKPOINT_SEGMENTS);
      FewSegments(g, view, old(OnDisk()));
      ChainConcat(DiskStep, old(OnDisk()), passed, mid, more, OnDisk());
      TurnsMore(walSize, passed, more, m0, Contents());
      passed := passed + more;
    }

    lemma StandsStill(g: nat, view: map<nat, Segment>, d: Disk)
      requires records.Held() && walSize >= HEADER && records.generation == g && records.View() == view
      requires OnDisk() == WithFiles(d, g, FilesOf(view))
      ensures Stands(g, view, d, true)
    {
    }

    lemma FewSegments(g: nat, view: map<nat, Segment>, d: Disk)
      requires Stands(g, view, d, |view| <= CHECKPOINT_SEGMENTS)
      ensures records.Held() && |records.View()| <= 4
    {
      hide NewSegment, ZeroFile, Checkpointed, OnDisk, Contents, InKeyOrder, SnapshotValues;
    }

    lemma StandsAgain(g: nat, view: map<nat, Segment>, d: Disk, d0: Disk, stays: bool)
      requires Stands(g, view, d, stays) && d == WithFiles(d0, g, FilesOf(view))
      ensures Stands(g, view, d0, stays)
    {
      hide FilesOf, EncodeManifest, EncodeSnapshot, NewSegment, ZeroFile;
      FilesAgain(d0, g, FilesOf(view), FilesOf(view));
    }

    /** Delete: after success the key is gone and everything else is as before; when its
        tombstone cannot be written, the entry is restored and nothing changed. */
    method Delete(key: Key) returns (r: Result<bool>, ghost passed: seq<Disk>)
      requires Valid() && CanCheckpoint()
      modifies this, records.Repr
      ensures Valid() && fresh(records.Repr - old(records.Repr)) && records.Held()
      ensures r == Err(InvalidArgument) <==> |key| > MAX_KEY_SIZE
      ensures |key| <= MAX_KEY_SIZE ==> (r == Ok(false) <==> key !in old(Contents()))
      ensures r == Ok(true) <==> key in old(Contents()) && old(records.Accepts(key, []))
      ensures r.Ok? ==> Contents() == old(Contents()) - {key}
      ensures r.Err? ==> Contents() == old(Contents()) && index == old(index)
      ensures Turns(walSize, passed, old(Contents()), Contents())
      ensures Chain(DiskStep, old(OnDisk()), passed, OnDisk())
      ensures r == Ok(true) ==> |passed| > RECORD_HEADER + |key|
      ensures walSize >= HEADER && (|key| > MAX_KEY_SIZE || key !in old(Contents()) ==> OnDisk() == old(OnDisk()))
      ensures |key| <= MAX_KEY_SIZE && key in old(Contents()) ==>
        var view := WithRecord(walSize, old(records.View()), old(records.activeFileNo), OP_DELETE, key, []);
        Stands(old(records.generation), view, old(OnDisk()), r.Err? || |view| <= CHECKPOINT_SEGMENTS)
      ensures r.Err? && |key| <= MAX_KEY_SIZE ==>
        r == Err(if old(records.nextFileNo) < FILE_LIMIT then WalFull else CorruptWal)
      ensures r == Ok(true) ==> |records.View()| <= 4
    {
      hide *;
      Parts();
      CanMeans();
      Resolved();
      Small();
      passed := [];
      if |key| > MAX_KEY_SIZE {
        TurnsNot(walSize, Contents(), Contents());
        ChainNone(DiskStep, OnDisk());
        return Err(InvalidArgument), passed;
      }
      if key !in index {
        TurnsNot(walSize, Contents(), Contents());
        ChainNone(DiskStep, OnDisk());
        NotThere(Contents(), key);
        return Ok(false), passed;
      }
      r, passed := DeleteStored(key);
    }

    /** Delete of a key that is stored. */
    method DeleteStored(key: Key) returns (r: Result<bool>, ghost passed: seq<Disk>)
      requires Valid() && CanCheckpoint() && key in index && |key| <= MAX_KEY_SIZE
      modifies this, records.Repr
      ensures Valid() && fresh(records.Repr - old(records.Repr)) && records.Held()
      ensures r != Ok(false) && r != Err(InvalidArgument)
      ensures r == Ok(true) <==> old(records.Accepts(key, []))
      ensures r.Ok? ==> Contents() == old(Contents()) - {key}
      ensures r.Err? ==> Contents() == old(Contents()) && index == old(index)
      ensures Turns(walSize, passed, old(Contents()), Contents())
      ensures Chain(DiskStep, old(OnDisk()), passed, OnDisk())
      ensures r == Ok(true) ==> |passed| > RECORD_HEADER + |key|
      ensures walSize >= HEADER
      ensures var view := WithRecord(walSize, old(records.View()), old(records.activeFileNo), OP_DELETE, key, []);
        Stands(old(records.generation), view, old(OnDisk()), r.Err? || |view| <= CHECKPOINT_SEGMENTS)
      ensures r.Err? ==> r == Err(if old(records.nextFileNo) < FILE_LIMIT then WalFull else CorruptWal)
      ensures r.Ok? ==> |records.View()| <= 4
    {
      hide *;
      Parts();
      CanMeans();
      ghost var g, view0, snap0 := records.generation, records.View(), records.snapshotRecords;
      ghost var m0, index0 := Contents(), index;
      var pos := index[key];
      index := index - {key};
      var tombstone, files := records.DeleteRecord(key);
      records.Undamaged();
      passed := FileImages(directory, g, files);
      WritingTurns(walSize, g, view0, snap0, items, index0, directory, files, records.View());
      FileImagesChain(directory, g, FilesOf(view0), files, FilesOf(records.View()));
      MeaningIs(items, records.View());
      FilesAgain(directory, g, FilesOf(view0), FilesOf(records.View()));
      if tombstone.Err? {
        index := index[key := pos];
        assert index == index0;
        RunningStays(walSize, g, view0, snap0, items, index0, directory, records.View());
        IsValid();
        Parts();
        StandsStill(g, records.View(), old(OnDisk()));
        return Err(tombstone.error), passed;
      }
      RunningGrows(walSize, g, view0, snap0, items, index0, directory, records.View(), Written(OP_DELETE, key, [],
                   tombstone.value));
      PlayWritten(index0, m0, key, [], tombstone.value);
      IndexShrinks(index0, key);
      IsValid();
      Parts();
      StillCan(g);
      ghost var more, mid, view := [], OnDisk(), records.View();
      var done;
      done, more := CheckpointIfNeeded();
      StandsAgain(g, view, mid, old(OnDisk()), |view| <= CHECKPOINT_SEGMENTS);
      FewSegments(g, view, old(OnDisk()));
      ChainConcat(DiskStep, old(OnDisk()), passed, mid, more, OnDisk());
      TurnsMore(walSize, passed, more, m0, Contents());
      passed := passed + more;
      return Ok(true), passed;
    }

    lemma CanMeans()
      requires CanCheckpoint()
      ensures |index| <= MAX_ITEMS && records.generation + 1 < U64
    {
    }

    lemma StillCan(g: nat)
      requires g + 1 < U64 && records.generation == g && |index| <= MAX_ITEMS
      ensures CanCheckpoint()
    {
    }

    // --------------------------------------------------------------- checkpointing

    /** CheckpointIfNeededLocked: with more than four segments a checkpoint is made. */
    method CheckpointIfNeeded() returns (r: Result<()>, ghost passed: seq<Disk>)
      requires Valid() && CanCheckpoint()
      modifies this, records.Repr
      ensures Valid() && fresh(records.Repr - old(records.Repr)) && records.Held()
      ensures r == Ok(()) && Contents() == old(Contents())
      ensures forall d :: d in passed ==> Recovers(walSize, d, Contents())
      ensures Chain(DiskStep, old(OnDisk()), passed, OnDisk())
      ensures Stands(old(records.generation), old(records.View()), old(OnDisk()),
                     |old(records.View())| <= CHECKPOINT_SEGMENTS)
    {
      hide *;
      Parts();
      records.ViewSize();
      if |records.segments| <= CHECKPOINT_SEGMENTS {
        ChainNone(DiskStep, OnDisk());
        FilesAgain(directory, records.generation, FilesOf(records.View()), FilesOf(records.View()));
        StandsStill(records.generation, records.View(), OnDisk());
        return Ok(()), [];
      }
      r, passed := Checkpoint();
      IsStanding(old(records.generation), old(records.View()), old(OnDisk()));
    }

    lemma IsStanding(g: nat, view: map<nat, Segment>, d: Disk)
      requires records.Held() && walSize >= HEADER && records.generation == g + 1
      requires records.View() == map[1 := NewSegment(ZeroFile(walSize))]
      requires OnDisk() == Checkpointed(walSize, g + 1, items)
      requires InKeyOrder(items) && SnapshotValues(items) == Contents()
      ensures Stands(g, view, d, false)
    {
      hide NewSegment, ZeroFile, Checkpointed, InKeyOrder, SnapshotValues, Contents, OnDisk;
    }

    /** CheckpointLocked: the live items become the snapshot of the next generation, the
        manifest switches to it, the store goes on with an empty log, and the older files go.
        It never fails, and a crash after any of its steps recovers the same map. */
    method Checkpoint() returns (r: Result<()>, ghost passed: seq<Disk>)
      requires Valid() && CanCheckpoint()
      modifies this, records.Repr
      ensures Valid() && fresh(records.Repr - old(records.Repr)) && records.Held()
      ensures r == Ok(()) && Contents() == old(Contents())
      ensures records.generation == old(records.generation) + 1 && records.Log() == []
      ensures walSize >= HEADER && records.View() == map[1 := NewSegment(ZeroFile(walSize))]
      ensures OnDisk() == Checkpointed(walSize, records.generation, items)
      ensures InKeyOrder(items) && SnapshotValues(items) == Contents()
      ensures forall d :: d in passed ==> Recovers(walSize, d, Contents())
      ensures Chain(DiskStep, old(OnDisk()), passed, OnDisk())
    {
      hide *;
      Parts();
      Resolved();
      CanMeans();
      ghost var m := Contents();
      var live := CollectLiveItems();
      var next := records.generation + 1;
      passed := WriteCheckpoint(live);
      ghost var more, written := [], directory;
      more := Restart(next, live);
      ChainConcat(DiskStep, old(OnDisk()), passed, written, more, OnDisk());
      passed := passed + more;
      ghost var mid := OnDisk();
      more := CleanUp();
      ChainConcat(DiskStep, old(OnDisk()), passed, mid, more, OnDisk());
      passed := passed + more;
      Parts();
      CheckpointedIs(walSize, old(OnDisk()), next, live);
      return Ok(()), passed;
    }

    /** The first half: snapshot, directory and manifest of the next generation. */
    method WriteCheckpoint(live: seq<Item>) returns (ghost passed: seq<Disk>)
      requires Valid() && CanCheckpoint()
      requires Storable(live) && |live| <= MAX_ITEMS && SnapshotValues(live) == Contents()
      modifies this`directory
      ensures ReadyFor(records.generation + 1, live)
      ensures directory == Switched(old(OnDisk()), records.generation + 1, live)
      ensures forall d :: d in passed ==> Recovers(walSize, d, old(Contents()))
      ensures Chain(DiskStep, old(OnDisk()), passed, directory)
    {
      hide *;
      Parts();
      Durable();
      CanMeans();
      ghost var m := Contents();
      var next := records.generation + 1;
      var files := records.FileBytes();
      SameGeneration(directory, records.generation, files);
      SwitchingRecovers(walSize, WithFiles(directory, records.generation, files), next, live, m);
      directory := WithFiles(directory, records.generation, files);
      ghost var d0 := directory;
      SwitchingSteps(d0, next, live);
      directory := WithSnapshot(directory, next, live);
      passed := [directory];
      directory := WithDirectory(directory, next);
      passed := passed + [directory];
      directory := WithManifest(directory, next);
      passed := passed + [directory];
      SwitchedIs(d0, next, live);
      assert passed == [WithSnapshot(d0, next, live), WithDirectory(WithSnapshot(d0, next, live), next), directory];
      IsReadyFor(next, live);
    }

    /** The directory starts from the snapshot of the next generation, which has no WAL files;
        the store still runs on its own segments. */
    ghost predicate ReadyFor(next: nat, live: seq<Item>)
      reads this, records, records.Repr
    {
      && records.Valid() && this !in records.Repr && records.walSize == walSize
      && 0 < next < U64 && |live| <= MAX_ITEMS && Storable(live)
      && DiskGeneration(directory) == Ok(next) && DiskItems(directory) == Ok(live) && FutureEmpty(directory)
      && next in directory.wals && directory.wals[next] == map[] && next in directory.snapshots
    }

    lemma IsReadyFor(next: nat, live: seq<Item>)
      requires records.Valid() && this !in records.Repr && records.walSize == walSize
      requires 0 < next < U64 && |live| <= MAX_ITEMS && Storable(live)
      requires DiskGeneration(directory) == Ok(next) && DiskItems(directory) == Ok(live) && FutureEmpty(directory)
      requires next in directory.wals && directory.wals[next] == map[] && next in directory.snapshots
      ensures ReadyFor(next, live)
    {
    }

    lemma ReadyForMeans(next: nat, live: seq<Item>)
      requires ReadyFor(next, live)
      ensures records.Valid() && records.Held() && this !in records.Repr && records.walSize == walSize
      ensures records in records.Repr
      ensures HEADER + RECORD_HEADER <= walSize <= OFFSET_LIMIT && walSize >= HEADER
      ensures 0 < next < U64 && |live| <= MAX_ITEMS && Storable(live)
      ensures DiskGeneration(directory) == Ok(next) && DiskItems(directory) == Ok(live) && FutureEmpty(directory)
      ensures next in directory.wals && directory.wals[next] == map[] && next in directory.snapshots
    {
    }

    /** ResetToSnapshot and RebuildIndexFromSnapshotLocked. */
    method Restart(next: nat, live: seq<Item>) returns (ghost passed: seq<Disk>)
      requires ReadyFor(next, live)
      modifies this`index, this`items, records.Repr
      ensures Valid() && fresh(records.Repr - old(records.Repr)) && records.Held()
      ensures records.generation == next && records.Log() == [] && Contents() == SnapshotValues(live)
      ensures next in directory.wals && next in directory.snapshots
      ensures items == live && walSize >= HEADER && records.View() == map[1 := NewSegment(ZeroFile(walSize))]
      ensures forall d :: d in passed ==> Recovers(walSize, d, SnapshotValues(live))
      ensures Chain(DiskStep, old(directory), passed, OnDisk())
    {
      hide *;
      ReadyForMeans(next, live);
      FirstFileChain(walSize, directory, next);
      passed := FirstFileImages(walSize, directory, next);
      FirstFileRecovers(walSize, directory, next, live);
      EmptyOpens(walSize);
      NoFirstFile();
      var reset := records.ResetToSnapshot(next, FirstFile(directory.wals[next]));
      NoSnapshotRecords();
      HeldIs(records);
      var loaded := LoadSnapshotRecords(records, live);
      index, items := loaded.value, live;
      SwitchedRuns(walSize, directory, next, live);
      IsValid();
      Parts();
    }

    /** Files of other generations go. */
    method CleanUp() returns (ghost passed: seq<Disk>)
      requires Valid() && records.generation in directory.wals && records.generation in directory.snapshots
      modifies this`directory
      ensures Valid() && records.Held() && Contents() == old(Contents())
      ensures directory == OnlyGeneration(old(directory), records.generation)
      ensures forall d :: d in passed ==> Recovers(walSize, d, Contents())
      ensures Chain(DiskStep, old(OnDisk()), passed, OnDisk())
    {
      hide *;
      Parts();
      var g := records.generation;
      ghost var view := records.View();
      ghost var more;
      var cleaned;
      cleaned, more := RemoveOld(directory, g);
      CleaningRecovers(walSize, g, view, records.snapshotRecords, items, index, directory, more);
      CleaningChain(directory, g, more, cleaned, FilesOf(view));
      passed := CleaningImages(more, g, FilesOf(view));
      ShrunkRuns(walSize, g, view, records.snapshotRecords, items, index, directory, cleaned);
      directory := cleaned;
      IsValid();
      Parts();
    }

    /** Close: a checkpoint first, if it is asked for. What is left can be opened again. */
    method Close(syncOnClose: bool) returns (disk: Disk, ghost passed: seq<Disk>)
      requires Valid() && (syncOnClose ==> CanCheckpoint())
      modifies this, records.Repr
      ensures Recovers(walSize, disk, old(Contents()))
      ensures forall d :: d in passed ==> Recovers(walSize, d, old(Contents()))
      ensures Chain(DiskStep, old(OnDisk()), passed, disk)
      ensures walSize >= HEADER && if syncOnClose then
        && disk == Checkpointed(walSize, old(records.generation) + 1, items)
        && InKeyOrder(items) && SnapshotValues(items) == old(Contents())
      else disk == old(OnDisk())
    {
      hide *;
      Parts();
      passed := [];
      ChainNone(DiskStep, OnDisk());
      if syncOnClose {
        var r;
        r, passed := Checkpoint();
      }
      Parts();
      Durable();
      var files := records.FileBytes();
      disk := WithFiles(directory, records.generation, files);
    }

    // -------------------------------------------------------------------- opening

    /** Open: a directory whose manifest, snapshot and WAL headers load opens, and the store
        holds what it recovers; with the strict policy the WAL records have to be undamaged
        too. Opening an undamaged directory keeps it recovering the same map throughout, and so
        does repairing a damaged one, if no file behind the damaged one has records. */
    static method Open(walSize: nat, policy: ReplayPolicy, disk: Disk)
      returns (r: Result<Store>, ghost passed: seq<Disk>)
      requires disk.manifest.None? ==> FutureEmpty(disk)
      ensures r.Ok? <==> Loadable(walSize, disk) && (policy == Strict ==> AllFull(OpenView(walSize, DiskFiles(disk))))
      ensures r.Ok? ==> fresh(r.value) && fresh(r.value.records.Repr) && r.value.Valid() && r.value.walSize == walSize
      ensures r.Ok? ==> r.value.records.Held() && r.value.Contents() == Recovered(walSize, disk)
      ensures AllRecover(walSize, disk, passed)
      ensures r.Ok? && SafeToRepair(walSize, disk) ==> SameRecovered(walSize, disk, passed)
      ensures r.Ok? ==> Chain(DiskStep, disk, passed, r.value.OnDisk())
      ensures r.Ok? ==> r.value.OnDisk() == OpenedDisk(walSize, disk)
      ensures r.Ok? ==> DiskGeneration(disk) == Ok(r.value.records.generation) && DiskItems(disk) == Ok(r.value.items)
      ensures r.Err? ==> r == Err(OpenError(walSize, disk))
    {
      passed := [];
      hide *;
      OpenErrorIs(walSize, disk);
      if walSize < HEADER + RECORD_HEADER || walSize > OFFSET_LIMIT {
        NotSized(walSize, disk);
        return Err(InvalidArgument), passed;
      }
      WalSizeRange(walSize);
      var g := DiskGeneration(disk);
      if g.Err? {
        NotLoadable(walSize, disk);
        return Err(g.error), [];
      }
      ghost var files;
      var found;
      found, files := SegmentedRecordStore.Open(walSize, g.value, DiskFiles(disk));
      if found.Err? {
        NotLoadable(walSize, disk);
        return Err(found.error), [];
      }
      var records := found.value;
      HeldIs(records);
      OpeningSteps(walSize, disk, g.value, files, FilesOf(records.View()));
      files := WithDirectoryMade(disk, g.value, files);
      OpeningImages(walSize, disk, files);
      passed := FileImages(disk, g.value, files);
      ghost var mid := WithFiles(disk, g.value, FilesOf(records.View()));
      var snapshot := DiskItems(disk);
      if snapshot.Err? {
        NotLoadable(walSize, disk);
        return Err(snapshot.error), [];
      }
      LoadableBy(walSize, disk);
      OpeningReadsSame(walSize, disk, files);
      ghost var more;
      r, more := RecoverInto(walSize, policy, disk, records, snapshot.value);
      AllRecoverMore(walSize, disk, passed, more);
      SameRecoveredMore(walSize, disk, passed, more);
      if r.Ok? {
        ChainConcat(DiskStep, disk, passed, mid, more, r.value.OnDisk());
      }
      passed := passed + more;
    }

    /** The second half: the snapshot is loaded, the WAL files are replayed, and with a manifest
        the files of other generations go. */
    static method RecoverInto(walSize: nat, policy: ReplayPolicy, disk: Disk, records: SegmentedRecordStore,
                              items: seq<Item>)
      returns (r: Result<Store>, ghost passed: seq<Disk>)
      requires walSize >= HEADER && (disk.manifest.None? ==> FutureEmpty(disk))
      requires Loadable(walSize, disk) && DiskItems(disk) == Ok(items) && |items| <= MAX_ITEMS
      requires records.Valid() && records.View() == OpenView(walSize, DiskFiles(disk)) && records.walSize == walSize
      requires DiskGeneration(disk) == Ok(records.generation)
      requires records.snapshotRecords == [OwnedRecord([], [], false)]
      modifies records.Repr
      ensures r.Ok? <==> (policy == Strict ==> AllFull(OpenView(walSize, DiskFiles(disk))))
      ensures r.Ok? ==> fresh(r.value) && r.value.records == records && records.Repr == old(records.Repr)
      ensures r.Ok? ==> r.value.Valid() && r.value.walSize == walSize
      ensures r.Ok? ==> r.value.records.Held() && r.value.Contents() == Recovered(walSize, disk)
      ensures AllRecover(walSize, disk, passed)
      ensures SafeToRepair(walSize, disk) ==> SameRecovered(walSize, disk, passed)
      ensures r.Ok? ==>
        Chain(DiskStep, old(WithFiles(disk, records.generation, FilesOf(records.View()))), passed, r.value.OnDisk())
      ensures r.Ok? ==> r.value.OnDisk() == OpenedDisk(walSize, disk)
      ensures r.Ok? ==> DiskGeneration(disk) == Ok(r.value.records.generation) && r.value.items == items
      ensures r.Err? ==> r == Err(CorruptWal)
    {
      hide *;
      WalSizeOf(walSize, disk);
      HeldIs(records);
      NoSnapshotRecords();
      var g := records.generation;
      ghost var view0 := records.View();
      OpenedFits(records);
      var loaded := LoadSnapshotRecords(records, items);
      var index;
      ghost var cuts;
      index, cuts := records.ReplayAll(policy, loaded.value);
      if index.Err? {
        NotFullyRecovers(walSize, disk);
        NoImages(walSize, disk);
        return Err(index.error), [];
      }
      records.Undamaged();
      ghost var view := records.View();
      passed := ViewImages(disk, g, cuts + [view]);
      RepairSteps(disk, g, view0, cuts, view);
      IsAfterReplay(walSize, disk, g, view, items, index.value);
      ReplayImages(walSize, disk, g, cuts, view, items, index.value);
      var directory := disk;
      if disk.manifest.Some? {
        ghost var more;
        directory, more := RemoveOld(disk, g);
        CleaningOrNot(walSize, disk, g, view, items, index.value, more);
        AllRecoverMore(walSize, disk, passed, CleaningImages(more, g, FilesOf(view)));
        SameRecoveredMore(walSize, disk, passed, CleaningImages(more, g, FilesOf(view)));
        CleaningChain(disk, g, more, directory, FilesOf(view));
        ChainConcat(DiskStep, WithFiles(disk, g, FilesOf(view0)), passed, WithFiles(disk, g, FilesOf(view)),
                    CleaningImages(more, g, FilesOf(view)), WithFiles(directory, g, FilesOf(view)));
        passed := passed + CleaningImages(more, g, FilesOf(view));
        OnlyThis(disk, directory, g);
      }
      OpenedDiskIs(walSize, disk, g, directory, view);
      ReadsSame(walSize, disk, directory, g);
      OpenedRuns(walSize, directory, g, view, items, index.value);
      var store := new Store.Over(records, index.value, directory, items);
      store.Parts();
      return Ok(store), passed;
    }
  }

  /** LoadSnapshotRecords: item i becomes snapshot record i + 1 and is indexed there. */
  method LoadSnapshotRecords(records: SegmentedRecordStore, items: seq<Item>) returns (r: Result<Positions>)
    requires records.Valid() && records.Held() && records.snapshotRecords == SnapshotRecords([])
    modifies records
    ensures records.Valid() && records.Held() && records.Repr == old(records.Repr)
    ensures records.View() == old(records.View())
    ensures records.generation == old(records.generation)
    ensures r.Ok? <==> |items| <= MAX_ITEMS
    ensures r.Err? ==> r == Err(CorruptSnapshot)
    ensures r.Ok? ==> r.value == SnapshotIndex(items) && records.snapshotRecords == SnapshotRecords(items)
  {
    hide SegmentedRecordStore.Valid, SegmentedRecordStore.Held, SegmentedRecordStore.View, SnapshotIndex,
         IsSnapshotPosition;
    var index: Positions := map[];
    var i := 0;
    LoadedNone(items);
    while i < |items|
      invariant 0 <= i <= |items| && i <= MAX_ITEMS
      invariant records.Valid() && records.Held() && records.Repr == old(records.Repr)
      invariant records.View() == old(records.View())
      invariant records.generation == old(records.generation)
      invariant index == SnapshotIndex(items[..i]) && records.snapshotRecords == SnapshotRecords(items[..i])
    {
      var pos := records.AddSnapshotRecord(items[i].key, items[i].value);
      if pos.Err? {
        return Err(pos.error);
      }
      HeldIs(records);
      LoadedNext(items, i);
      index := index[items[i].key := pos.value];
      i := i + 1;
    }
    assert items[..|items|] == items;
    return Ok(index);
  }

  lemma HeldIs(records: SegmentedRecordStore)
    requires records.Valid()
    ensures records.Held()
  {
  }

  lemma LoadedNone(items: seq<Item>)
    ensures items[..0] == [] && SnapshotIndex(items[..0]) == map[]
  {
  }

  lemma LoadedNext(items: seq<Item>, i: nat)
    requires i < |items|
    ensures SnapshotIndex(items[..i + 1]) == SnapshotIndex(items[..i])[items[i].key := i + 1]
    ensures SnapshotRecords(items[..i + 1])
      == SnapshotRecords(items[..i]) + [OwnedRecord(items[i].key, items[i].value, true)]
  {
    assert items[..i + 1][..i] == items[..i];
  }

  // ------------------------------------------------------------- steps of the store

  lemma IndexGrows(index: Positions, key: Key, pos: Position)
    ensures |index[key := pos]| <= |index| + 1
  {
    var grown := index[key := pos];
    assert grown.Keys == index.Keys + {key};
    assert |grown| == |grown.Keys| && |index| == |index.Keys|;
  }

  lemma IndexShrinks(index: Positions, key: Key)
    ensures |index - {key}| <= |index|
    ensures key in index ==> (index - {key})[key := index[key]] == index
  {
    var less := index - {key};
    assert less.Keys == index.Keys - {key};
    assert |less| == |less.Keys| && |index| == |index.Keys|;
  }

  lemma NotThere(m: Values, key: Key)
    requires key !in m
    ensures m - {key} == m
  {
  }

  lemma HighestIs(view: map<nat, Segment>, id: nat)
    requires id in view && Below(view, id)
    ensures Highest(view, id)
  {
  }

  lemma FilesAgain(d: Disk, g: nat, files: Files, files2: Files)
    ensures WithFiles(WithFiles(d, g, files), g, files2) == WithFiles(d, g, files2)
  {
  }

  lemma SameGeneration(d: Disk, g: nat, files: Files)
    ensures DiskGeneration(WithFiles(d, g, files)) == DiskGeneration(d)
  {
  }

  /** What is found under the first number. */
  function FirstFile(files: Files): Bytes {
    if 1 in files then files[1] else []
  }

  lemma NoFirstFile()
    ensures FirstFile(map[]) == []
  {
  }

  /** The first WAL file of a generation on its way. */
  ghost function FirstFileImages(walSize: nat, d: Disk, next: nat): seq<Disk>
    requires walSize >= HEADER
  {
    [WithFiles(d, next, map[1 := []]), WithFiles(d, next, map[1 := ZeroFile(walSize)]),
     WithFiles(d, next, map[1 := NewSegment(ZeroFile(walSize)).data])]
  }

  lemma FirstFileChain(walSize: nat, d: Disk, next: nat)
    requires walSize >= HEADER && next in d.wals && d.wals[next] == map[]
    ensures Chain(DiskStep, d, FirstFileImages(walSize, d, next),
                  WithFiles(d, next, FilesOf(map[1 := NewSegment(ZeroFile(walSize))])))
  {
    hide ZeroFile, InitHeader, FileStep, DiskStep;
    var none: map<nat, Segment> := map[];
    RollChain(walSize, none, 1);
    FileImagesChain(d, next, map[], NewFiles(walSize, map[], 1), FilesOf(none[1 := NewSegment(ZeroFile(walSize))]));
    assert FilesOf(none) == map[] && WithFiles(d, next, map[]) == d;
    assert FileImages(d, next, NewFiles(walSize, map[], 1)) == FirstFileImages(walSize, d, next);
    assert none[1 := NewSegment(ZeroFile(walSize))] == map[1 := NewSegment(ZeroFile(walSize))];
  }

  lemma FirstFileRecovers(walSize: nat, d: Disk, next: nat, items: seq<Item>)
    requires HEADER + RECORD_HEADER <= walSize <= OFFSET_LIMIT && 0 < next < U64
    requires DiskGeneration(d) == Ok(next) && DiskItems(d) == Ok(items) && FutureEmpty(d)
    ensures forall p :: p in FirstFileImages(walSize, d, next) ==> Recovers(walSize, p, SnapshotValues(items))
  {
    hide DiskGeneration, DiskItems, FutureEmpty, Recovers, SnapshotValues, ZeroFile, NewSegment, WithFiles;
    ResetRecovers(walSize, d, next, items, []);
    ResetRecovers(walSize, d, next, items, ZeroFile(walSize));
    ResetRecovers(walSize, d, next, items, NewSegment(ZeroFile(walSize)).data);
  }

  lemma RunningFiles(d: Disk, g: nat, files: Files)
    requires DiskGeneration(d) == Ok(g)
    ensures DiskFiles(WithFiles(d, g, files)) == files
  {
  }

  lemma LoadableOf(walSize: nat, d: Disk, m: Values)
    requires Recovers(walSize, d, m)
    ensures Loadable(walSize, d)
  {
  }

  lemma MeaningIs(items: seq<Item>, view: map<nat, Segment>)
    ensures Meaning(items, view) == Mean(SnapshotValues(items), WholeLog(view))
  {
  }

  /** The images of an opening, when the directory is undamaged. */
  ghost predicate AllRecover(walSize: nat, disk: Disk, images: seq<Disk>) {
    forall m, d :: Recovers(walSize, disk, m) && d in images ==> Recovers(walSize, d, m)
  }

  lemma AllRecoverMore(walSize: nat, disk: Disk, a: seq<Disk>, b: seq<Disk>)
    requires AllRecover(walSize, disk, a) && AllRecover(walSize, disk, b)
    ensures AllRecover(walSize, disk, a + b)
  {
    hide Recovers;
  }

  lemma NotLoadable(walSize: nat, disk: Disk)
    requires HEADER + RECORD_HEADER <= walSize
    requires DiskGeneration(disk).Err? || DiskItems(disk).Err? || !Opens(walSize, DiskFiles(disk))
    ensures !Loadable(walSize, disk) && (forall m :: !Recovers(walSize, disk, m)) && AllRecover(walSize, disk, [])
  {
    hide DiskGeneration, DiskItems, DiskFiles, Opens;
  }

  lemma LoadableBy(walSize: nat, disk: Disk)
    requires HEADER + RECORD_HEADER <= walSize <= OFFSET_LIMIT
    requires DiskGeneration(disk).Ok? && DiskItems(disk).Ok? && Opens(walSize, DiskFiles(disk))
    ensures Loadable(walSize, disk) && |DiskItems(disk).value| <= MAX_ITEMS
  {
    hide DiskGeneration, DiskItems, DiskFiles, Opens;
    DiskItemsCount(disk);
  }

  lemma NotFullyRecovers(walSize: nat, disk: Disk)
    requires Loadable(walSize, disk) && walSize >= HEADER && !AllFull(OpenView(walSize, DiskFiles(disk)))
    ensures (forall m :: !Recovers(walSize, disk, m)) && AllRecover(walSize, disk, [])
  {
    hide DiskGeneration, DiskItems, DiskFiles, OpenView, AllFull;
  }

  lemma WalSizeOf(walSize: nat, disk: Disk)
    requires Loadable(walSize, disk)
    ensures HEADER + RECORD_HEADER <= walSize <= OFFSET_LIMIT && Opens(walSize, DiskFiles(disk))
  {
  }

  lemma NoSnapshotRecords()
    ensures SnapshotRecords([]) == [OwnedRecord([], [], false)]
  {
  }

  lemma OpeningImages(walSize: nat, disk: Disk, passed: seq<Files>)
    requires HEADER + RECORD_HEADER <= walSize && DiskGeneration(disk).Ok? && Opens(walSize, DiskFiles(disk))
    requires forall f :: f in passed ==> Opens(walSize, f) && OpenView(walSize, f) == OpenView(walSize, DiskFiles(disk))
    ensures AllRecover(walSize, disk, FileImages(disk, DiskGeneration(disk).value, passed))
  {
    hide Recovers, DiskGeneration, DiskFiles, Opens, OpenView, WithFiles;
    var g := DiskGeneration(disk).value;
    forall m, d | Recovers(walSize, disk, m) && d in FileImages(disk, g, passed) ensures Recovers(walSize, d, m) {
      var i :| 0 <= i < |passed| && d == WithFiles(disk, g, passed[i]);
      OpeningRecovers(walSize, disk, m, passed[i]);
    }
  }

  lemma SwitchedIs(d: Disk, next: nat, items: seq<Item>)
    ensures Switched(d, next, items) == WithManifest(WithDirectory(WithSnapshot(d, next, items), next), next)
    ensures next in Switched(d, next, items).snapshots
  {
  }

  lemma OnlyThis(d: Disk, d2: Disk, keep: nat)
    requires d2 == OnlyGeneration(d, keep)
    ensures d2.wals.Keys <= {keep}
  {
  }

  /** The directory after it was opened: what a replay leaves of the WAL files, and with a manifest
      nothing of other generations. */
  ghost function OpenedDisk(walSize: nat, d: Disk): Disk
    requires Loadable(walSize, d)
  {
    var g := DiskGeneration(d).value;
    var view := RepairedView(OpenView(walSize, DiskFiles(d)));
    WithFiles(if d.manifest.Some? then OnlyGeneration(d, g) else d, g, FilesOf(view))
  }

  /** With a manifest, nothing of other generations is left after opening. */
  lemma OpenedClean(walSize: nat, d: Disk)
    requires Loadable(walSize, d) && d.manifest.Some?
    ensures var g, d2 := DiskGeneration(d).value, OpenedDisk(walSize, d);
      && d2.manifest == d.manifest && d2.wals.Keys == d2.snapshots.Keys == {g}
      && d2.snapshots[g] == d.snapshots[g]
  {
    hide DecodeManifest, DecodeSnapshot, Opens, OpenView, RepairedView, FilesOf;
  }

  /** An empty directory opens to the empty store in generation 1, with one empty WAL file. */
  lemma EmptyDirectory(walSize: nat)
    requires HEADER + RECORD_HEADER <= walSize <= OFFSET_LIMIT
    ensures var d := Disk(None, map[], map[]);
      && DiskGeneration(d) == Ok(1) && Recovers(walSize, d, map[])
      && OpenedDisk(walSize, d) == Disk(None, map[], map[1 := map[1 := NewSegment(ZeroFile(walSize)).data]])
  {
    hide Shows, Recovered, RepairedView, NewSegment, ZeroFile, Full, WholeLog;
    var d := Disk(None, map[], map[]);
    EmptyShows(walSize);
    RecoversBy(walSize, d, [], []);
    assert Mean(SnapshotValues([]), []) == map[];
    assert OpenView(walSize, DiskFiles(d)) == map[1 := NewSegment(ZeroFile(walSize))];
    NewIsFull(1, ZeroFile(walSize));
    NothingRepaired(map[1 := NewSegment(ZeroFile(walSize))]);
    assert FilesOf(map[1 := NewSegment(ZeroFile(walSize))]) == map[1 := NewSegment(ZeroFile(walSize)).data];
  }

  lemma OpenedDiskIs(walSize: nat, d: Disk, g: nat, directory: Disk, view: map<nat, Segment>)
    requires Loadable(walSize, d) && DiskGeneration(d) == Ok(g) && walSize >= HEADER && Opens(walSize, DiskFiles(d))
    requires view == RepairedView(OpenView(walSize, DiskFiles(d)))
    requires directory == if d.manifest.Some? then OnlyGeneration(d, g) else d
    ensures WithFiles(directory, g, FilesOf(view)) == OpenedDisk(walSize, d)
  {
    hide DiskGeneration, DiskFiles, DiskItems, Opens, OpenView, RepairedView, FilesOf, OnlyGeneration, WithFiles;
  }

  /** Why a directory does not open: the first of the things it reads that are not in order. */
  ghost function OpenError(walSize: nat, d: Disk): Error {
    if walSize < HEADER + RECORD_HEADER || walSize > OFFSET_LIMIT then InvalidArgument
    else if DiskGeneration(d).Err? then DiskGeneration(d).error
    else if !Opens(walSize, DiskFiles(d)) then CorruptWal
    else if DiskItems(d).Err? then DiskItems(d).error
    else CorruptWal
  }

  lemma OpenErrorIs(walSize: nat, d: Disk)
    ensures walSize < HEADER + RECORD_HEADER || walSize > OFFSET_LIMIT ==> OpenError(walSize, d) == InvalidArgument
    ensures HEADER + RECORD_HEADER <= walSize <= OFFSET_LIMIT && walSize >= HEADER ==>
      && (DiskGeneration(d).Err? ==> OpenError(walSize, d) == DiskGeneration(d).error)
      && (DiskGeneration(d).Ok? && !Opens(walSize, DiskFiles(d)) ==> OpenError(walSize, d) == CorruptWal)
      && (DiskGeneration(d).Ok? && Opens(walSize, DiskFiles(d)) ==>
            OpenError(walSize, d) == if DiskItems(d).Err? then DiskItems(d).error else CorruptWal)
  {
    hide DiskGeneration, DiskFiles, DiskItems, Opens;
  }

  lemma NotSized(walSize: nat, d: Disk)
    requires walSize < HEADER + RECORD_HEADER || walSize > OFFSET_LIMIT
    ensures !Loadable(walSize, d) && AllRecover(walSize, d, [])
  {
    hide DiskGeneration, DiskFiles, DiskItems, Opens, Recovers;
  }

  /** What a replay of an opened directory leaves. */
  ghost predicate AfterReplay(walSize: nat, d: Disk, g: nat, view: map<nat, Segment>, items: seq<Item>,
                              index: Positions) {
    && HEADER + RECORD_HEADER <= walSize <= OFFSET_LIMIT && Opens(walSize, DiskFiles(d))
    && DiskGeneration(d) == Ok(g) && DiskItems(d) == Ok(items)
    && AllFull(view) && Sized(walSize, view) && WholeLog(view) == Kept(OpenView(walSize, DiskFiles(d)), 0, FILE_LIMIT)
    && index == Play(SnapshotIndex(items), WholeLog(view))
  }

  lemma IsAfterReplay(walSize: nat, d: Disk, g: nat, view: map<nat, Segment>, items: seq<Item>, index: Positions)
    requires HEADER + RECORD_HEADER <= walSize <= OFFSET_LIMIT && Opens(walSize, DiskFiles(d))
    requires DiskGeneration(d) == Ok(g) && DiskItems(d) == Ok(items)
    requires AllFull(view) && Sized(walSize, view)
    requires WholeLog(view) == Kept(OpenView(walSize, DiskFiles(d)), 0, FILE_LIMIT)
    requires index == Play(SnapshotIndex(items), WholeLog(view))
    ensures AfterReplay(walSize, d, g, view, items, index)
  {
  }

  /** The directories behind segments on the way. */
  ghost function ViewImages(d: Disk, generation: nat, views: seq<map<nat, Segment>>): (s: seq<Disk>) {
    seq(|views|, i requires 0 <= i < |views| => WithFiles(d, generation, FilesOf(views[i])))
  }

  /** A directory whose repair may be interrupted anywhere: it is undamaged, or no file behind
      the damaged one has a record to replay. */
  ghost predicate SafeToRepair(walSize: nat, d: Disk) {
    Loadable(walSize, d) ==>
      var view := OpenView(walSize, DiskFiles(d));
      Cut(view, 0, FILE_LIMIT) < FILE_LIMIT ==> EmptyBehind(view, Cut(view, 0, FILE_LIMIT))
  }

  /** Directories from which the same map is recovered, damaged or not. */
  ghost predicate SameRecovered(walSize: nat, disk: Disk, images: seq<Disk>) {
    && Loadable(walSize, disk)
    && forall d :: d in images ==> Loadable(walSize, d) && Recovered(walSize, d) == Recovered(walSize, disk)
  }

  lemma SameRecoveredMore(walSize: nat, disk: Disk, a: seq<Disk>, b: seq<Disk>)
    ensures SameRecovered(walSize, disk, a) && SameRecovered(walSize, disk, b) ==> SameRecovered(walSize, disk, a + b)
  {
    hide Loadable, Recovered;
  }

  lemma NoImages(walSize: nat, disk: Disk)
    requires Loadable(walSize, disk)
    ensures SameRecovered(walSize, disk, [])
  {
  }

  lemma OpenedFits(records: SegmentedRecordStore)
    requires records.Valid()
    ensures records.Held() && AllLoaded(records.View()) && Sized(records.walSize, records.View())
  {
    records.ViewMeans();
  }

  lemma OpeningReadsSame(walSize: nat, disk: Disk, passed: seq<Files>)
    requires Loadable(walSize, disk) && walSize >= HEADER && Opens(walSize, DiskFiles(disk)) && DiskGeneration(disk).Ok?
    requires forall f :: f in passed ==> Opens(walSize, f) && OpenView(walSize, f) == OpenView(walSize, DiskFiles(disk))
    ensures SameRecovered(walSize, disk, FileImages(disk, DiskGeneration(disk).value, passed))
  {
    hide Recovered, Opens, OpenView;
    var g := DiskGeneration(disk).value;
    forall d | d in FileImages(disk, g, passed)
      ensures Loadable(walSize, d) && Recovered(walSize, d) == Recovered(walSize, disk)
    {
      var i :| 0 <= i < |passed| && d == WithFiles(disk, g, passed[i]);
      SameParts(walSize, disk, d);
    }
  }

  /** The recovered map depends on the snapshot and the replayed log alone. */
  lemma SameParts(walSize: nat, d: Disk, d2: Disk)
    requires Loadable(walSize, d) && DiskGeneration(d2).Ok? && DiskItems(d2) == DiskItems(d)
    requires Opens(walSize, DiskFiles(d2))
    requires Kept(OpenView(walSize, DiskFiles(d2)), 0, FILE_LIMIT)
      == Kept(OpenView(walSize, DiskFiles(d)), 0, FILE_LIMIT)
    ensures Loadable(walSize, d2) && Recovered(walSize, d2) == Recovered(walSize, d)
  {
    hide DiskGeneration, DiskItems, DiskFiles, Opens, OpenView, Kept;
  }

  /** Segments that replay to the same log are found again in their files. */
  lemma ViewRecovers(walSize: nat, disk: Disk, d2: Disk, g: nat, view: map<nat, Segment>)
    requires Loadable(walSize, disk) && DiskGeneration(d2) == Ok(g) && DiskItems(d2) == DiskItems(disk)
    requires AllLoaded(view) && Sized(walSize, view)
    requires Kept(view, 0, FILE_LIMIT) == Kept(OpenView(walSize, DiskFiles(disk)), 0, FILE_LIMIT)
    ensures var d := WithFiles(d2, g, FilesOf(view));
      Loadable(walSize, d) && Recovered(walSize, d) == Recovered(walSize, disk)
  {
    hide Opens, OpenView, Kept, AllLoaded, Loadable, Recovered;
    LoadableSize(walSize, disk);
    FoundAgain(walSize, view);
    SameParts(walSize, disk, WithFiles(d2, g, FilesOf(view)));
  }

  lemma LoadableSize(walSize: nat, disk: Disk)
    requires Loadable(walSize, disk)
    ensures HEADER + RECORD_HEADER <= walSize <= OFFSET_LIMIT
  {
  }

  /** The views of an interrupted repair. */
  lemma CutsRecover(walSize: nat, disk: Disk, g: nat, cuts: seq<map<nat, Segment>>, last: map<nat, Segment>)
    requires Loadable(walSize, disk) && SafeToRepair(walSize, disk) && DiskGeneration(disk) == Ok(g)
    requires AllLoaded(OpenView(walSize, DiskFiles(disk))) && Sized(walSize, OpenView(walSize, DiskFiles(disk)))
    requires Cutting(OpenView(walSize, DiskFiles(disk)), cuts, last)
    ensures SameRecovered(walSize, disk, ViewImages(disk, g, cuts))
  {
    hide *;
    SafeMeans(walSize, disk);
    var view := OpenView(walSize, DiskFiles(disk));
    CuttingMeans(view, cuts, last);
    var c := Cut(view, 0, FILE_LIMIT);
    ImagesBy(walSize, disk, g, cuts);
    forall i | 0 <= i < |cuts| ensures ImageSame(walSize, disk, g, cuts[i]) {
      CutRecovers(walSize, disk, g, view, c, c + 1 + i);
    }
  }

  lemma CutRecovers(walSize: nat, disk: Disk, g: nat, view: map<nat, Segment>, c: nat, n: nat)
    requires Loadable(walSize, disk) && DiskGeneration(disk) == Ok(g) && walSize >= HEADER
    requires Opens(walSize, DiskFiles(disk))
    requires view == OpenView(walSize, DiskFiles(disk)) && AllLoaded(view) && Sized(walSize, view)
    requires c == Cut(view, 0, FILE_LIMIT) < n <= FILE_LIMIT && EmptyBehind(view, c) && c in view && Loaded(view[c])
    ensures ImageSame(walSize, disk, g, Dropped(view, c, n))
  {
    hide *;
    CrashInsideRecovery(walSize, view);
    DroppedFits(walSize, view, c, n);
    ViewRecovers(walSize, disk, disk, g, Dropped(view, c, n));
    IsImageSame(walSize, disk, g, Dropped(view, c, n));
  }

  ghost predicate ImageSame(walSize: nat, disk: Disk, g: nat, view: map<nat, Segment>) {
    SameRecovered(walSize, disk, [WithFiles(disk, g, FilesOf(view))])
  }

  lemma IsImageSame(walSize: nat, disk: Disk, g: nat, view: map<nat, Segment>)
    requires var d := WithFiles(disk, g, FilesOf(view));
      Loadable(walSize, disk) && Loadable(walSize, d) && Recovered(walSize, d) == Recovered(walSize, disk)
    ensures ImageSame(walSize, disk, g, view)
  {
    hide Loadable, Recovered, WithFiles, FilesOf;
  }

  lemma ImagesBy(walSize: nat, disk: Disk, g: nat, views: seq<map<nat, Segment>>)
    requires Loadable(walSize, disk)
    ensures (forall i :: 0 <= i < |views| ==> ImageSame(walSize, disk, g, views[i])) ==>
      SameRecovered(walSize, disk, ViewImages(disk, g, views))
  {
    hide Loadable, Recovered, WithFiles, FilesOf;
    if forall i :: 0 <= i < |views| ==> ImageSame(walSize, disk, g, views[i]) {
      forall d | d in ViewImages(disk, g, views)
        ensures Loadable(walSize, d) && Recovered(walSize, d) == Recovered(walSize, disk)
      {
        var i :| 0 <= i < |views| && d == WithFiles(disk, g, FilesOf(views[i]));
        assert ImageSame(walSize, disk, g, views[i]);
        assert d in [WithFiles(disk, g, FilesOf(views[i]))];
      }
    }
  }

  lemma CuttingMeans(view: map<nat, Segment>, cuts: seq<map<nat, Segment>>, last: map<nat, Segment>)
    requires Cutting(view, cuts, last)
    ensures var c := Cut(view, 0, FILE_LIMIT);
      && c < FILE_LIMIT && c in view && Loaded(view[c]) && c + |cuts| <= FILE_LIMIT
      && forall i :: 0 <= i < |cuts| ==> cuts[i] == Dropped(view, c, c + 1 + i)
  {
    hide Cut, Dropped, Loaded;
  }

  lemma SafeMeans(walSize: nat, disk: Disk)
    requires Loadable(walSize, disk) && SafeToRepair(walSize, disk)
    ensures walSize >= HEADER && Opens(walSize, DiskFiles(disk))
    ensures var view := OpenView(walSize, DiskFiles(disk));
      Cut(view, 0, FILE_LIMIT) < FILE_LIMIT ==> EmptyBehind(view, Cut(view, 0, FILE_LIMIT))
  {
    hide DiskGeneration, DiskItems, DiskFiles, Cut, EmptyBehind;
  }

  /** All directories of a replay. */
  lemma ReplayImages(walSize: nat, disk: Disk, g: nat, cuts: seq<map<nat, Segment>>, view: map<nat, Segment>,
                     items: seq<Item>, index: Positions)
    requires Loadable(walSize, disk) && AfterReplay(walSize, disk, g, view, items, index)
    requires var view0 := OpenView(walSize, DiskFiles(disk));
      && AllLoaded(view0) && Sized(walSize, view0)
      && (if AllFull(view0) then cuts == [] else Cutting(view0, cuts, view))
    ensures AllRecover(walSize, disk, ViewImages(disk, g, cuts + [view]))
    ensures SafeToRepair(walSize, disk) ==> SameRecovered(walSize, disk, ViewImages(disk, g, cuts + [view]))
  {
    hide Recovered, DiskItems, DiskGeneration, DiskFiles, OpenView, Opens, Full, Play, WithFiles, Running, FilesOf,
         Recovers, SameRecovered, AllRecover, Cutting, SafeToRepair, Sized, Kept, AfterReplay, Loadable;
    RunsOrNot(walSize, disk, g, view, items, index);
    EndRecovers(walSize, disk, g, view, items, index);
    assert ViewImages(disk, g, cuts + [view]) == ViewImages(disk, g, cuts) + [WithFiles(disk, g, FilesOf(view))];
    GenerationAfter(walSize, disk, g, view, items, index);
    if AllFull(OpenView(walSize, DiskFiles(disk))) {
      assert ViewImages(disk, g, cuts) == [];
      assert [] + [WithFiles(disk, g, FilesOf(view))] == [WithFiles(disk, g, FilesOf(view))];
    } else {
      NotFullyRecovers(walSize, disk);
      NobodyRecovers(walSize, disk, ViewImages(disk, g, cuts + [view]));
      if SafeToRepair(walSize, disk) {
        CutsRecover(walSize, disk, g, cuts, view);
        SameRecoveredMore(walSize, disk, ViewImages(disk, g, cuts), [WithFiles(disk, g, FilesOf(view))]);
      }
    }
  }

  /** The WAL directory is made first, if it is missing. */
  ghost function WithDirectoryMade(d: Disk, g: nat, passed: seq<Files>): seq<Files> {
    if g in d.wals then passed else [map[]] + passed
  }

  lemma OpeningSteps(walSize: nat, d: Disk, g: nat, passed: seq<Files>, last: Files)
    requires DiskGeneration(d) == Ok(g) && Chain(FileStep, DiskFiles(d), passed, last)
    ensures Chain(DiskStep, d, FileImages(d, g, WithDirectoryMade(d, g, passed)), WithFiles(d, g, last))
    ensures g !in d.wals ==> DiskFiles(d) == map[]
    ensures forall f :: f in WithDirectoryMade(d, g, passed) ==> f in passed || f == DiskFiles(d)
  {
    hide *;
    FileImagesChain(d, g, DiskFiles(d), passed, last);
    DirectoryFiles(d, g, passed);
    if g !in d.wals {
      MakeDirectoryStep(d, g);
      ChainOne(DiskStep, d, WithFiles(d, g, map[]));
      ChainConcat(DiskStep, d, [WithFiles(d, g, map[])], WithFiles(d, g, map[]), FileImages(d, g, passed),
                  WithFiles(d, g, last));
    }
  }

  lemma DirectoryFiles(d: Disk, g: nat, passed: seq<Files>)
    requires DiskGeneration(d) == Ok(g)
    ensures g in d.wals ==> WithFiles(d, g, DiskFiles(d)) == d && WithDirectoryMade(d, g, passed) == passed
    ensures g !in d.wals ==> DiskFiles(d) == map[] && WithDirectoryMade(d, g, passed) == [map[]] + passed
    ensures FileImages(d, g, [map[]] + passed) == [WithFiles(d, g, map[])] + FileImages(d, g, passed)
  {
    hide DiskGeneration;
  }

  lemma MakeDirectoryStep(d: Disk, g: nat)
    requires g !in d.wals
    ensures DiskStep(d, WithFiles(d, g, map[]))
  {
    assert After(d, MakeDirectory(g)) == Some(WithFiles(d, g, map[]));
  }

  /** The single steps of a replay. */
  lemma RepairSteps(d: Disk, g: nat, view0: map<nat, Segment>, cuts: seq<map<nat, Segment>>, view: map<nat, Segment>)
    requires AllLoaded(view0) && if AllFull(view0) then cuts == [] && view == view0 else Cutting(view0, cuts, view)
    ensures
      Chain(DiskStep, WithFiles(d, g, FilesOf(view0)), ViewImages(d, g, cuts + [view]), WithFiles(d, g, FilesOf(view)))
  {
    hide FileStep, DiskStep, Cutting, FilesOf, WithFiles, Loaded, Full, AllFull, AllLoaded;
    var f0, f := FilesOf(view0), FilesOf(view);
    if AllFull(view0) {
      ChainNone(FileStep, f0);
    } else {
      CuttingChain(view0, cuts, view);
    }
    assert ViewFiles([]) == [];
    SameFile(f, 0);
    ChainSnoc(FileStep, f0, ViewFiles(cuts), f, f);
    FileImagesChain(d, g, f0, ViewFiles(cuts) + [f], f);
    assert FileImages(d, g, ViewFiles(cuts) + [f]) == ViewImages(d, g, cuts + [view]);
  }

  lemma NobodyRecovers(walSize: nat, disk: Disk, images: seq<Disk>)
    requires forall m :: !Recovers(walSize, disk, m)
    ensures AllRecover(walSize, disk, images)
  {
    hide Recovers;
  }

  lemma GenerationAfter(walSize: nat, d: Disk, g: nat, view: map<nat, Segment>, items: seq<Item>, index: Positions)
    requires AfterReplay(walSize, d, g, view, items, index)
    ensures DiskGeneration(d) == Ok(g) && DiskItems(d) == Ok(items) && AllFull(view) && Sized(walSize, view)
    ensures walSize >= HEADER && Opens(walSize, DiskFiles(d))
    ensures WholeLog(view) == Kept(OpenView(walSize, DiskFiles(d)), 0, FILE_LIMIT)
  {
  }

  /** The files after a replay show what was replayed. */
  lemma EndRecovers(walSize: nat, disk: Disk, g: nat, view: map<nat, Segment>, items: seq<Item>, index: Positions)
    requires Loadable(walSize, disk) && AfterReplay(walSize, disk, g, view, items, index)
    ensures SameRecovered(walSize, disk, [WithFiles(disk, g, FilesOf(view))])
  {
    hide Recovered, DiskItems, DiskGeneration, DiskFiles, OpenView, Opens, Full, WithFiles, FilesOf, Kept,
         AfterReplay, Loadable, Loaded, WholeLog;
    GenerationAfter(walSize, disk, g, view, items, index);
    AllFullLoaded(view);
    KeptWhole(view);
    ViewRecovers(walSize, disk, disk, g, view);
  }

  lemma KeptWhole(view: map<nat, Segment>)
    requires AllFull(view)
    ensures Kept(view, 0, FILE_LIMIT) == WholeLog(view)
  {
    AllKept(view, FILE_LIMIT);
  }

  /** After the replay of an undamaged directory its files are as they were opened. */
  lemma RunsOrNot(walSize: nat, disk: Disk, g: nat, view: map<nat, Segment>, items: seq<Item>, index: Positions)
    requires AfterReplay(walSize, disk, g, view, items, index)
    ensures AllRecover(walSize, disk, [WithFiles(disk, g, FilesOf(view))])
  {
    hide Recovered, DiskItems, DiskGeneration, DiskFiles, OpenView, Opens, Full, Play, WithFiles, Running, FilesOf;
    forall m | Recovers(walSize, disk, m) ensures Recovers(walSize, WithFiles(disk, g, FilesOf(view)), m) {
      OpenedRuns(walSize, disk, g, view, items, index);
      RunningShows(walSize, view);
      RunningRecovers(walSize, g, view, SnapshotRecords(items), items, index, disk, FilesOf(view), WholeLog(view));
    }
  }

  lemma CleaningSame(walSize: nat, disk: Disk, g: nat, view: map<nat, Segment>, items: seq<Item>, index: Positions,
                     more: seq<Disk>)
    requires AfterReplay(walSize, disk, g, view, items, index)
    requires Loadable(walSize, disk) && forall p :: p in more ==> Shrunk(disk, p, g)
    ensures SameRecovered(walSize, disk, CleaningImages(more, g, FilesOf(view)))
  {
    hide Recovered, DiskItems, DiskGeneration, DiskFiles, OpenView, Opens, Full, WithFiles, FilesOf, Kept,
         AfterReplay, Loadable, Loaded, WholeLog, Shrunk;
    GenerationAfter(walSize, disk, g, view, items, index);
    AllFullLoaded(view);
    KeptWhole(view);
    forall i | 0 <= i < |more|
      ensures var d := WithFiles(more[i], g, FilesOf(view));
        Loadable(walSize, d) && Recovered(walSize, d) == Recovered(walSize, disk)
    {
      ShrunkReads(disk, more[i], g);
      ViewRecovers(walSize, disk, more[i], g, view);
    }
  }

  lemma CleaningOrNot(walSize: nat, disk: Disk, g: nat, view: map<nat, Segment>, items: seq<Item>, index: Positions,
                      more: seq<Disk>)
    requires AfterReplay(walSize, disk, g, view, items, index)
    requires Loadable(walSize, disk) && forall p :: p in more ==> Shrunk(disk, p, g)
    ensures AllRecover(walSize, disk, CleaningImages(more, g, FilesOf(view)))
    ensures SameRecovered(walSize, disk, CleaningImages(more, g, FilesOf(view)))
  {
    CleaningSame(walSize, disk, g, view, items, index, more);
    hide Recovered, DiskItems, DiskGeneration, DiskFiles, OpenView, Opens, Full, Play, CleaningImages, Shrunk,
         Running, FilesOf;
    forall m | Recovers(walSize, disk, m)
      ensures forall p :: p in CleaningImages(more, g, FilesOf(view)) ==> Recovers(walSize, p, m)
    {
      OpenedRuns(walSize, disk, g, view, items, index);
      CleaningRecovers(walSize, g, view, SnapshotRecords(items), items, index, disk, more);
    }
  }

  lemma ReadsSame(walSize: nat, d: Disk, d2: Disk, g: nat)
    requires DiskGeneration(d) == Ok(g) && Loadable(walSize, d)
    requires d.manifest.Some? ==> Shrunk(d, d2, g) && d2.wals.Keys <= {g}
    requires d.manifest.None? ==> d2 == d && FutureEmpty(d)
    ensures DiskGeneration(d2) == Ok(g) && DiskItems(d2) == DiskItems(d) && DiskFiles(d2) == DiskFiles(d)
    ensures FutureEmpty(d2) && Loadable(walSize, d2) && Recovered(walSize, d2) == Recovered(walSize, d)
  {
    hide DiskGeneration, DiskItems, DiskFiles, Shrunk, OpenView, Opens;
    if d.manifest.Some? {
      ShrunkReads(d, d2, g);
    }
  }
}
