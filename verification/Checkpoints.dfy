/** The steps of a checkpoint and of opening a directory: after each of them the
    directory recovers to the same key-value map. */
module Checkpoints {
  import opened Wrappers
  import opened Codec
  import opened WalFormat
  import opened WalSegments
  import opened WalLog
  import opened WalFiles
  import opened CheckpointFiles
  import opened Recovery
  import opened Disks
  import opened LiveItems
  import opened StoreState
  import opened Sequences

  /** The directory with a finished snapshot of the next generation. */
  function WithSnapshot(d: Disk, next: nat, items: seq<Item>): Disk {
    d.(snapshots := d.snapshots[next := EncodeSnapshot(next, items)])
  }

  /** The directory of the next WAL generation was created, if it was missing. */
  function WithDirectory(d: Disk, next: nat): Disk {
    if next in d.wals then d else d.(wals := d.wals[next := map[]])
  }

  /** The manifest was switched. */
  function WithManifest(d: Disk, next: nat): Disk {
    d.(manifest := Some(EncodeManifest(next)))
  }

  /** The three steps before the store itself switches. */
  function Switched(d: Disk, next: nat, items: seq<Item>): Disk {
    WithManifest(WithDirectory(WithSnapshot(d, next, items), next), next)
  }

  /** The directory that a checkpoint leaves: the manifest names the generation, its snapshot holds
      the live items, its only WAL file is empty, and there is nothing else. */
  ghost function Checkpointed(walSize: nat, generation: nat, live: seq<Item>): Disk
    requires walSize >= HEADER
  {
    Disk(Some(EncodeManifest(generation)), map[generation := EncodeSnapshot(generation, live)],
         map[generation := map[1 := NewSegment(ZeroFile(walSize)).data]])
  }

  lemma CheckpointedIs(walSize: nat, d: Disk, next: nat, live: seq<Item>)
    requires walSize >= HEADER
    ensures var d2 := OnlyGeneration(Switched(d, next, live), next);
      WithFiles(d2, next, FilesOf(map[1 := NewSegment(ZeroFile(walSize))])) == Checkpointed(walSize, next, live)
  {
    hide NewSegment, ZeroFile, EncodeManifest, EncodeSnapshot;
    var d2 := WithFiles(OnlyGeneration(Switched(d, next, live), next), next,
                        FilesOf(map[1 := NewSegment(ZeroFile(walSize))]));
    var d3 := Checkpointed(walSize, next, live);
    assert d2.snapshots == d3.snapshots;
    assert d2.wals == d3.wals by {
      assert FilesOf(map[1 := NewSegment(ZeroFile(walSize))]) == map[1 := NewSegment(ZeroFile(walSize)).data];
    }
  }

  /** Snapshot, directory and manifest of the next generation: every directory on the way
      recovers the map, and the last one starts from the snapshot with an empty log. */
  lemma SwitchingRecovers(walSize: nat, d: Disk, next: nat, items: seq<Item>, m: Values)
    requires Recovers(walSize, d, m) && DiskGeneration(d) == Ok(next - 1) && next < U64
    requires |items| <= MAX_ITEMS && Storable(items) && SnapshotValues(items) == m
    ensures Recovers(walSize, WithSnapshot(d, next, items), m)
    ensures Recovers(walSize, WithDirectory(WithSnapshot(d, next, items), next), m)
    ensures var d3 := Switched(d, next, items);
      && Recovers(walSize, d3, m) && DiskGeneration(d3) == Ok(next) && DiskItems(d3) == Ok(items)
      && FutureEmpty(d3) && next in d3.wals && d3.wals[next] == map[]
  {
    hide EncodeManifest, EncodeSnapshot, DecodeManifest, DecodeSnapshot, SnapshotValues, Recovered, OpenView, Opens;
    var d1 := WithSnapshot(d, next, items);
    var d2 := WithDirectory(d1, next);
    SnapshotAppears(walSize, d, next, EncodeSnapshot(next, items), m);
    DirectoryAppears(walSize, d1, next, m);
    ManifestSwitches(walSize, d2, next, items);
  }

  /** The single steps of the switch. */
  lemma SwitchingSteps(d: Disk, next: nat, items: seq<Item>)
    ensures var d1, d2 := WithSnapshot(d, next, items), WithDirectory(WithSnapshot(d, next, items), next);
      Chain(DiskStep, d, [d1, d2, Switched(d, next, items)], Switched(d, next, items))
  {
    hide EncodeManifest, EncodeSnapshot;
    var d1 := WithSnapshot(d, next, items);
    var d2 := WithDirectory(d1, next);
    assert After(d, RenameSnapshot(next, items)) == Some(d1);
    assert next !in d1.wals ==> After(d1, MakeDirectory(next)) == Some(d2);
    assert After(d2, RenameManifest(next)) == Some(Switched(d, next, items));
    assert DiskStep(d, d1) && DiskStep(d1, d2) && DiskStep(d2, Switched(d, next, items));
  }

  /** A checkpoint does not look at the number of items, but reading its snapshot does: the
      directory it leaves can be opened exactly when there are not too many of them. */
  lemma SwitchedLoads(walSize: nat, d: Disk, next: nat, items: seq<Item>, m: Values)
    requires Recovers(walSize, d, m) && DiskGeneration(d) == Ok(next - 1) && next < U64
    requires |items| < U64 && Storable(items) && SnapshotValues(items) == m
    ensures Loadable(walSize, Switched(d, next, items)) <==> |items| <= MAX_ITEMS
  {
    hide EncodeManifest, EncodeSnapshot, DecodeManifest, SnapshotValues, Recovered, OpenView, Opens;
    if |items| <= MAX_ITEMS {
      hide DecodeSnapshot;
      SwitchingRecovers(walSize, d, next, items, m);
    } else {
      ManifestRoundTrip(next);
      TooManyItems(next, items);
    }
  }

  lemma TooManyItems(generation: nat, items: seq<Item>)
    requires 0 < generation < U64 && MAX_ITEMS < |items| < U64 && Storable(items)
    ensures DecodeSnapshot(EncodeSnapshot(generation, items), generation).Err?
  {
    hide Store, Load, EncodeItems, DecodeItems, EncodeSnapshot;
    WordRange();
    LoadStore(|items|, 8);
    SnapshotParts(generation, items);
  }

  /** The store switched to the new generation: its first WAL file, in any state of its
      creation, is empty. */
  lemma ResetRecovers(walSize: nat, d: Disk, next: nat, items: seq<Item>, data: Bytes)
    requires HEADER + RECORD_HEADER <= walSize <= OFFSET_LIMIT && 0 < next < U64
    requires DiskGeneration(d) == Ok(next) && DiskItems(d) == Ok(items) && FutureEmpty(d)
    requires data == [] || data == ZeroFile(walSize) || data == NewSegment(ZeroFile(walSize)).data
    ensures Recovers(walSize, WithFiles(d, next, map[1 := data]), SnapshotValues(items))
  {
    hide Recovers, SnapshotValues, DiskItems, ZeroFile, NewSegment, OpenView, Opens;
    EmptyShows(walSize);
    FirstFileShows(walSize, data);
    ShowsAlike(walSize, map[], map[1 := data], []);
    FilesChange(walSize, d, next, map[1 := data], items, []);
    MeanNothing(SnapshotValues(items));
  }

  lemma MeanNothing(m: Values)
    ensures Mean(m, []) == m
  {
  }

  lemma ShowsAlike(walSize: nat, a: Files, b: Files, log: seq<Replayed>)
    requires Shows(walSize, a, log) && Opens(walSize, b) && OpenView(walSize, b) == OpenView(walSize, a)
    ensures Shows(walSize, b, log)
  {
  }

  /** A store that just switched runs on the snapshot it wrote. */
  lemma SwitchedRuns(walSize: nat, d: Disk, next: nat, items: seq<Item>)
    requires HEADER + RECORD_HEADER <= walSize <= OFFSET_LIMIT && 0 < next < U64
    requires DiskGeneration(d) == Ok(next) && DiskItems(d) == Ok(items) && FutureEmpty(d)
    requires |items| <= MAX_ITEMS && Storable(items)
    ensures var view := map[1 := NewSegment(ZeroFile(walSize))];
      && Running(walSize, next, view, SnapshotRecords(items), items, SnapshotIndex(items), d)
      && Meaning(items, view) == SnapshotValues(items) && WholeLog(view) == []
  {
    hide SnapshotValues, SnapshotIndex, SnapshotRecords, DiskItems, ZeroFile, Opens, Full, WholeLog;
    EmptyShows(walSize);
    var view := map[1 := NewSegment(ZeroFile(walSize))];
    assert OpenView(walSize, map[]) == view;
    NewSize(walSize);
    assert 1 in view;
    MeanNothing(SnapshotValues(items));
  }

  lemma ShrunkReads(d: Disk, d2: Disk, g: nat)
    requires Shrunk(d, d2, g) && DiskGeneration(d) == Ok(g)
    ensures DiskGeneration(d2) == Ok(g) && DiskItems(d2) == DiskItems(d) && DiskFiles(d2) == DiskFiles(d)
    ensures FutureEmpty(d) ==> FutureEmpty(d2)
    ensures d2.wals.Keys <= {g} ==> FutureEmpty(d2)
  {
    hide DecodeManifest, DecodeSnapshot;
    if FutureEmpty(d) {
      forall h | h in d2.wals && h > g ensures d2.wals[h] == map[] {
        assert d2.wals[h].Keys <= d.wals[h].Keys == {};
      }
    }
  }

  /** Removing files of other generations changes nothing. */
  lemma ShrunkRuns(walSize: nat, generation: nat, view: map<nat, Segment>, snapshot: seq<OwnedRecord>,
                   items: seq<Item>, index: Positions, d: Disk, d2: Disk)
    requires Running(walSize, generation, view, snapshot, items, index, d) && Shrunk(d, d2, generation)
    ensures Running(walSize, generation, view, snapshot, items, index, d2)
    ensures Recovers(walSize, WithFiles(d2, generation, FilesOf(view)), Meaning(items, view))
  {
    hide Recovers, SnapshotValues, SnapshotIndex, SnapshotRecords, DiskGeneration, DiskItems, FutureEmpty, Full,
         Shows, Shrunk;
    ShrunkReads(d, d2, generation);
    RunningShows(walSize, view);
    RunningRecovers(walSize, generation, view, snapshot, items, index, d2, FilesOf(view), WholeLog(view));
  }

  // -------------------------------------------------------------------- opening

  lemma GenerationRange(d: Disk)
    ensures DiskGeneration(d).Ok? ==> 0 < DiskGeneration(d).value < U64
  {
    hide Load;
    match d.manifest
    case None =>
    case Some(data) =>
      if DecodeManifest(data).Ok? {
        WordRange();
        StoreLoad(data[16..24]);
      }
  }

  /** While the files of a directory are opened one by one, it recovers to the same map. */
  lemma OpeningRecovers(walSize: nat, d: Disk, m: Values, files: Files)
    requires Recovers(walSize, d, m) && walSize >= HEADER && DiskGeneration(d).Ok?
    requires Opens(walSize, files) && Opens(walSize, DiskFiles(d))
    requires OpenView(walSize, files) == OpenView(walSize, DiskFiles(d))
    ensures Recovers(walSize, WithFiles(d, DiskGeneration(d).value, files), m)
  {
    hide OpenView, Opens, SnapshotValues, Mean, Full, DiskItems, DiskGeneration, DiskFiles;
    var view := OpenView(walSize, files);
    AllKept(view, FILE_LIMIT);
    FilesChange(walSize, d, DiskGeneration(d).value, files, DiskItems(d).value, WholeLog(view));
  }

  /** What a replay leaves behind is a running store. */
  lemma OpenedRuns(walSize: nat, d: Disk, generation: nat, view: map<nat, Segment>, items: seq<Item>, index: Positions)
    requires HEADER + RECORD_HEADER <= walSize <= OFFSET_LIMIT && Opens(walSize, DiskFiles(d))
    requires DiskGeneration(d) == Ok(generation) && DiskItems(d) == Ok(items) && FutureEmpty(d)
    requires AllFull(view) && Sized(walSize, view)
    requires WholeLog(view) == Kept(OpenView(walSize, DiskFiles(d)), 0, FILE_LIMIT)
    requires index == Play(SnapshotIndex(items), WholeLog(view))
    ensures Running(walSize, generation, view, SnapshotRecords(items), items, index, d)
    ensures Meaning(items, view) == Recovered(walSize, d) && Loadable(walSize, d)
  {
    hide OpenView, Opens, SnapshotValues, Mean, Full, DiskItems, DiskGeneration, DiskFiles, Storable;
    GenerationRange(d);
    DiskItemsCount(d);
    DiskItemsStorable(d);
  }

  // -------------------------------------------------------- directories on the way

  /** Up to some point the directories recover the map from before, then the one from after. */
  ghost predicate Turns(walSize: nat, passed: seq<Disk>, before: Values, after: Values) {
    exists n: nat :: TurnsAt(walSize, passed, n, before, after)
  }

  ghost predicate TurnsAt(walSize: nat, passed: seq<Disk>, n: nat, before: Values, after: Values) {
    && n <= |passed|
    && (forall i :: 0 <= i < n ==> Recovers(walSize, passed[i], before))
    && (forall i :: n <= i < |passed| ==> Recovers(walSize, passed[i], after))
  }

  lemma TurnsNot(walSize: nat, m: Values, m2: Values)
    ensures Turns(walSize, [], m, m2)
  {
    assert TurnsAt(walSize, [], 0, m, m2);
  }

  lemma TurnsMore(walSize: nat, passed: seq<Disk>, more: seq<Disk>, before: Values, after: Values)
    requires Turns(walSize, passed, before, after)
    requires forall d :: d in more ==> Recovers(walSize, d, after)
    ensures Turns(walSize, passed + more, before, after)
  {
    hide Recovers;
    var n: nat :| TurnsAt(walSize, passed, n, before, after);
    assert TurnsAt(walSize, passed + more, n, before, after);
  }

  /** The directories behind WAL files on the way. */
  ghost function FileImages(d: Disk, generation: nat, passed: seq<Files>): (s: seq<Disk>)
    ensures |s| == |passed|
  {
    seq(|passed|, i requires 0 <= i < |passed| => WithFiles(d, generation, passed[i]))
  }

  lemma FileImagesChain(d: Disk, generation: nat, f: Files, passed: seq<Files>, f2: Files)
    requires Chain(FileStep, f, passed, f2)
    ensures
      Chain(DiskStep, WithFiles(d, generation, f), FileImages(d, generation, passed), WithFiles(d, generation, f2))
  {
    hide *;
    var images, d0 := FileImages(d, generation, passed), WithFiles(d, generation, f);
    FileImagesStop(d, generation, f, passed, |passed|);
    ChainEnd(f, passed, f2);
    forall i | 0 <= i < |images| ensures DiskStep(Stop(d0, images, i), images[i]) {
      FileImagesStop(d, generation, f, passed, i);
      ChainAt(FileStep, f, passed, f2, i);
      FilesStep(d, generation, Stop(f, passed, i), passed[i]);
    }
    ChainBy(DiskStep, d0, images, WithFiles(d, generation, f2));
  }

  lemma ChainEnd(f: Files, passed: seq<Files>, f2: Files)
    requires Chain(FileStep, f, passed, f2)
    ensures Stop(f, passed, |passed|) == f2
  {
  }

  lemma FileImagesStop(d: Disk, generation: nat, f: Files, passed: seq<Files>, i: nat)
    requires i <= |passed|
    ensures var images := FileImages(d, generation, passed);
      && Stop(WithFiles(d, generation, f), images, i) == WithFiles(d, generation, Stop(f, passed, i))
      && (i < |passed| ==> images[i] == WithFiles(d, generation, passed[i]))
  {
    hide WithFiles;
  }

  /** Writing a record turns the directory from the old map to the new one. */
  lemma WritingTurns(walSize: nat, generation: nat, view: map<nat, Segment>, snapshot: seq<OwnedRecord>,
                     items: seq<Item>, index: Positions, d: Disk, passed: seq<Files>, view2: map<nat, Segment>)
    requires Running(walSize, generation, view, snapshot, items, index, d)
    requires Advances(walSize, passed, WholeLog(view), WholeLog(view2))
    ensures Turns(walSize, FileImages(d, generation, passed), Meaning(items, view), Meaning(items, view2))
  {
    hide Recovers, Running, Shows, Mean, SnapshotValues, WithFiles;
    var images := FileImages(d, generation, passed);
    var n := if |passed| == 0 then 0 else |passed| - 1;
    forall i | 0 <= i < n ensures Recovers(walSize, images[i], Meaning(items, view)) {
      RunningRecovers(walSize, generation, view, snapshot, items, index, d, passed[i], WholeLog(view));
    }
    forall i | n <= i < |passed| ensures Recovers(walSize, images[i], Meaning(items, view2)) {
      RunningRecovers(walSize, generation, view, snapshot, items, index, d, passed[i], WholeLog(view2));
    }
    assert TurnsAt(walSize, images, n, Meaning(items, view), Meaning(items, view2));
  }

  /** The directories while old files go. */
  ghost function CleaningImages(passed: seq<Disk>, generation: nat, files: Files): (s: seq<Disk>) {
    seq(|passed|, i requires 0 <= i < |passed| => WithFiles(passed[i], generation, files))
  }

  lemma CleaningChain(d: Disk, keep: nat, passed: seq<Disk>, d2: Disk, files: Files)
    requires Chain(DiskStep, d, passed, d2) && forall p :: p in passed ==> Shrunk(d, p, keep)
    ensures Chain(DiskStep, WithFiles(d, keep, files), CleaningImages(passed, keep, files), WithFiles(d2, keep, files))
  {
    hide *;
    var images, d0 := CleaningImages(passed, keep, files), WithFiles(d, keep, files);
    CleaningStop(d, keep, passed, d2, files, |passed|);
    forall i | 0 <= i < |images| ensures DiskStep(Stop(d0, images, i), images[i]) {
      CleaningStop(d, keep, passed, d2, files, i);
      ChainAt(DiskStep, d, passed, d2, i);
      ShrunkAlike(d, Stop(d, passed, i), passed[i], keep);
      StepElsewhere(Stop(d, passed, i), passed[i], keep, files);
    }
    ChainBy(DiskStep, d0, images, WithFiles(d2, keep, files));
  }

  lemma CleaningStop(d: Disk, keep: nat, passed: seq<Disk>, d2: Disk, files: Files, i: nat)
    requires Chain(DiskStep, d, passed, d2) && i <= |passed| && forall p :: p in passed ==> Shrunk(d, p, keep)
    ensures var images := CleaningImages(passed, keep, files);
      && |images| == |passed| && Stop(d, passed, |passed|) == d2 && Shrunk(d, Stop(d, passed, i), keep)
      && Stop(WithFiles(d, keep, files), images, i) == WithFiles(Stop(d, passed, i), keep, files)
      && (i < |passed| ==> images[i] == WithFiles(passed[i], keep, files) && Shrunk(d, passed[i], keep))
  {
    hide WithFiles, DiskStep, Shrunk;
    ShrunkSelf(d, keep);
  }

  lemma ShrunkAlike(d: Disk, a: Disk, b: Disk, keep: nat)
    requires Shrunk(d, a, keep) && Shrunk(d, b, keep)
    ensures (keep in a.wals <==> keep in b.wals) && (keep in a.wals ==> b.wals[keep] == a.wals[keep])
  {
  }

  lemma CleaningRecovers(walSize: nat, generation: nat, view: map<nat, Segment>, snapshot: seq<OwnedRecord>,
                         items: seq<Item>, index: Positions, d: Disk, passed: seq<Disk>)
    requires Running(walSize, generation, view, snapshot, items, index, d)
    requires forall p :: p in passed ==> Shrunk(d, p, generation)
    ensures forall p :: p in CleaningImages(passed, generation, FilesOf(view)) ==>
      Recovers(walSize, p, Meaning(items, view))
  {
    hide Recovers, Running, Shrunk, Meaning, WithFiles;
    forall p | p in CleaningImages(passed, generation, FilesOf(view))
      ensures Recovers(walSize, p, Meaning(items, view))
    {
      var i :| 0 <= i < |passed| && p == WithFiles(passed[i], generation, FilesOf(view));
      ShrunkRuns(walSize, generation, view, snapshot, items, index, d, passed[i]);
    }
  }
}
