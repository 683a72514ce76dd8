/** The durable state of a store directory, and what opening it recovers. Renames are atomic
    and files renamed into place are complete. */
module Disks {
  import opened Wrappers
  import opened Codec
  import opened WalFormat
  import opened WalSegments
  import opened WalLog
  import opened WalFiles
  import opened CheckpointFiles
  import opened Recovery

  /** MANIFEST, SNAPSHOT.<generation> and wal/<generation>/<number>.wal by their bytes. */
  datatype Disk = Disk(manifest: Option<Bytes>, snapshots: map<nat, Bytes>, wals: map<nat, Files>)

  /** ReadManifest: the current generation, the first one without a manifest. */
  function DiskGeneration(d: Disk): (r: Result<nat>)
    ensures r.Ok? ==> r.value > 0
  {
    match d.manifest
    case None => Ok(1)
    case Some(data) => DecodeManifest(data)
  }

  /** The snapshot the current generation starts from. */
  function DiskItems(d: Disk): Result<seq<Item>> {
    var g := DiskGeneration(d);
    if g.Err? then Err(g.error)
    else if d.manifest.None? then Ok([])
    else if g.value !in d.snapshots then Err(CorruptSnapshot)
    else DecodeSnapshot(d.snapshots[g.value], g.value)
  }

  /** The WAL files of the current generation. */
  function DiskFiles(d: Disk): Files {
    var g := DiskGeneration(d);
    if g.Err? || g.value !in d.wals then map[] else d.wals[g.value]
  }

  /** No generation after the current one has WAL files yet. */
  ghost predicate FutureEmpty(d: Disk) {
    DiskGeneration(d).Ok? ==> forall g :: g in d.wals && g > DiskGeneration(d).value ==> d.wals[g] == map[]
  }

  /** Everything that opening reads is in order, whatever the WAL records hold. */
  ghost predicate Loadable(walSize: nat, d: Disk) {
    && HEADER + RECORD_HEADER <= walSize <= OFFSET_LIMIT
    && DiskGeneration(d).Ok? && DiskItems(d).Ok? && Opens(walSize, DiskFiles(d))
  }

  /** What a point-in-time opening recovers: the snapshot, then the records of the WAL files
      in order up to the first that cannot be read. */
  ghost function Recovered(walSize: nat, d: Disk): Values
    requires Loadable(walSize, d)
  {
    Mean(SnapshotValues(DiskItems(d).value), Kept(OpenView(walSize, DiskFiles(d)), 0, FILE_LIMIT))
  }

  /** An undamaged directory that recovers to m under any policy. */
  ghost predicate Recovers(walSize: nat, d: Disk, m: Values) {
    && Loadable(walSize, d) && AllFull(OpenView(walSize, DiskFiles(d))) && FutureEmpty(d)
    && |DiskItems(d).value| <= MAX_ITEMS && m == Recovered(walSize, d)
  }

  lemma {:induction false} DecodedCount(data: Bytes, generation: nat)
    ensures DecodeSnapshot(data, generation).Ok? ==> |DecodeSnapshot(data, generation).value| <= MAX_ITEMS
  {
  }

  lemma DiskItemsCount(d: Disk)
    ensures DiskItems(d).Ok? ==> |DiskItems(d).value| <= MAX_ITEMS
  {
    var g := DiskGeneration(d);
    if g.Ok? && d.manifest.Some? && g.value in d.snapshots {
      DecodedCount(d.snapshots[g.value], g.value);
    }
  }

  /** Said by parts: the generation, its snapshot and its log. */
  lemma RecoversBy(walSize: nat, d: Disk, items: seq<Item>, log: seq<Replayed>)
    requires DiskGeneration(d).Ok? && DiskItems(d) == Ok(items) && FutureEmpty(d)
    requires Shows(walSize, DiskFiles(d), log)
    ensures Recovers(walSize, d, Mean(SnapshotValues(items), log))
  {
    hide Mean, SnapshotValues, OpenView, Opens;
    DiskItemsCount(d);
    AllKept(OpenView(walSize, DiskFiles(d)), FILE_LIMIT);
  }

  /** The directory with these WAL files for a generation. */
  function WithFiles(d: Disk, generation: nat, files: Files): Disk {
    d.(wals := d.wals[generation := files])
  }

  // ------------------------------------------------------------------- single steps

  /** What can happen to a directory in one step. */
  datatype DiskEdit =
    | EditFiles(g: nat, e: FileEdit)
    | MakeDirectory(g: nat)
    | RemoveDirectory(g: nat)
    | RenameSnapshot(g: nat, items: seq<Item>)
    | RemoveSnapshot(g: nat)
    | RenameManifest(g: nat)

  /** The directory after such a step, if it can happen. */
  ghost function After(d: Disk, s: DiskEdit): Option<Disk> {
    match s
    case EditFiles(g, e) =>
      if g in d.wals && Edited(d.wals[g], e).Some? then Some(d.(wals := d.wals[g := Edited(d.wals[g], e).value]))
      else None
    case MakeDirectory(g) => if g !in d.wals then Some(d.(wals := d.wals[g := map[]])) else None
    case RemoveDirectory(g) => if g in d.wals && d.wals[g] == map[] then Some(d.(wals := d.wals - {g})) else None
    case RenameSnapshot(g, items) => Some(d.(snapshots := d.snapshots[g := EncodeSnapshot(g, items)]))
    case RemoveSnapshot(g) => if g in d.snapshots then Some(d.(snapshots := d.snapshots - {g})) else None
    case RenameManifest(g) => Some(d.(manifest := Some(EncodeManifest(g))))
  }

  /** One step, or none. */
  ghost predicate DiskStep(d: Disk, d2: Disk) {
    d2 == d || exists s :: After(d, s) == Some(d2)
  }

  /** A step on the files of one generation. */
  lemma FilesStep(d: Disk, g: nat, f: Files, f2: Files)
    requires FileStep(f, f2)
    ensures DiskStep(WithFiles(d, g, f), WithFiles(d, g, f2))
  {
    hide Edited;
    var d1 := WithFiles(d, g, f);
    if f2 != f {
      var e :| Edited(f, e) == Some(f2);
      assert d.wals[g := f][g := f2] == d.wals[g := f2];
      assert After(d1, EditFiles(g, e)) == Some(WithFiles(d, g, f2));
    }
  }

  /** Steps elsewhere do not depend on the files of a generation. */
  lemma StepElsewhere(d: Disk, d2: Disk, keep: nat, f: Files)
    requires DiskStep(d, d2)
    requires (keep in d.wals <==> keep in d2.wals) && (keep in d.wals ==> d2.wals[keep] == d.wals[keep])
    ensures DiskStep(WithFiles(d, keep, f), WithFiles(d2, keep, f))
  {
    hide After, WithFiles;
    if d2 != d {
      var s :| After(d, s) == Some(d2);
      EditElsewhere(d, s, d2, keep, f);
    }
  }

  lemma EditElsewhere(d: Disk, s: DiskEdit, d2: Disk, keep: nat, f: Files)
    requires After(d, s) == Some(d2) && d2 != d
    requires (keep in d.wals <==> keep in d2.wals) && (keep in d.wals ==> d2.wals[keep] == d.wals[keep])
    ensures After(WithFiles(d, keep, f), s) == Some(WithFiles(d2, keep, f))
  {
    hide Edited, EncodeSnapshot, EncodeManifest;
    PutBack(d.wals, keep);
    match s
    case EditFiles(g, e) => PutApart(d.wals, g, d2.wals[g], keep, f);
    case MakeDirectory(g) => PutApart(d.wals, g, map[], keep, f);
    case RemoveDirectory(g) => PutRemoved(d.wals, g, keep, f);
    case _ =>
  }

  lemma PutBack(m: map<nat, Files>, k: nat)
    ensures k in m ==> m[k := m[k]] == m
  {
  }

  lemma PutApart(m: map<nat, Files>, g: nat, x: Files, k: nat, f: Files)
    ensures g != k ==> m[g := x][k := f] == m[k := f][g := x]
  {
  }

  lemma PutRemoved(m: map<nat, Files>, g: nat, k: nat, f: Files)
    ensures g != k ==> (m - {g})[k := f] == m[k := f] - {g}
  {
  }

  lemma RemoveFileStep(d: Disk, g: nat, id: nat)
    requires g in d.wals
    ensures DiskStep(d, d.(wals := d.wals[g := d.wals[g] - {id}]))
  {
    hide FileStep;
    RemoveIsFileStep(d.wals[g], id);
    FilesStep(d, g, d.wals[g], d.wals[g] - {id});
    assert d.wals[g := d.wals[g]] == d.wals;
  }

  lemma RemoveDirectoryStep(d: Disk, g: nat)
    requires g in d.wals && d.wals[g] == map[]
    ensures DiskStep(d, d.(wals := d.wals - {g}))
  {
    assert After(d, RemoveDirectory(g)) == Some(d.(wals := d.wals - {g}));
  }

  lemma RemoveSnapshotStep(d: Disk, g: nat)
    requires g in d.snapshots
    ensures DiskStep(d, d.(snapshots := d.snapshots - {g}))
  {
    assert After(d, RemoveSnapshot(g)) == Some(d.(snapshots := d.snapshots - {g}));
  }

  // ------------------------------------------------------------- steps on the disk

  /** The files of the current generation change. */
  lemma FilesChange(walSize: nat, d: Disk, generation: nat, files: Files, items: seq<Item>, log: seq<Replayed>)
    requires DiskGeneration(d) == Ok(generation) && DiskItems(d) == Ok(items) && FutureEmpty(d)
    requires Shows(walSize, files, log)
    ensures Recovers(walSize, d.(wals := d.wals[generation := files]), Mean(SnapshotValues(items), log))
  {
    hide Shows, Mean, SnapshotValues;
    RecoversBy(walSize, d.(wals := d.wals[generation := files]), items, log);
  }

  /** What opening does not read does not matter. */
  lemma SameReading(walSize: nat, d: Disk, d2: Disk, m: Values)
    requires Recovers(walSize, d, m) && FutureEmpty(d2)
    requires DiskGeneration(d2) == DiskGeneration(d) && DiskItems(d2) == DiskItems(d) && DiskFiles(d2) == DiskFiles(d)
    ensures Recovers(walSize, d2, m)
  {
    hide DiskGeneration, DiskItems, DiskFiles, Mean, Kept, OpenView, Opens;
  }

  lemma GenerationOf(walSize: nat, d: Disk, m: Values)
    requires Recovers(walSize, d, m)
    ensures DiskGeneration(d).Ok? && FutureEmpty(d)
  {
  }

  /** A snapshot of a later generation appears. */
  lemma SnapshotAppears(walSize: nat, d: Disk, next: nat, data: Bytes, m: Values)
    requires Recovers(walSize, d, m) && next > DiskGeneration(d).value
    ensures Recovers(walSize, d.(snapshots := d.snapshots[next := data]), m)
  {
    hide Recovers, DecodeManifest, DecodeSnapshot;
    GenerationOf(walSize, d, m);
    SameReading(walSize, d, d.(snapshots := d.snapshots[next := data]), m);
  }

  /** An empty WAL directory of a later generation appears. */
  lemma DirectoryAppears(walSize: nat, d: Disk, next: nat, m: Values)
    requires Recovers(walSize, d, m) && next > DiskGeneration(d).value
    ensures Recovers(walSize, d.(wals := d.wals[next := map[]]), m)
  {
    hide Recovers, DecodeManifest, DecodeSnapshot;
    GenerationOf(walSize, d, m);
    SameReading(walSize, d, d.(wals := d.wals[next := map[]]), m);
  }

  /** The manifest switches to the next generation, whose snapshot holds the live items and
      whose WAL is still empty. */
  lemma ManifestSwitches(walSize: nat, d: Disk, next: nat, items: seq<Item>)
    requires HEADER + RECORD_HEADER <= walSize <= OFFSET_LIMIT && 0 < next < U64 && |items| <= MAX_ITEMS
    requires Storable(items)
    requires next in d.snapshots && d.snapshots[next] == EncodeSnapshot(next, items)
    requires next in d.wals && d.wals[next] == map[] && forall g :: g in d.wals && g > next ==> d.wals[g] == map[]
    ensures var d2 := d.(manifest := Some(EncodeManifest(next)));
      && DiskGeneration(d2) == Ok(next) && DiskItems(d2) == Ok(items) && DiskFiles(d2) == map[] && FutureEmpty(d2)
      && Recovers(walSize, d2, SnapshotValues(items))
  {
    hide EncodeManifest, EncodeSnapshot, DecodeManifest, DecodeSnapshot, SnapshotValues;
    ManifestRoundTrip(next);
    SnapshotRoundTrip(next, items);
    var d2 := d.(manifest := Some(EncodeManifest(next)));
    EmptyShows(walSize);
    RecoversBy(walSize, d2, items, []);
  }

  lemma EmptyShows(walSize: nat)
    requires HEADER + RECORD_HEADER <= walSize <= OFFSET_LIMIT
    ensures Shows(walSize, map[], [])
  {
    hide Load, Entries, ZeroFile, NewSegment, Full;
    NewIsFull(1, ZeroFile(walSize));
    var view := OpenView(walSize, map[]);
    LogAbove(view, 2, FILE_LIMIT);
    LogNext(view, 1);
    LogNext(view, 0);
    LogNone(view);
  }
}
