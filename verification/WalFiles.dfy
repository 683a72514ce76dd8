/** The WAL files of one generation as they lie on disk, and what opening them gives
    (WalSegment::Open and SegmentedRecordStore::Open of store.cc). */
module WalFiles {
  import opened Wrappers
  import opened Keys
  import opened Codec
  import opened WalFormat
  import opened WalSegments
  import opened WalLog
  import opened Sequences

  type Files = map<nat, Bytes>

  /** Opening one file: an empty one gets its size, a zero header is initialised, any other
      header has to load. */
  ghost function OpenFile(walSize: nat, data: Bytes): Option<Segment>
    requires walSize >= HEADER
  {
    if data == [] then Some(NewSegment(ZeroFile(walSize)))
    else if |data| != walSize then None
    else if ZeroBytes(data, HEADER) then Some(NewSegment(data))
    else
      match LoadHeader(data)
      case Err(_) => None
      case Ok(used) => Some(Segment(data, used))
  }

  /** Every file has a number and opens. */
  ghost predicate Opens(walSize: nat, files: Files)
    requires walSize >= HEADER
  {
    forall id :: id in files ==> 0 < id < FILE_LIMIT && OpenFile(walSize, files[id]).Some?
  }

  /** The open segments; without any file the first one is created. */
  ghost function OpenView(walSize: nat, files: Files): map<nat, Segment>
    requires walSize >= HEADER && Opens(walSize, files)
  {
    if files == map[] then map[1 := NewSegment(ZeroFile(walSize))]
    else map id | id in files :: OpenFile(walSize, files[id]).value
  }

  /** All records in file order, whatever the highest number. */
  ghost function WholeLog(view: map<nat, Segment>): seq<Replayed> {
    LogBelow(view, FILE_LIMIT)
  }

  /** The files open to undamaged segments that hold exactly this log. */
  ghost predicate Shows(walSize: nat, files: Files, log: seq<Replayed>) {
    && HEADER + RECORD_HEADER <= walSize <= OFFSET_LIMIT && Opens(walSize, files)
    && AllFull(OpenView(walSize, files)) && WholeLog(OpenView(walSize, files)) == log
  }

  lemma {:induction false} LogAbove(view: map<nat, Segment>, n: nat, m: nat)
    requires n <= m && forall id :: n <= id < m ==> id !in view
    ensures LogBelow(view, m) == LogBelow(view, n)
    decreases m
  {
    if n < m {
      LogAbove(view, n, m - 1);
    }
  }

  /** Two sets of segments with the same logs file by file. */
  lemma {:induction false} LogAlike(view: map<nat, Segment>, view2: map<nat, Segment>, n: nat)
    requires forall id :: id < n && id in view && id in view2 ==> SegmentLog(id, view2[id]) == SegmentLog(id, view[id])
    requires forall id :: id < n && id in view && id !in view2 ==> SegmentLog(id, view[id]) == []
    requires forall id :: id < n && id !in view && id in view2 ==> SegmentLog(id, view2[id]) == []
    ensures LogBelow(view2, n) == LogBelow(view, n)
    decreases n
  {
    hide SegmentLog;
    if n > 0 {
      LogAlike(view, view2, n - 1);
    }
  }

  // ------------------------------------------------------------- files while running

  /** The files behind open segments. */
  ghost function FilesOf(view: map<nat, Segment>): Files {
    map id | id in view :: view[id].data
  }

  ghost predicate Sized(walSize: nat, view: map<nat, Segment>) {
    && HEADER + RECORD_HEADER <= walSize <= OFFSET_LIMIT && view != map[]
    && forall id :: id in view ==> |view[id].data| == walSize
  }

  /** A file of an open segment in the middle of a write: what is in use is untouched. */
  ghost predicate TornTail(s: Segment, data: Bytes) {
    |data| == |s.data| && s.used <= |s.data| && forall i :: 0 <= i < s.used ==> data[i] == s.data[i]
  }

  /** Such a file opens to the same records. */
  lemma TornOpens(walSize: nat, id: nat, s: Segment, data: Bytes)
    requires Full(s) && TornTail(s, data) && |data| == walSize
    ensures walSize >= HEADER && OpenFile(walSize, data) == Some(Segment(data, s.used))
    ensures Full(Segment(data, s.used)) && SegmentLog(id, Segment(data, s.used)) == SegmentLog(id, s)
  {
    hide Load, Entries, LastGood;
    LoadedMeans(s);
    assert data[0..8] == s.data[0..8] && data[8..12] == s.data[8..12] && data[16..24] == s.data[16..24];
    assert data[0] == data[0..8][0] == MAGIC[0];
    TailIgnored(s.data, data, s.used, HEADER);
  }

  lemma SelfTorn(s: Segment)
    requires Loaded(s)
    ensures TornTail(s, s.data)
  {
    LoadedMeans(s);
  }

  /** While the store runs, its files hold its log, even in the middle of writing a record. */
  lemma TornShows(walSize: nat, view: map<nat, Segment>, id: nat, data: Bytes)
    requires AllFull(view) && Sized(walSize, view) && id in view && TornTail(view[id], data)
    ensures Shows(walSize, FilesOf(view)[id := data], WholeLog(view))
  {
    hide Full, SegmentLog, OpenFile, TornTail, Loaded;
    var files := FilesOf(view)[id := data];
    forall i | i in files
      ensures 0 < i < FILE_LIMIT && OpenFile(walSize, files[i]) == Some(Segment(files[i], view[i].used))
      ensures Full(Segment(files[i], view[i].used))
      ensures SegmentLog(i, Segment(files[i], view[i].used)) == SegmentLog(i, view[i])
    {
      assert Full(view[i]);
      SelfTorn(view[i]) by { FullMeans(view[i]); }
      TornSize(view[i], files[i]);
      TornOpens(walSize, i, view[i], files[i]);
    }
    LogAlike(view, OpenView(walSize, files), FILE_LIMIT);
  }

  lemma FullMeans(s: Segment)
    requires Full(s)
    ensures Loaded(s)
  {
  }

  lemma TornSize(s: Segment, data: Bytes)
    requires TornTail(s, data)
    ensures |data| == |s.data|
  {
  }

  lemma RunningShows(walSize: nat, view: map<nat, Segment>)
    requires AllFull(view) && Sized(walSize, view)
    ensures Shows(walSize, FilesOf(view), WholeLog(view))
  {
    hide Full, WholeLog, Shows;
    var id :| id in view;
    SelfTorn(view[id]) by { FullMeans(view[id]); }
    TornShows(walSize, view, id, view[id].data);
    assert FilesOf(view)[id := view[id].data] == FilesOf(view);
  }

  /** A new file in any state of its creation adds nothing. */
  lemma NewFileShows(walSize: nat, view: map<nat, Segment>, id: nat, data: Bytes)
    requires AllFull(view) && Sized(walSize, view) && id !in view && 0 < id < FILE_LIMIT
    requires data == [] || data == ZeroFile(walSize) || data == InitHeader(ZeroFile(walSize))
    ensures Shows(walSize, FilesOf(view)[id := data], WholeLog(view))
  {
    hide Full, SegmentLog, OpenFile, TornTail, Loaded, InitHeader, ZeroFile;
    var files := FilesOf(view)[id := data];
    NewOpens(walSize, id, data);
    forall i | i in view
      ensures 0 < i < FILE_LIMIT && OpenFile(walSize, files[i]) == Some(view[i])
    {
      assert Full(view[i]);
      SelfTorn(view[i]) by { FullMeans(view[i]); }
      TornOpens(walSize, i, view[i], files[i]);
    }
    LogAlike(view, OpenView(walSize, files), FILE_LIMIT);
  }

  lemma NewSize(walSize: nat)
    requires walSize >= HEADER
    ensures |NewSegment(ZeroFile(walSize)).data| == walSize
  {
  }

  lemma NewOpens(walSize: nat, id: nat, data: Bytes)
    requires HEADER + RECORD_HEADER <= walSize <= OFFSET_LIMIT
    requires data == [] || data == ZeroFile(walSize) || data == InitHeader(ZeroFile(walSize))
    ensures OpenFile(walSize, data).Some?
    ensures Full(OpenFile(walSize, data).value) && SegmentLog(id, OpenFile(walSize, data).value) == []
  {
    hide Load, Entries, LastGood, SegmentLog, Full;
    NewIsFull(id, ZeroFile(walSize));
    HeaderInitialised(ZeroFile(walSize));
    var init := InitHeader(ZeroFile(walSize));
    assert init[0] == init[0..8][0] == MAGIC[0];
  }

  /** Files on the way from one log to another: only the last of them shows the new one. */
  ghost predicate Advances(walSize: nat, passed: seq<Files>, before: seq<Replayed>, after: seq<Replayed>) {
    && (forall i :: 0 <= i < |passed| - 1 ==> Shows(walSize, passed[i], before))
    && (passed != [] ==> Shows(walSize, passed[|passed| - 1], after))
  }

  ghost predicate AllShow(walSize: nat, passed: seq<Files>, log: seq<Replayed>) {
    forall f :: f in passed ==> Shows(walSize, f, log)
  }

  lemma AdvancesTo(walSize: nat, passed: seq<Files>, last: Files, before: seq<Replayed>, after: seq<Replayed>)
    requires AllShow(walSize, passed, before) && Shows(walSize, last, after)
    ensures Advances(walSize, passed + [last], before, after)
  {
    hide Shows;
  }

  lemma AdvancesNot(walSize: nat, passed: seq<Files>, log: seq<Replayed>)
    requires AllShow(walSize, passed, log)
    ensures Advances(walSize, passed, log, log)
  {
    hide Shows;
  }

  lemma AllShowMore(walSize: nat, a: seq<Files>, b: seq<Files>, log: seq<Replayed>)
    requires AllShow(walSize, a, log) && AllShow(walSize, b, log)
    ensures AllShow(walSize, a + b, log)
  {
    hide Shows;
  }

  /** A file on its way, byte by byte. */
  ghost predicate AllTorn(s: Segment, torn: seq<Bytes>) {
    forall t :: t in torn ==> TornTail(s, t)
  }

  ghost function TornFiles(files: Files, id: nat, torn: seq<Bytes>): (s: seq<Files>)
    ensures |s| == |torn|
  {
    seq(|torn|, i requires 0 <= i < |torn| => files[id := torn[i]])
  }

  lemma TornFilesShow(walSize: nat, view: map<nat, Segment>, id: nat, torn: seq<Bytes>)
    requires AllFull(view) && Sized(walSize, view) && id in view && AllTorn(view[id], torn)
    ensures AllShow(walSize, TornFiles(FilesOf(view), id, torn), WholeLog(view))
  {
    hide Full, Shows, TornTail, WholeLog, FilesOf;
    forall f | f in TornFiles(FilesOf(view), id, torn) ensures Shows(walSize, f, WholeLog(view)) {
      var i :| 0 <= i < |torn| && f == FilesOf(view)[id := torn[i]];
      TornShows(walSize, view, id, torn[i]);
    }
  }

  // ------------------------------------------------------------------- single steps

  /** What can happen to the files of one generation in one step. */
  datatype FileEdit =
    | StoreByte(id: nat, i: nat, b: bv8)
    | CreateFile(id: nat)
    | SizeFile(id: nat, size: nat)
    | StoreHeader(id: nat)
    | StoreUsed(id: nat, used: nat)
    | RemoveFile(id: nat)

  /** The files after such a step, if it can happen: bytes are stored behind the header, a
      created file is empty, only an empty file gets a size and only zeros get a header. */
  ghost function Edited(f: Files, e: FileEdit): Option<Files> {
    match e
    case StoreByte(id, i, b) => if id in f && HEADER <= i < |f[id]| then Some(f[id := f[id][i := b]]) else None
    case CreateFile(id) => if id !in f then Some(f[id := []]) else None
    case SizeFile(id, n) => if id in f && f[id] == [] then Some(f[id := ZeroFile(n)]) else None
    case StoreHeader(id) => if id in f && ZeroBytes(f[id], HEADER) then Some(f[id := InitHeader(f[id])]) else None
    case StoreUsed(id, used) => if id in f && |f[id]| >= HEADER then Some(f[id := SetUsed(f[id], used)]) else None
    case RemoveFile(id) => if id in f then Some(f - {id}) else None
  }

  /** One step, or none. */
  ghost predicate FileStep(f: Files, f2: Files) {
    f2 == f || exists e :: Edited(f, e) == Some(f2)
  }

  lemma ByteIsFileStep(f: Files, id: nat, a: Bytes, b: Bytes)
    requires ByteStep(a, b)
    ensures FileStep(f[id := a], f[id := b])
  {
    var i: nat :| HEADER <= i < |a| && b == a[i := b[i]];
    assert f[id := a][id := b] == f[id := b];
    assert Edited(f[id := a], StoreByte(id, i, b[i])) == Some(f[id := b]);
  }

  /** A record laid out byte by byte, then the used offset. */
  lemma TornFilesChain(f: Files, id: nat, data: Bytes, torn: seq<Bytes>, laid: Bytes)
    requires id in f && f[id] == data && Chain(ByteStep, data, torn, laid)
    ensures Chain(FileStep, f, TornFiles(f, id, torn), f[id := laid])
  {
    hide ByteStep, FileStep;
    var passed := TornFiles(f, id, torn);
    assert f[id := data] == f;
    forall i | 0 <= i < |passed| ensures FileStep(Stop(f, passed, i), passed[i]) {
      ByteIsFileStep(f, id, Stop(data, torn, i), torn[i]);
    }
  }

  lemma UsedIsFileStep(f: Files, id: nat, data: Bytes, used: nat)
    requires |data| >= HEADER
    ensures FileStep(f[id := data], f[id := SetUsed(data, used)])
  {
    hide SetUsed;
    assert f[id := data][id := SetUsed(data, used)] == f[id := SetUsed(data, used)];
    assert Edited(f[id := data], StoreUsed(id, used)) == Some(f[id := SetUsed(data, used)]);
  }

  lemma RemoveIsFileStep(f: Files, id: nat)
    ensures FileStep(f, f - {id})
  {
    if id in f {
      assert Edited(f, RemoveFile(id)) == Some(f - {id});
    } else {
      assert f - {id} == f;
    }
  }

  /** A file is created. */
  lemma CreateIsFileStep(f: Files, id: nat)
    requires id !in f
    ensures FileStep(f, f[id := []])
  {
    assert Edited(f, CreateFile(id)) == Some(f[id := []]);
  }

  lemma SizeIsFileStep(f: Files, id: nat, n: nat)
    ensures FileStep(f[id := []], f[id := ZeroFile(n)])
  {
    hide ZeroFile;
    assert f[id := []][id := ZeroFile(n)] == f[id := ZeroFile(n)];
    assert Edited(f[id := []], SizeFile(id, n)) == Some(f[id := ZeroFile(n)]);
  }

  lemma HeaderIsFileStep(f: Files, id: nat, data: Bytes)
    requires ZeroBytes(data, HEADER)
    ensures FileStep(f[id := data], f[id := InitHeader(data)])
  {
    hide InitHeader;
    assert f[id := data][id := InitHeader(data)] == f[id := InitHeader(data)];
    assert Edited(f[id := data], StoreHeader(id)) == Some(f[id := InitHeader(data)]);
  }

  /** An empty file becomes an empty segment. */
  lemma SizedChain(walSize: nat, f: Files, id: nat)
    requires walSize >= HEADER
    ensures Chain(FileStep, f[id := []], [f[id := ZeroFile(walSize)], f[id := InitHeader(ZeroFile(walSize))]],
                  f[id := InitHeader(ZeroFile(walSize))])
  {
    hide InitHeader, FileStep;
    SizeIsFileStep(f, id, walSize);
    HeaderIsFileStep(f, id, ZeroFile(walSize));
    ChainOne(FileStep, f[id := []], f[id := ZeroFile(walSize)]);
    ChainSnoc(FileStep, f[id := []], [f[id := ZeroFile(walSize)]], f[id := ZeroFile(walSize)],
              f[id := InitHeader(ZeroFile(walSize))]);
    assert [f[id := ZeroFile(walSize)]] + [f[id := InitHeader(ZeroFile(walSize))]]
      == [f[id := ZeroFile(walSize)], f[id := InitHeader(ZeroFile(walSize))]];
  }

  /** A new file, from nothing to an empty segment. */
  lemma NewFilesChain(walSize: nat, f: Files, id: nat)
    requires walSize >= HEADER && id !in f
    ensures Chain(FileStep, f, NewFiles(walSize, f, id), f[id := InitHeader(ZeroFile(walSize))])
  {
    hide InitHeader, FileStep, ZeroFile;
    CreateIsFileStep(f, id);
    ChainOne(FileStep, f, f[id := []]);
    SizedChain(walSize, f, id);
    var rest := [f[id := ZeroFile(walSize)], f[id := InitHeader(ZeroFile(walSize))]];
    ChainConcat(FileStep, f, [f[id := []]], f[id := []], rest, f[id := InitHeader(ZeroFile(walSize))]);
    assert [f[id := []]] + rest == NewFiles(walSize, f, id);
  }

  // ------------------------------------------------------------ steps of an append

  /** What could be read before can still be read, unchanged. */
  ghost predicate Keeps(view: map<nat, Segment>, view2: map<nat, Segment>) {
    forall pos: nat :: ReadAt(view, pos).Some? ==> ReadAt(view2, pos) == ReadAt(view, pos)
  }

  /** A record written at a position. */
  ghost function Written(op: bv8, key: Key, value: Bytes, pos: Position): Replayed {
    Replayed(WalRecord(op, key, value, Offset(pos) + RECORD_HEADER + |key| + |value|), pos)
  }

  lemma GainedIsWritten(id: nat, s: Segment, op: bv8, key: Key, value: Bytes)
    requires Loaded(s) && HasRoom(s, key, value) && 0 < id < FILE_LIMIT
    ensures var x := Gained(id, s, op, key, value);
      x == Written(op, key, value, x.pos) && MakeRecordPosition(id, s.used) == Some(x.pos)
  {
    LoadedMeans(s);
    PositionParts(id, s.used);
  }

  /** Reading a segment that only grew. */
  lemma GrownReads(s: Segment, op: bv8, key: Key, value: Bytes, offset: nat)
    requires Loaded(s) && HasRoom(s, key, value) && ReadIn(s, offset).Some?
    ensures ReadIn(Grown(s, op, key, value), offset) == ReadIn(s, offset)
  {
    hide Encoded, Load, LoadHeader, SetUsed;
    LoadedMeans(s);
    var g := Grown(s, op, key, value);
    var e := Encoded(op, key, value);
    var d := Exchange(s.data, s.used, s.used + |e|, e);
    var r := RecordAt(s.data, s.used, offset, false);
    assert d[HEADER..] == g.data[HEADER..] by { SetUsedTail(d, s.used + |e|); }
    hide RecordAt;
    SliceOfSlice(d, HEADER, |d|, offset - HEADER, r.value.end - HEADER);
    SliceOfSlice(g.data, HEADER, |d|, offset - HEADER, r.value.end - HEADER);
    assert d[offset..r.value.end] == s.data[offset..r.value.end];
    RecordFrame(s.data, s.used, g.data, g.used, offset, false);
  }

  lemma SetUsedTail(d: Bytes, used: nat)
    requires |d| >= HEADER
    ensures SetUsed(d, used)[HEADER..] == d[HEADER..]
  {
  }

  lemma GrownKeeps(view: map<nat, Segment>, id: nat, op: bv8, key: Key, value: Bytes)
    requires AllLoaded(view) && id in view && HasRoom(view[id], key, value)
    ensures Keeps(view, view[id := Grown(view[id], op, key, value)])
  {
    hide ReadIn, Grown, Loaded, HasRoom;
    forall pos: nat | ReadAt(view, pos).Some?
      ensures ReadAt(view[id := Grown(view[id], op, key, value)], pos) == ReadAt(view, pos)
    {
      if FileNo(pos) == id {
        GrownReads(view[id], op, key, value, Offset(pos));
      }
    }
  }

  ghost predicate Below(view: map<nat, Segment>, id: nat) {
    forall i :: i in view ==> i <= id
  }

  /** A record can be written behind these segments: the last file has room, or a new one may
      be started and has. */
  ghost predicate TakesRecord(walSize: nat, view: map<nat, Segment>, key: Key, value: Bytes) {
    exists id: nat :: Highest(view, id)
      && (Room(view[id], key, value)
          || (id + 1 < FILE_LIMIT && walSize >= HEADER && Room(NewSegment(ZeroFile(walSize)), key, value)))
  }

  lemma TakesHighest(walSize: nat, view: map<nat, Segment>, id: nat, key: Key, value: Bytes)
    requires id in view && forall i :: i in view ==> 0 < i <= id
    ensures TakesRecord(walSize, view, key, value) <==>
      Room(view[id], key, value)
      || (id + 1 < FILE_LIMIT && walSize >= HEADER && Room(NewSegment(ZeroFile(walSize)), key, value))
  {
    hide Room, NewSegment, ZeroFile;
    assert Highest(view, id);
  }

  /** The segments after a record was to be written behind the active one: it goes there if it
      has room; else a new segment is started, as long as there are file numbers, and takes it if
      that has room. */
  ghost function WithRecord(walSize: nat, view: map<nat, Segment>, active: nat, op: bv8, key: Key, value: Bytes)
      : map<nat, Segment>
    requires walSize >= HEADER
  {
    var empty := NewSegment(ZeroFile(walSize));
    if active in view && Room(view[active], key, value) then view[active := Grown(view[active], op, key, value)]
    else if active + 1 >= FILE_LIMIT then view
    else view[active + 1 := if Room(empty, key, value) then Grown(empty, op, key, value) else empty]
  }

  /** The active segment afterwards. */
  ghost function ActiveAfter(view: map<nat, Segment>, active: nat, key: Key, value: Bytes): nat {
    if (active in view && Room(view[active], key, value)) || active + 1 >= FILE_LIMIT then active else active + 1
  }

  lemma RecordPlaced(walSize: nat, view: map<nat, Segment>, active: nat, op: bv8, key: Key, value: Bytes)
    requires walSize >= HEADER && active in view
    ensures var empty, view2 := NewSegment(ZeroFile(walSize)), WithRecord(walSize, view, active, op, key, value);
      && (Room(view[active], key, value) ==>
            HasRoom(view[active], key, value) && view2 == view[active := Grown(view[active], op, key, value)])
      && ActiveAfter(view, active, key, value)
        == (if Room(view[active], key, value) || active + 1 >= FILE_LIMIT then active else active + 1)
      && (!Room(view[active], key, value) && active + 1 >= FILE_LIMIT ==> view2 == view)
      && (!Room(view[active], key, value) && active + 1 < FILE_LIMIT && !Room(empty, key, value) ==>
            view2 == view[active + 1 := empty])
      && (!Room(view[active], key, value) && active + 1 < FILE_LIMIT && Room(empty, key, value) ==>
            && HasRoom(empty, key, value)
            && view2 == view[active + 1 := empty][active + 1 := Grown(empty, op, key, value)])
  {
    hide ZeroFile, InitHeader, Encoded, Appended;
  }

  ghost predicate Highest(view: map<nat, Segment>, id: nat) {
    id in view && Below(view, id)
  }

  lemma GrowStep(walSize: nat, view: map<nat, Segment>, id: nat, op: bv8, key: Key, value: Bytes)
    requires AllFull(view) && Sized(walSize, view) && id in view && Below(view, id)
    requires HasRoom(view[id], key, value) && Writable(op, key, value)
    ensures var view2, x := view[id := Grown(view[id], op, key, value)], Gained(id, view[id], op, key, value);
      && AllFull(view2) && Sized(walSize, view2) && WholeLog(view2) == WholeLog(view) + [x]
      && x == Written(op, key, value, x.pos) && Keeps(view, view2)
      && Shows(walSize, FilesOf(view2), WholeLog(view2))
  {
    hide SegmentLog, Gained, Full, HasRoom, Loaded, TornTail, Shows, Keeps;
    var view2 := view[id := Grown(view[id], op, key, value)];
    FullMeans(view[id]);
    LogGrows(view, id, op, key, value);
    LogAbove(view, id + 1, FILE_LIMIT);
    LogAbove(view2, id + 1, FILE_LIMIT);
    GainedIsWritten(id, view[id], op, key, value);
    AllFullLoaded(view);
    GrownKeeps(view, id, op, key, value);
    RunningShows(walSize, view2);
  }

  lemma AllFullLoaded(view: map<nat, Segment>)
    requires AllFull(view)
    ensures AllLoaded(view)
  {
    forall id | id in view ensures 0 < id < FILE_LIMIT && Loaded(view[id]) {
      assert Full(view[id]);
    }
  }

  /** The files while file id is created: empty, of full size, and with its header. */
  ghost function NewFiles(walSize: nat, files: Files, id: nat): seq<Files>
    requires walSize >= HEADER
  {
    [files[id := []], files[id := ZeroFile(walSize)], files[id := InitHeader(ZeroFile(walSize))]]
  }

  lemma RollStep(walSize: nat, view: map<nat, Segment>, id: nat)
    requires AllFull(view) && Sized(walSize, view) && id < FILE_LIMIT && id > 0 && Below(view, id - 1)
    ensures var view2, files := view[id := NewSegment(ZeroFile(walSize))], FilesOf(view);
      && AllFull(view2) && Sized(walSize, view2) && WholeLog(view2) == WholeLog(view) && Keeps(view, view2)
      && Below(view2, id)
      && AllShow(walSize, NewFiles(walSize, files, id), WholeLog(view))
  {
    hide SegmentLog, Full, Shows, ReadIn, Loaded, ZeroFile, InitHeader;
    var view2 := view[id := NewSegment(ZeroFile(walSize))];
    LogExtended(view, id, ZeroFile(walSize));
    LogAbove(view, id, FILE_LIMIT);
    LogAbove(view2, id + 1, FILE_LIMIT);
    NewFileShows(walSize, view, id, []);
    NewFileShows(walSize, view, id, ZeroFile(walSize));
    NewFileShows(walSize, view, id, InitHeader(ZeroFile(walSize)));
  }

  /** The single steps of writing a record. */
  lemma GrowChain(view: map<nat, Segment>, id: nat, op: bv8, key: Key, value: Bytes, torn: seq<Bytes>)
    requires AllFull(view) && id in view && HasRoom(view[id], key, value)
    requires Chain(ByteStep, view[id].data, torn, Laid(view[id].data, view[id].used, Encoded(op, key, value)))
    ensures var files2 := FilesOf(view[id := Grown(view[id], op, key, value)]);
      Chain(FileStep, FilesOf(view), TornFiles(FilesOf(view), id, torn) + [files2], files2)
  {
    var s, files := view[id], FilesOf(view);
    var laid := Laid(s.data, s.used, Encoded(op, key, value));
    FullMeans(s);
    GrownData(s, op, key, value);
    hide *;
    FileIs(view, id);
    FileIs(view[id := Grown(s, op, key, value)], id);
    FilesGrown(view, id, Grown(s, op, key, value));
    TornFilesChain(files, id, s.data, torn, laid);
    UsedIsFileStep(files, id, laid, Grown(s, op, key, value).used);
    ChainSnoc(FileStep, files, TornFiles(files, id, torn), files[id := laid],
              files[id := Grown(s, op, key, value).data]);
  }

  lemma GrownData(s: Segment, op: bv8, key: Key, value: Bytes)
    requires Loaded(s) && HasRoom(s, key, value)
    ensures var laid, g := Laid(s.data, s.used, Encoded(op, key, value)), Grown(s, op, key, value);
      |laid| >= HEADER && g.data == SetUsed(laid, g.used)
  {
    hide Store, Load, LoadHeader, SetUsed;
    LoadedMeans(s);
  }

  lemma FileIs(view: map<nat, Segment>, id: nat)
    requires id in view
    ensures id in FilesOf(view) && FilesOf(view)[id] == view[id].data
  {
  }

  lemma FilesGrown(view: map<nat, Segment>, id: nat, s: Segment)
    ensures FilesOf(view[id := s]) == FilesOf(view)[id := s.data]
  {
  }

  /** The single steps of a new file. */
  lemma RollChain(walSize: nat, view: map<nat, Segment>, id: nat)
    requires walSize >= HEADER && id !in view
    ensures Chain(FileStep, FilesOf(view), NewFiles(walSize, FilesOf(view), id),
                  FilesOf(view[id := NewSegment(ZeroFile(walSize))]))
  {
    hide ZeroFile, InitHeader, FileStep;
    FilesGrown(view, id, NewSegment(ZeroFile(walSize)));
    NewFilesChain(walSize, FilesOf(view), id);
  }

  // ----------------------------------------------------------------- opening again

  /** Opening a file that was opened before, or was on the way, gives the same segment. */
  lemma OpenAgain(walSize: nat, data: Bytes)
    requires HEADER + RECORD_HEADER <= walSize <= OFFSET_LIMIT && OpenFile(walSize, data).Some?
    ensures var s := OpenFile(walSize, data).value;
      Loaded(s) && |s.data| == walSize && OpenFile(walSize, s.data) == Some(s)
    ensures data == [] ==> OpenFile(walSize, ZeroFile(walSize)) == OpenFile(walSize, [])
  {
    hide Load, Entries;
    HeaderInitialised(ZeroFile(walSize));
    if data != [] && ZeroBytes(data, HEADER) {
      HeaderInitialised(data);
    }
    var s := OpenFile(walSize, data).value;
    MagicLoaded(s.data);
    assert s.data[0] == s.data[0..8][0] == MAGIC[0];
  }

  lemma MagicLoaded(data: Bytes)
    requires LoadHeader(data).Ok?
    ensures |data| >= HEADER && data[0..8] == MAGIC && Load(data[8..12]) == VERSION
  {
  }

  /** Files of which some were opened already. */
  ghost predicate Opening(walSize: nat, files: Files, now: Files)
    requires walSize >= HEADER
  {
    && now.Keys == files.Keys
    && forall id :: id in files ==>
         OpenFile(walSize, files[id]).Some? && OpenFile(walSize, now[id]) == OpenFile(walSize, files[id])
  }

  lemma OpeningShows(walSize: nat, files: Files, now: Files)
    requires HEADER + RECORD_HEADER <= walSize <= OFFSET_LIMIT && Opens(walSize, files) && Opening(walSize, files, now)
    ensures Opens(walSize, now) && OpenView(walSize, now) == OpenView(walSize, files)
  {
    hide OpenFile;
    if files == map[] {
      assert now == map[];
    } else {
      var id :| id in files;
      assert id in now;
    }
  }

  /** The first file of an empty directory, in any state of its creation. */
  lemma FirstFileShows(walSize: nat, data: Bytes)
    requires HEADER + RECORD_HEADER <= walSize <= OFFSET_LIMIT
    requires data == [] || data == ZeroFile(walSize) || data == NewSegment(ZeroFile(walSize)).data
    ensures Opens(walSize, map[1 := data]) && OpenView(walSize, map[1 := data]) == OpenView(walSize, map[])
  {
    hide OpenFile, NewSegment, ZeroFile;
    EmptyOpens(walSize);
    OpenAgain(walSize, []);
    assert 1 in map[1 := data];
  }

  lemma EmptyOpens(walSize: nat)
    requires walSize >= HEADER
    ensures OpenFile(walSize, []) == Some(NewSegment(ZeroFile(walSize)))
  {
  }
}
