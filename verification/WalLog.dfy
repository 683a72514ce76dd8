/** The log that a set of segment files holds: file by file, record by record. */
module WalLog {
  import opened Wrappers
  import opened Keys
  import opened Codec
  import opened WalFormat
  import opened WalSegments
  import opened Sequences

  /** An open segment: its bytes and how many of them are in use. */
  datatype Segment = Segment(data: Bytes, used: nat)

  ghost predicate Loaded(s: Segment) {
    && HEADER + RECORD_HEADER <= |s.data| <= OFFSET_LIMIT
    && LoadHeader(s.data) == Ok(s.used) && s.data[0..8] == MAGIC && Load(s.data[8..12]) == VERSION
  }

  ghost predicate AllLoaded(view: map<nat, Segment>) {
    forall id :: id in view ==> 0 < id < FILE_LIMIT && Loaded(view[id])
  }

  ghost predicate Full(s: Segment) {
    Loaded(s) && Complete(s.data, s.used)
  }

  /** Every segment consists of records up to its used offset. */
  ghost predicate AllFull(view: map<nat, Segment>) {
    forall id :: id in view ==> 0 < id < FILE_LIMIT && Full(view[id])
  }

  /** The records of one segment under their positions. */
  ghost function SegmentLog(id: nat, s: Segment): seq<Replayed> {
    if s.used <= |s.data| then Positioned(id, Entries(s.data, s.used, HEADER)) else []
  }

  /** The records of all segments numbered below n, in file order. */
  ghost function LogBelow(view: map<nat, Segment>, n: nat): seq<Replayed>
    decreases n
  {
    if n == 0 then []
    else if n - 1 in view then LogBelow(view, n - 1) + SegmentLog(n - 1, view[n - 1])
    else LogBelow(view, n - 1)
  }

  lemma {:induction false} LogSame(view: map<nat, Segment>, view2: map<nat, Segment>, n: nat)
    requires forall id :: id < n ==> (id in view <==> id in view2) && (id in view ==> view2[id] == view[id])
    ensures LogBelow(view2, n) == LogBelow(view, n)
    decreases n
  {
    hide SegmentLog;
    if n > 0 {
      LogSame(view, view2, n - 1);
    }
  }

  // ----------------------------------------------------------------- growing logs

  ghost predicate Writable(op: bv8, key: Key, value: Bytes) {
    (op == OP_PUT || (op == OP_DELETE && value == [])) && |key| <= MAX_KEY_SIZE && |value| < U32
  }

  ghost predicate HasRoom(s: Segment, key: Key, value: Bytes) {
    HEADER <= s.used && s.used + RECORD_HEADER + |key| + |value| <= |s.data|
  }

  /** What WalSegment::Append checks of an unsealed segment. */
  ghost predicate Room(s: Segment, key: Key, value: Bytes) {
    |key| < U32 && |value| < U32 && HasRoom(s, key, value)
  }

  /** The segment with a record behind the others. */
  ghost function Grown(s: Segment, op: bv8, key: Key, value: Bytes): Segment
    requires HasRoom(s, key, value)
  {
    Segment(Appended(s.data, s.used, Encoded(op, key, value)), s.used + RECORD_HEADER + |key| + |value|)
  }

  /** The record it gained. */
  ghost function Gained(id: nat, s: Segment, op: bv8, key: Key, value: Bytes): Replayed {
    Replayed(WalRecord(op, key, value, s.used + RECORD_HEADER + |key| + |value|), id * OFFSET_LIMIT + s.used)
  }

  lemma LoadedMeans(s: Segment)
    requires Loaded(s)
    ensures HEADER <= s.used <= |s.data| <= OFFSET_LIMIT && |s.data| >= HEADER
  {
  }

  lemma GrownLoaded(s: Segment, op: bv8, key: Key, value: Bytes)
    requires Loaded(s) && HasRoom(s, key, value)
    ensures Loaded(Grown(s, op, key, value))
  {
    hide Load, Store, LoadHeader, Encoded;
    LoadedMeans(s);
    var e := Encoded(op, key, value);
    var d := Exchange(s.data, s.used, s.used + |e|, e);
    assert d[0..8] == s.data[0..8] && d[8..12] == s.data[8..12];
    UsedWritten(d, s.used + |e|);
  }

  lemma SegmentGrows(id: nat, s: Segment, op: bv8, key: Key, value: Bytes)
    requires Full(s) && HasRoom(s, key, value) && Writable(op, key, value)
    ensures Full(Grown(s, op, key, value))
    ensures SegmentLog(id, Grown(s, op, key, value)) == SegmentLog(id, s) + [Gained(id, s, op, key, value)]
  {
    hide Encoded, Entries, LastGood, Load, LoadHeader, Appended;
    LoadedMeans(s);
    GrownLoaded(s, op, key, value);
    AppendAdds(s.data, s.used, op, key, value);
    PositionedSnoc(id, Entries(s.data, s.used, HEADER),
                   Entry(s.used, WalRecord(op, key, value, s.used + RECORD_HEADER + |key| + |value|)));
  }

  lemma PositionedSnoc(id: nat, es: seq<Entry>, e: Entry)
    ensures Positioned(id, es + [e]) == Positioned(id, es) + [Replayed(e.record, id * OFFSET_LIMIT + e.offset)]
  {
  }

  /** A record written into the segment with the highest number is the last of the log. */
  lemma LogGrows(view: map<nat, Segment>, id: nat, op: bv8, key: Key, value: Bytes)
    requires AllFull(view) && id in view && HasRoom(view[id], key, value) && Writable(op, key, value)
    ensures var view2 := view[id := Grown(view[id], op, key, value)];
      AllFull(view2) && LogBelow(view2, id + 1) == LogBelow(view, id + 1) + [Gained(id, view[id], op, key, value)]
  {
    hide SegmentLog, Grown, Gained, Full, HasRoom;
    var view2 := view[id := Grown(view[id], op, key, value)];
    SegmentGrows(id, view[id], op, key, value);
    LogSame(view, view2, id);
    ConcatThree(LogBelow(view, id), SegmentLog(id, view[id]), [Gained(id, view[id], op, key, value)]);
  }

  /** A file that was just given its size. */
  ghost function ZeroFile(n: nat): (data: Bytes)
    ensures |data| == n && forall i :: 0 <= i < n ==> data[i] == 0
  {
    seq(n, i => 0)
  }

  ghost function NewSegment(data: Bytes): Segment
    requires |data| >= HEADER
  {
    Segment(InitHeader(data), HEADER)
  }

  lemma NewIsFull(id: nat, data: Bytes)
    requires HEADER + RECORD_HEADER <= |data| <= OFFSET_LIMIT
    ensures Full(NewSegment(data)) && SegmentLog(id, NewSegment(data)) == []
  {
    hide Entries, LastGood, Load, LoadHeader, InitHeader;
    HeaderInitialised(data);
  }

  /** A new segment has no records. */
  lemma LogExtended(view: map<nat, Segment>, id: nat, data: Bytes)
    requires AllFull(view) && id !in view && 0 < id < FILE_LIMIT
    requires HEADER + RECORD_HEADER <= |data| <= OFFSET_LIMIT
    ensures var view2 := view[id := NewSegment(data)];
      AllFull(view2) && LogBelow(view2, id + 1) == LogBelow(view, id)
    ensures LogBelow(view, id + 1) == LogBelow(view, id)
  {
    hide SegmentLog, NewSegment, Full;
    NewIsFull(id, data);
    LogSame(view, view[id := NewSegment(data)], id);
  }

  // --------------------------------------------------------------- reading records

  /** Segment(file_no)->RecordAt(pos, false) */
  ghost function ReadAt(view: map<nat, Segment>, pos: Position): Option<WalRecord> {
    if FileNo(pos) !in view then None else ReadIn(view[FileNo(pos)], Offset(pos))
  }

  ghost function ReadIn(s: Segment, offset: nat): Option<WalRecord> {
    if s.used > |s.data| then None
    else
      match RecordAt(s.data, s.used, offset, false)
      case Err(_) => None
      case Ok(r) => Some(r)
  }

  lemma SegmentReadable(id: nat, s: Segment, x: Replayed)
    requires Loaded(s) && 0 < id < FILE_LIMIT && x in SegmentLog(id, s)
    ensures FileNo(x.pos) == id && ReadIn(s, Offset(x.pos)) == Some(x.record)
    ensures !IsSnapshotPosition(x.pos) && x.pos < NodeStore.CHILD_TAG
    ensures |x.record.key| <= MAX_KEY_SIZE && (x.record.op == OP_PUT || x.record.op == OP_DELETE)
  {
    hide Entries, Load;
    LoadedMeans(s);
    var es := Entries(s.data, s.used, HEADER);
    var i :| 0 <= i < |es| && Positioned(id, es)[i] == x;
    assert es[i] in es;
    OffsetsFit(s.data, s.used);
    PositionedAt(id, es, i);
    EntryInSegment(id, s, es[i]);
  }

  lemma PositionedAt(id: nat, es: seq<Entry>, i: nat)
    requires i < |es|
    ensures Positioned(id, es)[i] == Replayed(es[i].record, id * OFFSET_LIMIT + es[i].offset)
  {
  }

  lemma EntryInSegment(id: nat, s: Segment, e: Entry)
    requires Loaded(s) && s.used <= |s.data| && 0 < id < FILE_LIMIT
    requires e in Entries(s.data, s.used, HEADER) && e.offset < OFFSET_LIMIT
    ensures var pos := id * OFFSET_LIMIT + e.offset;
      && FileNo(pos) == id && ReadIn(s, Offset(pos)) == Some(e.record)
      && !IsSnapshotPosition(pos) && pos < NodeStore.CHILD_TAG
    ensures |e.record.key| <= MAX_KEY_SIZE && (e.record.op == OP_PUT || e.record.op == OP_DELETE)
  {
    hide Entries, Load, RecordAt;
    EntryReadable(s.data, s.used, HEADER, e);
    PositionParts(id, e.offset);
  }

  /** Every record of the log is read back at its position. */
  lemma {:induction false} LogReadable(view: map<nat, Segment>, n: nat, x: Replayed)
    requires AllLoaded(view) && x in LogBelow(view, n)
    ensures 0 < FileNo(x.pos) < n && FileNo(x.pos) in view && ReadAt(view, x.pos) == Some(x.record)
    ensures !IsSnapshotPosition(x.pos) && x.pos < NodeStore.CHILD_TAG
    ensures |x.record.key| <= MAX_KEY_SIZE && (x.record.op == OP_PUT || x.record.op == OP_DELETE)
    decreases n
  {
    hide Loaded, SegmentLog, ReadIn, FileNo, Offset, IsSnapshotPosition;
    if x in LogBelow(view, n - 1) {
      LogReadable(view, n - 1, x);
    } else {
      SegmentReadable(n - 1, view[n - 1], x);
    }
  }

  /** The positions of a log rise, so no two of its records share one. */
  ghost predicate Rising(log: seq<Replayed>) {
    forall i, j :: 0 <= i < j < |log| ==> log[i].pos < log[j].pos
  }

  lemma {:induction false} LogRising(view: map<nat, Segment>, n: nat)
    requires AllLoaded(view)
    ensures Rising(LogBelow(view, n))
    decreases n
  {
    hide Loaded, SegmentLog;
    if n > 0 {
      LogRising(view, n - 1);
      if n - 1 in view {
        SegmentRising(n - 1, view[n - 1]);
        var a, b := LogBelow(view, n - 1), SegmentLog(n - 1, view[n - 1]);
        forall x, y | x in a && y in b ensures x.pos < y.pos {
          LogReadable(view, n - 1, x);
          SegmentReadable(n - 1, view[n - 1], y);
        }
        RisingConcat(a, b);
      }
    }
  }

  lemma RisingConcat(a: seq<Replayed>, b: seq<Replayed>)
    requires Rising(a) && Rising(b) && forall x, y :: x in a && y in b ==> x.pos < y.pos
    ensures Rising(a + b)
  {
    var c := a + b;
    forall i, j | 0 <= i < j < |c| ensures c[i].pos < c[j].pos {
      if i < |a| && j >= |a| {
        assert a[i] in a && b[j - |a|] in b;
      }
    }
  }

  lemma SegmentRising(id: nat, s: Segment)
    ensures Rising(SegmentLog(id, s))
  {
    if s.used <= |s.data| {
      EntriesRising(s.data, s.used, HEADER);
    }
  }

  ghost predicate OffsetsRise(es: seq<Entry>, from: nat) {
    && (forall i :: 0 <= i < |es| ==> from <= es[i].offset)
    && forall i, j :: 0 <= i < j < |es| ==> es[i].offset < es[j].offset
  }

  lemma {:induction false} EntriesRising(data: Bytes, used: nat, offset: nat)
    requires used <= |data|
    ensures OffsetsRise(Entries(data, used, offset), offset)
    decreases used - offset
  {
    hide RecordCrc, LoadCrc, Load;
    if offset < used && RecordAt(data, used, offset, true).Ok? {
      var r := RecordAt(data, used, offset, true).value;
      hide RecordAt;
      EntriesRising(data, used, r.end);
      assert Entries(data, used, offset) == [Entry(offset, r)] + Entries(data, used, r.end);
    }
  }
}
