/** What a log means: the index a replay builds, and the key-value map behind it. */
module Recovery {
  import opened Wrappers
  import opened Keys
  import opened Codec
  import opened WalFormat
  import opened WalSegments
  import opened WalLog
  import opened Sequences
  import opened CheckpointFiles

  type Positions = map<Key, Position>
  type Values = map<Key, Bytes>

  /** The replay callback: a put binds its key to its own position, a delete unbinds. */
  function PlayOne(index: Positions, x: Replayed): Positions {
    if x.record.op == OP_PUT then index[x.record.key := x.pos] else index - {x.record.key}
  }

  function Play(index: Positions, log: seq<Replayed>): Positions
    decreases |log|
  {
    if log == [] then index else PlayOne(Play(index, log[..|log| - 1]), log[|log| - 1])
  }

  /** The same on values. */
  function MeanOne(m: Values, x: Replayed): Values {
    if x.record.op == OP_PUT then m[x.record.key := x.record.value] else m - {x.record.key}
  }

  function Mean(m: Values, log: seq<Replayed>): Values
    decreases |log|
  {
    if log == [] then m else MeanOne(Mean(m, log[..|log| - 1]), log[|log| - 1])
  }

  lemma PlaySnoc(index: Positions, m: Values, log: seq<Replayed>, x: Replayed)
    ensures Play(index, log + [x]) == PlayOne(Play(index, log), x)
    ensures Mean(m, log + [x]) == MeanOne(Mean(m, log), x)
  {
    assert (log + [x])[..|log|] == log;
  }

  lemma {:induction false} PlayConcat(index: Positions, m: Values, a: seq<Replayed>, b: seq<Replayed>)
    ensures Play(index, a + b) == Play(Play(index, a), b)
    ensures Mean(m, a + b) == Mean(Mean(m, a), b)
    decreases |b|
  {
    if b == [] {
      assert a + b == a;
    } else {
      var n := |b| - 1;
      assert b == b[..n] + [b[n]] && a + b == (a + b[..n]) + [b[n]];
      PlayConcat(index, m, a, b[..n]);
      PlaySnoc(index, m, a + b[..n], b[n]);
    }
  }

  // ------------------------------------------------------------------- snapshots

  datatype OwnedRecord = OwnedRecord(key: Key, value: Bytes, live: bool)

  /** The snapshot records of a store: index 0 stays unused. */
  function SnapshotRecords(items: seq<Item>): (s: seq<OwnedRecord>)
    ensures |s| == |items| + 1
  {
    [OwnedRecord([], [], false)]
    + seq(|items|, i requires 0 <= i < |items| => OwnedRecord(items[i].key, items[i].value, true))
  }

  /** LoadSnapshotRecords: item i is indexed at position i + 1. */
  function SnapshotIndex(items: seq<Item>): Positions {
    if items == [] then map[] else SnapshotIndex(items[..|items| - 1])[items[|items| - 1].key := |items|]
  }

  function SnapshotValues(items: seq<Item>): Values {
    if items == [] then map[]
    else SnapshotValues(items[..|items| - 1])[items[|items| - 1].key := items[|items| - 1].value]
  }

  // -------------------------------------------------------------------- reading

  /** Key and OwnedValue: what a position stands for. */
  ghost function ReadItem(view: map<nat, Segment>, snapshot: seq<OwnedRecord>, pos: Position): Option<Item> {
    if IsSnapshotPosition(pos) then
      if pos < |snapshot| && snapshot[pos].live then Some(Item(snapshot[pos].key, snapshot[pos].value)) else None
    else
      match ReadAt(view, pos)
      case None => None
      case Some(r) => if r.op == OP_PUT then Some(Item(r.key, r.value)) else None
  }

  /** The index and the map have the same keys, and every indexed position is a readable put
      record with that key and that value. */
  ghost predicate Resolves(index: Positions, m: Values, view: map<nat, Segment>, snapshot: seq<OwnedRecord>) {
    && index.Keys == m.Keys
    && forall key :: key in index ==> ReadItem(view, snapshot, index[key]) == Some(Item(key, m[key]))
  }

  lemma ResolvesAt(index: Positions, m: Values, view: map<nat, Segment>, snapshot: seq<OwnedRecord>, key: Key)
    requires Resolves(index, m, view, snapshot) && key in index
    ensures key in m && ReadItem(view, snapshot, index[key]) == Some(Item(key, m[key]))
  {
    hide ReadItem;
  }

  lemma {:induction false} SnapshotResolves(items: seq<Item>, n: nat, view: map<nat, Segment>)
    requires n <= |items| <= MAX_ITEMS
    ensures Resolves(SnapshotIndex(items[..n]), SnapshotValues(items[..n]), view, SnapshotRecords(items))
    ensures forall key :: key in SnapshotIndex(items[..n]) ==> IsSnapshotPosition(SnapshotIndex(items[..n])[key])
    decreases n
  {
    if n > 0 {
      SnapshotResolves(items, n - 1, view);
      assert items[..n][..n - 1] == items[..n - 1];
    }
  }

  /** A replayed log resolves to its meaning. */
  lemma {:induction false} LogResolves(index: Positions, m: Values, log: seq<Replayed>, view: map<nat, Segment>,
                                       snapshot: seq<OwnedRecord>)
    requires Resolves(index, m, view, snapshot)
    requires forall x :: x in log ==> ReadAt(view, x.pos) == Some(x.record) && !IsSnapshotPosition(x.pos)
    ensures Resolves(Play(index, log), Mean(m, log), view, snapshot)
    decreases |log|
  {
    hide ReadAt, IsSnapshotPosition;
    if log != [] {
      var x := log[|log| - 1];
      LogResolves(index, m, log[..|log| - 1], view, snapshot);
    }
  }

  /** Positions stay readable when records are only added. */
  lemma ResolvesKept(index: Positions, m: Values, view: map<nat, Segment>, view2: map<nat, Segment>,
                     snapshot: seq<OwnedRecord>)
    requires Resolves(index, m, view, snapshot)
    requires forall pos: nat :: ReadAt(view, pos).Some? ==> ReadAt(view2, pos) == ReadAt(view, pos)
    ensures Resolves(index, m, view2, snapshot)
  {
    hide ReadAt, IsSnapshotPosition;
    forall key | key in index ensures ReadItem(view2, snapshot, index[key]) == Some(Item(key, m[key])) {
      assert ReadItem(view, snapshot, index[key]) == Some(Item(key, m[key]));
    }
  }

  // ------------------------------------------------------------ recovering a log

  /** What a point-in-time replay of all segments hands out: in file order, up to the first
      record that cannot be read, and nothing from later files. */
  ghost function Kept(view: map<nat, Segment>, i: nat, n: nat): seq<Replayed>
    decreases n - i
  {
    if i >= n then []
    else if i !in view then Kept(view, i + 1, n)
    else SegmentLog(i, view[i]) + if Complete(view[i].data, view[i].used) then Kept(view, i + 1, n) else []
  }

  /** The first segment with a record that cannot be read, or n. */
  ghost function Cut(view: map<nat, Segment>, i: nat, n: nat): (c: nat)
    ensures c >= i
    decreases n - i
  {
    if i >= n then i
    else if i in view && !Complete(view[i].data, view[i].used) then i
    else Cut(view, i + 1, n)
  }

  lemma {:induction false} LogSplit(view: map<nat, Segment>, i: nat, n: nat)
    requires i <= n && forall id :: i <= id < n && id in view ==> Complete(view[id].data, view[id].used)
    ensures LogBelow(view, n) == LogBelow(view, i) + Kept(view, i, n)
    decreases n - i
  {
    hide SegmentLog, Complete;
    if i < n {
      LogSplit(view, i + 1, n);
      if i in view {
        ConcatThree(LogBelow(view, i), SegmentLog(i, view[i]), Kept(view, i + 1, n));
      }
    }
  }

  /** Without damage a replay hands out the whole log. */
  lemma AllKept(view: map<nat, Segment>, n: nat)
    requires AllFull(view)
    ensures Kept(view, 0, n) == LogBelow(view, n)
  {
    hide Kept, LogBelow, Loaded, Complete;
    forall id | 0 <= id < n && id in view ensures Complete(view[id].data, view[id].used) {
      assert Full(view[id]);
    }
    LogSplit(view, 0, n);
    assert LogBelow(view, 0) == [] by { LogNone(view); }
  }

  lemma LogNone(view: map<nat, Segment>)
    ensures LogBelow(view, 0) == []
  {
  }

  // ----------------------------------------------------- the segments after a replay

  /** A segment after a point-in-time replay. */
  ghost function Repaired(s: Segment): Segment
    requires Loaded(s)
  {
    LoadedMeans(s);
    Segment(Truncated(s.data, s.used), LastGood(s.data, s.used, HEADER))
  }

  lemma RepairedFull(id: nat, s: Segment)
    requires Loaded(s)
    ensures Full(Repaired(s)) && SegmentLog(id, Repaired(s)) == SegmentLog(id, s)
    ensures Full(s) ==> Repaired(s) == s
  {
    hide Load, LoadHeader, Entries;
    LoadedMeans(s);
    var end := LastGood(s.data, s.used, HEADER);
    if end != s.used {
      ReplayTruncated(s.data, s.used, end);
      UsedWritten(s.data, end);
    }
  }

  /** The segments when file c was cut and the files behind it, below n, were removed. */
  ghost function Dropped(view: map<nat, Segment>, c: nat, n: nat): map<nat, Segment>
    requires c in view && Loaded(view[c])
  {
    map i | i in view && !(c < i < n) :: if i == c then Repaired(view[c]) else view[i]
  }

  lemma LogNext(view: map<nat, Segment>, id: nat)
    ensures LogBelow(view, id + 1)
      == if id in view then LogBelow(view, id) + SegmentLog(id, view[id]) else LogBelow(view, id)
  {
  }

  lemma {:induction false} KeptNothing(view: map<nat, Segment>, i: nat, n: nat)
    requires forall id :: i <= id < n ==> id !in view
    ensures Kept(view, i, n) == []
    decreases n - i
  {
    if i < n {
      KeptNothing(view, i + 1, n);
    }
  }

  lemma {:induction false} KeptCut(view: map<nat, Segment>, i: nat, c: nat, n: nat)
    requires i <= c < n && c in view && !Complete(view[c].data, view[c].used)
    requires forall id :: i <= id < c && id in view ==> Complete(view[id].data, view[id].used)
    ensures LogBelow(view, i) + Kept(view, i, n) == LogBelow(view, c) + SegmentLog(c, view[c])
    ensures Cut(view, i, n) == c
    decreases c - i
  {
    hide SegmentLog, Complete;
    if i < c {
      KeptCut(view, i + 1, c, n);
      LogNext(view, i);
      if i in view {
        ConcatThree(LogBelow(view, i), SegmentLog(i, view[i]), Kept(view, i + 1, n));
      }
    }
  }

  ghost predicate CompleteBelow(view: map<nat, Segment>, n: nat) {
    forall id :: id in view && id < n ==> Complete(view[id].data, view[id].used)
  }

  /** A replay that met no damage. */
  lemma ReplayedAll(view: map<nat, Segment>, n: nat)
    requires AllLoaded(view) && CompleteBelow(view, n) && n <= FILE_LIMIT && forall id :: id in view ==> id < n
    ensures AllFull(view) && Kept(view, 0, FILE_LIMIT) == LogBelow(view, n) == LogBelow(view, FILE_LIMIT)
  {
    hide Kept, LogBelow, Loaded, Complete;
    AllKept(view, FILE_LIMIT);
    LogSplit(view, n, FILE_LIMIT);
    KeptNothing(view, n, FILE_LIMIT);
    assert LogBelow(view, n) + [] == LogBelow(view, n);
  }

  /** A replay that cut file c. */
  lemma ReplayedCut(view: map<nat, Segment>, c: nat, n: nat)
    requires AllLoaded(view) && CompleteBelow(view, c) && c in view && !Complete(view[c].data, view[c].used)
    requires c < n <= FILE_LIMIT && forall id :: id in view ==> id < n
    ensures var view2 := Dropped(view, c, n);
      && AllFull(view2) && c in view2 && (forall id :: id in view2 ==> 0 < id <= c)
      && Kept(view, 0, FILE_LIMIT) == LogBelow(view, c) + SegmentLog(c, view[c])
      && LogBelow(view2, FILE_LIMIT) == Kept(view, 0, FILE_LIMIT)
      && Cut(view, 0, FILE_LIMIT) == c
  {
    hide Kept, LogBelow, Loaded, Complete, SegmentLog, Repaired, Cut;
    var view2 := Dropped(view, c, n);
    RepairedFull(c, view[c]);
    KeptCut(view, 0, c, FILE_LIMIT);
    LogNone(view);
    assert [] + Kept(view, 0, FILE_LIMIT) == Kept(view, 0, FILE_LIMIT);
    forall id | id in view2 ensures 0 < id < FILE_LIMIT && Full(view2[id]) {
    }
    AllKept(view2, FILE_LIMIT);
    LogSplit(view2, c + 1, FILE_LIMIT);
    KeptNothing(view2, c + 1, FILE_LIMIT);
    LogNext(view2, c);
    LogSame(view, view2, c);
    assert LogBelow(view2, c + 1) + [] == LogBelow(view2, c + 1);
  }

  /** What a point-in-time replay leaves of the segments: up to the first with a record that
      cannot be read all of them, of this one what could be read, and none behind it. */
  ghost function RepairedView(view: map<nat, Segment>): map<nat, Segment> {
    var c := Cut(view, 0, FILE_LIMIT);
    if c in view && Loaded(view[c]) then Dropped(view, c, FILE_LIMIT) else view
  }

  lemma {:induction false} CutIs(view: map<nat, Segment>, i: nat, n: nat)
    requires i <= n
    ensures var c := Cut(view, i, n); c <= n && (c < n ==> c in view && !Complete(view[c].data, view[c].used))
    decreases n - i
  {
    hide Complete;
    if i < n && !(i in view && !Complete(view[i].data, view[i].used)) {
      CutIs(view, i + 1, n);
    }
  }

  lemma NothingRepaired(view: map<nat, Segment>)
    requires AllFull(view)
    ensures RepairedView(view) == view
  {
    hide Cut, Complete, Dropped, Loaded;
    forall id | id in view ensures id < FILE_LIMIT && Complete(view[id].data, view[id].used) {
      assert Full(view[id]);
    }
    CutIs(view, 0, FILE_LIMIT);
  }

  lemma RepairedBy(view: map<nat, Segment>, c: nat, n: nat)
    requires c in view && Loaded(view[c]) && c == Cut(view, 0, FILE_LIMIT) && c < n <= FILE_LIMIT
    requires forall id :: id in view ==> id < n
    ensures RepairedView(view) == Dropped(view, c, n)
  {
    hide Cut, Loaded, Repaired;
  }
}
