/** Where recovery falls short of the promise that a crash leaves a contiguous prefix of what
    was written, and exactly when it keeps it. */
module RecoveryLimits {
  import opened Wrappers
  import opened Keys
  import opened Codec
  import opened WalFormat
  import opened WalSegments
  import opened WalLog
  import opened Sequences
  import opened WalFiles
  import opened Recovery

  lemma KeptStep(view: map<nat, Segment>, i: nat, n: nat)
    ensures i >= n ==> Kept(view, i, n) == []
    ensures i < n && i !in view ==> Kept(view, i, n) == Kept(view, i + 1, n)
    ensures i < n && i in view && Complete(view[i].data, view[i].used) ==>
      Kept(view, i, n) == SegmentLog(i, view[i]) + Kept(view, i + 1, n)
    ensures i < n && i in view && !Complete(view[i].data, view[i].used) ==> Kept(view, i, n) == SegmentLog(i, view[i])
  {
    hide SegmentLog, Complete;
    if i < n && i in view {
      assert SegmentLog(i, view[i]) + [] == SegmentLog(i, view[i]);
    }
  }

  /** What is replayed from file i on comes from file i on. */
  lemma {:induction false} KeptFiles(view: map<nat, Segment>, i: nat, n: nat, x: Replayed)
    requires AllLoaded(view) && x in Kept(view, i, n)
    ensures FileNo(x.pos) >= i
    decreases n - i
  {
    hide Kept, SegmentLog, Complete, Loaded, FileNo;
    KeptStep(view, i, n);
    if i in view && x in SegmentLog(i, view[i]) {
      SegmentReadable(i, view[i], x);
    } else {
      KeptFiles(view, i + 1, n, x);
    }
  }

  // ------------------------------------------------- a crash inside a recovery

  lemma {:induction false} KeptGap(view: map<nat, Segment>, i: nat, n: nat, limit: nat)
    requires i <= n <= limit && forall id :: i <= id < n ==> id !in view
    ensures Kept(view, i, limit) == Kept(view, n, limit)
    decreases n - i
  {
    hide Kept, SegmentLog, Complete;
    if i < n {
      KeptStep(view, i, limit);
      KeptGap(view, i + 1, n, limit);
    }
  }

  /** File c was cut and the files behind it, below n, are gone. */
  lemma {:induction false} KeptDropped(view: map<nat, Segment>, i: nat, c: nat, n: nat, limit: nat)
    requires AllLoaded(view) && i <= c < n <= limit && c in view && !Complete(view[c].data, view[c].used)
    requires forall id :: i <= id < c && id in view ==> Complete(view[id].data, view[id].used)
    ensures Kept(Dropped(view, c, n), i, limit) == Kept(view, i, limit) + Kept(view, n, limit)
    decreases c - i
  {
    hide Kept, SegmentLog, Complete, Loaded, Repaired;
    var view2 := Dropped(view, c, n);
    RepairedFull(c, view[c]);
    KeptStep(view, i, limit);
    KeptStep(view2, i, limit);
    if i < c {
      KeptDropped(view, i + 1, c, n, limit);
      if i in view {
        ConcatThree(SegmentLog(i, view[i]), Kept(view, i + 1, limit), Kept(view, n, limit));
      }
    } else {
      KeptGap(view2, c + 1, n, limit);
      KeptAlike(view, view2, n, limit);
      FullIsComplete(view2[c]);
    }
  }

  lemma FullIsComplete(s: Segment)
    requires Full(s)
    ensures Complete(s.data, s.used)
  {
  }

  lemma {:induction false} KeptAlike(view: map<nat, Segment>, view2: map<nat, Segment>, i: nat, n: nat)
    requires forall id :: i <= id ==> (id in view <==> id in view2) && (id in view ==> view2[id] == view[id])
    ensures Kept(view2, i, n) == Kept(view, i, n)
    decreases n - i
  {
    hide SegmentLog, Complete;
    if i < n {
      KeptAlike(view, view2, i + 1, n);
    }
  }

  lemma {:induction false} CutBounds(view: map<nat, Segment>, i: nat, n: nat)
    requires i <= n && Cut(view, i, n) < n
    ensures var c := Cut(view, i, n); i <= c && c in view && !Complete(view[c].data, view[c].used)
    ensures forall id :: i <= id < Cut(view, i, n) && id in view ==> Complete(view[id].data, view[id].used)
    decreases n - i
  {
    hide Complete;
    if i < n && !(i in view && !Complete(view[i].data, view[i].used)) {
      CutBounds(view, i + 1, n);
    }
  }

  /** Open segments are found again when their files are opened. */
  lemma FoundAgain(walSize: nat, view: map<nat, Segment>)
    requires AllLoaded(view) && Sized(walSize, view)
    ensures Opens(walSize, FilesOf(view)) && OpenView(walSize, FilesOf(view)) == view
  {
    hide Loaded, OpenFile;
    forall id | id in view ensures 0 < id < FILE_LIMIT && OpenFile(walSize, view[id].data) == Some(view[id]) {
      LoadedOpens(walSize, view[id]);
    }
    assert FilesOf(view) != map[] by {
      var id :| id in view;
      assert id in FilesOf(view);
    }
  }

  lemma LoadedOpens(walSize: nat, s: Segment)
    requires Loaded(s) && |s.data| == walSize && walSize >= HEADER
    ensures OpenFile(walSize, s.data) == Some(s)
  {
    hide Load;
    LoadedMeans(s);
    assert s.data[0] == s.data[0..8][0] == MAGIC[0];
  }

  /** No file behind file c has a record to replay. */
  ghost predicate EmptyBehind(view: map<nat, Segment>, c: nat) {
    forall id :: id in view && id > c ==> SegmentLog(id, view[id]) == []
  }

  lemma {:induction false} NothingKept(view: map<nat, Segment>, c: nat, n: nat, limit: nat)
    requires EmptyBehind(view, c) && c < n
    ensures Kept(view, n, limit) == []
    decreases limit - n
  {
    hide Kept, SegmentLog, Complete;
    KeptStep(view, n, limit);
    if n < limit {
      NothingKept(view, c, n + 1, limit);
    }
  }

  /** A point-in-time replay cuts the damaged file c and then removes the files behind it one
      by one. A crash before the removal has reached file n leaves the files from n on, and
      their records come back. The recovered log is the same at every such point exactly when
      no file behind c has a record to replay. */
  lemma CrashInsideRecovery(walSize: nat, view: map<nat, Segment>)
    requires AllLoaded(view) && Sized(walSize, view) && Cut(view, 0, FILE_LIMIT) < FILE_LIMIT
    ensures var c := Cut(view, 0, FILE_LIMIT);
      && c in view && Loaded(view[c])
      && (forall n :: c < n <= FILE_LIMIT ==> CrashedAt(walSize, view, c, n))
      && ((forall n :: c < n <= FILE_LIMIT ==> Kept(Dropped(view, c, n), 0, FILE_LIMIT) == Kept(view, 0, FILE_LIMIT))
          <==> EmptyBehind(view, c))
  {
    hide Kept, Complete, Loaded, Dropped, Cut, Sized, CrashedAt, SegmentLog;
    CutBounds(view, 0, FILE_LIMIT);
    var c := Cut(view, 0, FILE_LIMIT);
    CutInRange(view, c);
    forall n | c < n <= FILE_LIMIT ensures CrashedAt(walSize, view, c, n) {
      CrashedAtAny(walSize, view, c, n);
    }
    if EmptyBehind(view, c) {
      forall n | c < n <= FILE_LIMIT ensures Kept(Dropped(view, c, n), 0, FILE_LIMIT) == Kept(view, 0, FILE_LIMIT) {
        NothingKept(view, c, n, FILE_LIMIT);
        CrashedKeeps(walSize, view, c, n);
      }
    } else {
      var f :| f in view && f > c && SegmentLog(f, view[f]) != [];
      CutInRange(view, f);
      KeptStep(view, f, FILE_LIMIT);
      CrashedKeeps(walSize, view, c, f);
    }
  }

  lemma CutInRange(view: map<nat, Segment>, c: nat)
    requires AllLoaded(view) && c in view
    ensures 0 < c < FILE_LIMIT && Loaded(view[c])
  {
  }

  /** What is left after a crash before file n is opened again, and what it replays. */
  ghost predicate CrashedAt(walSize: nat, view: map<nat, Segment>, c: nat, n: nat) {
    && c in view && Loaded(view[c]) && walSize >= HEADER
    && Opens(walSize, FilesOf(Dropped(view, c, n)))
    && OpenView(walSize, FilesOf(Dropped(view, c, n))) == Dropped(view, c, n)
    && Kept(Dropped(view, c, n), 0, FILE_LIMIT) == Kept(view, 0, FILE_LIMIT) + Kept(view, n, FILE_LIMIT)
  }

  lemma CrashedKeeps(walSize: nat, view: map<nat, Segment>, c: nat, n: nat)
    requires CrashedAt(walSize, view, c, n)
    ensures c in view && Loaded(view[c])
    ensures Kept(Dropped(view, c, n), 0, FILE_LIMIT) == Kept(view, 0, FILE_LIMIT) + Kept(view, n, FILE_LIMIT)
  {
    hide Kept, Loaded, Dropped, Opens, OpenView, FilesOf;
  }

  lemma CrashedAtAny(walSize: nat, view: map<nat, Segment>, c: nat, n: nat)
    requires AllLoaded(view) && Sized(walSize, view) && c in view && !Complete(view[c].data, view[c].used)
    requires forall id :: 0 <= id < c && id in view ==> Complete(view[id].data, view[id].used)
    requires c < n <= FILE_LIMIT
    ensures CrashedAt(walSize, view, c, n)
  {
    hide Kept, Complete, Loaded, Dropped, Opens, OpenView, FilesOf, Sized;
    CutInRange(view, c);
    KeptDropped(view, 0, c, n, FILE_LIMIT);
    DroppedFits(walSize, view, c, n);
    FoundAgain(walSize, Dropped(view, c, n));
  }

  lemma DroppedFits(walSize: nat, view: map<nat, Segment>, c: nat, n: nat)
    requires AllLoaded(view) && Sized(walSize, view) && c in view && Loaded(view[c])
    ensures AllLoaded(Dropped(view, c, n)) && Sized(walSize, Dropped(view, c, n)) && walSize >= HEADER
  {
    hide Repaired, Loaded;
    RepairedFull(c, view[c]);
    RepairedSize(view[c]);
    FullMeans(Repaired(view[c]));
    assert c in Dropped(view, c, n);
  }

  lemma RepairedSize(s: Segment)
    requires Loaded(s)
    ensures |Repaired(s).data| == |s.data|
  {
    hide Load, Entries;
    LoadedMeans(s);
  }

  // ----------------------------------------------------------- a stale header

  /** The same segments, some with the used offset of an earlier time in their header. */
  ghost predicate Stale(view: map<nat, Segment>, view2: map<nat, Segment>) {
    && AllFull(view) && AllLoaded(view2) && view2.Keys == view.Keys
    && forall id :: id in view ==> SetBack(view[id], view2[id])
  }

  ghost predicate SetBack(s: Segment, s2: Segment) {
    HEADER <= s2.used <= s.used <= |s.data| == |s2.data| && s2.data[HEADER..] == s.data[HEADER..]
  }

  lemma SetBackLog(id: nat, s: Segment, s2: Segment)
    requires SetBack(s, s2)
    ensures SegmentLog(id, s2) <= SegmentLog(id, s)
  {
    hide RecordAt;
    var end := LastGood(s2.data, s2.used, HEADER);
    SliceOf(s.data, s2.data, end);
    EntriesKeep(s2.data, s2.used, s.data, s.used, HEADER);
    var es, es2 := Entries(s.data, s.used, HEADER), Entries(s2.data, s2.used, HEADER);
    assert es[..|es2|] == es2;
    assert Positioned(id, es)[..|es2|] == Positioned(id, es2);
  }

  lemma SliceOf(a: Bytes, b: Bytes, end: nat)
    requires HEADER <= end <= |a| == |b| && a[HEADER..] == b[HEADER..]
    ensures a[HEADER..end] == b[HEADER..end]
  {
    assert a[HEADER..end] == a[HEADER..][..end - HEADER];
    assert b[HEADER..end] == b[HEADER..][..end - HEADER];
  }

  ghost predicate CompleteThrough(view: map<nat, Segment>, i: nat, j: nat) {
    forall id :: i <= id <= j && id in view ==> Complete(view[id].data, view[id].used)
  }

  /** No file that ends cleanly at a stale offset has replayed records behind it. */
  ghost predicate NothingSkipped(view: map<nat, Segment>, view2: map<nat, Segment>, i: nat, n: nat) {
    forall j: nat ::
      i <= j < n && Shortened(view, view2, j) && CompleteThrough(view2, i, j) ==> Kept(view2, j + 1, n) == []
  }

  /** File j shows fewer records than were written to it. */
  ghost predicate Shortened(view: map<nat, Segment>, view2: map<nat, Segment>, j: nat) {
    j in view && j in view2 && SegmentLog(j, view2[j]) != SegmentLog(j, view[j])
  }

  lemma NothingSkippedNext(view: map<nat, Segment>, view2: map<nat, Segment>, i: nat, n: nat)
    requires i < n && view2.Keys == view.Keys
    requires i in view ==> Complete(view2[i].data, view2[i].used)
    requires i in view ==> SegmentLog(i, view2[i]) == SegmentLog(i, view[i])
    ensures NothingSkipped(view, view2, i, n) <==> NothingSkipped(view, view2, i + 1, n)
  {
    hide Kept, SegmentLog, Complete;
    forall j: nat | i + 1 <= j < n
      ensures CompleteThrough(view2, i, j) <==> CompleteThrough(view2, i + 1, j) {
    }
  }

  lemma {:induction false} KeptRest(view: map<nat, Segment>, i: nat, j: nat, n: nat)
    requires i <= j < n && CompleteThrough(view, i, j) && Kept(view, i, n) == []
    ensures Kept(view, j + 1, n) == []
    decreases j - i
  {
    hide Kept, SegmentLog, Complete;
    KeptStep(view, i, n);
    if i < j {
      KeptRest(view, i + 1, j, n);
    }
  }

  lemma PrefixOfSum<T>(a: seq<T>, b: seq<T>, c: seq<T>)
    ensures a + b <= a + c <==> b <= c
    ensures a <= b ==> a <= b + c
  {
    if a + b <= a + c {
      assert b == (a + b)[|a|..] && (a + c)[|a|..][..|b|] == c[..|b|];
      assert (a + c)[..|a| + |b|] == a + b;
      assert (a + c)[..|a| + |b|][|a|..] == c[..|b|];
    }
    if b <= c {
      assert (a + c)[..|a| + |b|] == a + b;
    }
    if a <= b {
      assert (b + c)[..|a|] == a;
    }
  }

  /** Records of later files behind a shortened file are not a prefix. */
  lemma NotPrefix(i: nat, a: seq<Replayed>, a2: seq<Replayed>, rest: seq<Replayed>, rest2: seq<Replayed>)
    requires a2 <= a && a2 != a && rest2 != []
    requires (forall x :: x in a ==> FileNo(x.pos) == i) && FileNo(rest2[0].pos) > i
    ensures !(a2 + rest2 <= a + rest)
  {
    hide FileNo;
    assert |a2| < |a|;
    assert (a2 + rest2)[|a2|] == rest2[0] && (a + rest)[|a2|] == a[|a2|] && a[|a2|] in a;
  }

  lemma {:induction false} PrefixFrom(view: map<nat, Segment>, view2: map<nat, Segment>, i: nat, n: nat)
    requires Stale(view, view2)
    ensures Kept(view2, i, n) <= Kept(view, i, n) <==> NothingSkipped(view, view2, i, n)
    decreases n - i
  {
    hide Kept, SegmentLog, Full, Loaded, SetBack, Complete, FileNo;
    KeptStep(view, i, n);
    KeptStep(view2, i, n);
    if i < n {
      PrefixFrom(view, view2, i + 1, n);
      if i !in view {
        NothingSkippedNext(view, view2, i, n);
      } else {
        FullIsComplete(view[i]);
        SetBackLog(i, view[i], view2[i]);
        var a, a2 := SegmentLog(i, view[i]), SegmentLog(i, view2[i]);
        var rest, rest2 := Kept(view, i + 1, n), Kept(view2, i + 1, n);
        PrefixOfSum(a, rest2, rest);
        PrefixOfSum(a2, a, rest);
        if !Complete(view2[i].data, view2[i].used) {
          CutHere(view, view2, i, n);
        } else if a2 == a {
          NothingSkippedNext(view, view2, i, n);
        } else {
          ShortenedHere(view, view2, i, n);
          if rest2 != [] {
            FilesApart(view, view2, i, n);
            NotPrefix(i, a, a2, rest, rest2);
          } else {
            assert a2 + rest2 == a2;
          }
        }
      }
    }
  }

  lemma CutHere(view: map<nat, Segment>, view2: map<nat, Segment>, i: nat, n: nat)
    requires i in view2 && !Complete(view2[i].data, view2[i].used)
    ensures NothingSkipped(view, view2, i, n)
  {
    hide Kept, SegmentLog, Complete;
  }

  lemma ShortenedHere(view: map<nat, Segment>, view2: map<nat, Segment>, i: nat, n: nat)
    requires i < n && i in view && i in view2 && Complete(view2[i].data, view2[i].used)
    requires SegmentLog(i, view2[i]) != SegmentLog(i, view[i])
    ensures NothingSkipped(view, view2, i, n) <==> Kept(view2, i + 1, n) == []
  {
    hide Kept, SegmentLog, Complete;
    assert CompleteThrough(view2, i, i);
    assert Shortened(view, view2, i);
    if Kept(view2, i + 1, n) == [] {
      forall j: nat | i < j < n && CompleteThrough(view2, i, j) ensures Kept(view2, j + 1, n) == [] {
        KeptRest(view2, i + 1, j, n);
      }
    }
  }

  lemma FilesApart(view: map<nat, Segment>, view2: map<nat, Segment>, i: nat, n: nat)
    requires Stale(view, view2) && i in view && Kept(view2, i + 1, n) != []
    ensures forall x :: x in SegmentLog(i, view[i]) ==> FileNo(x.pos) == i
    ensures FileNo(Kept(view2, i + 1, n)[0].pos) > i
  {
    hide Kept, SegmentLog, Loaded, SetBack, Complete, FileNo;
    AllFullLoaded(view);
    forall x | x in SegmentLog(i, view[i]) ensures FileNo(x.pos) == i {
      SegmentReadable(i, view[i], x);
    }
    KeptFiles(view2, i + 1, n, Kept(view2, i + 1, n)[0]);
  }

  /** With stale headers a point-in-time replay still recovers a prefix of the written log
      exactly when no file that ends cleanly at a stale offset has replayed records behind it. */
  lemma PrefixExactly(view: map<nat, Segment>, view2: map<nat, Segment>)
    requires Stale(view, view2)
    ensures Kept(view2, 0, FILE_LIMIT) <= WholeLog(view) <==> NothingSkipped(view, view2, 0, FILE_LIMIT)
  {
    hide Kept, Full, SetBack, Loaded;
    AllKept(view, FILE_LIMIT);
    PrefixFrom(view, view2, 0, FILE_LIMIT);
  }

  // ---------------------------------------------------------------- two examples

  /** The map that binds one key, of a single byte, to an empty value. */
  ghost function OneKey(): Values {
    map[[1] := []]
  }

  /** A segment with one put of an empty value. */
  ghost function OnePut(walSize: nat, key: Key): Segment
    requires HEADER + RECORD_HEADER + |key| <= walSize
  {
    Grown(NewSegment(ZeroFile(walSize)), OP_PUT, key, [])
  }

  lemma OnePutMeans(walSize: nat, id: nat, key: Key)
    requires HEADER + RECORD_HEADER + |key| <= walSize <= OFFSET_LIMIT && |key| <= MAX_KEY_SIZE
    ensures var s := OnePut(walSize, key);
      && Full(s) && |s.data| == walSize && s.used == HEADER + RECORD_HEADER + |key|
      && SegmentLog(id, s) == [Gained(id, NewSegment(ZeroFile(walSize)), OP_PUT, key, [])]
  {
    hide Full, SegmentLog, Encoded, InitHeader, ZeroFile;
    NewIsFull(id, ZeroFile(walSize));
    SegmentGrows(id, NewSegment(ZeroFile(walSize)), OP_PUT, key, []);
  }

  /** A loaded segment with its used offset set back, or on, to another place. */
  ghost function WithUsed(s: Segment, used: nat): Segment
    requires |s.data| >= HEADER
  {
    Segment(SetUsed(s.data, used), used)
  }

  lemma WithUsedMeans(s: Segment, used: nat)
    requires Loaded(s) && HEADER <= used <= |s.data|
    ensures Loaded(WithUsed(s, used)) && WithUsed(s, used).used == used
    ensures WithUsed(s, used).data[HEADER..] == s.data[HEADER..] && |WithUsed(s, used).data| == |s.data|
  {
    hide Load, LoadHeader, SetUsed;
    LoadedMeans(s);
    UsedWritten(s.data, used);
  }

  /** A segment whose records end at the header has none. */
  lemma NoRecords(id: nat, s: Segment)
    requires Loaded(s)
    ensures s.used == HEADER ==> SegmentLog(id, s) == [] && Complete(s.data, s.used)
    ensures s.used == HEADER + 1 ==> SegmentLog(id, s) == [] && !Complete(s.data, s.used)
  {
    hide Load;
    LoadedMeans(s);
  }

  lemma TwoFiles(view: map<nat, Segment>)
    requires view.Keys == {1, 2}
    requires Complete(view[2].data, view[2].used)
    ensures Complete(view[1].data, view[1].used) ==>
      Kept(view, 0, FILE_LIMIT) == SegmentLog(1, view[1]) + SegmentLog(2, view[2])
    ensures !Complete(view[1].data, view[1].used) ==> Kept(view, 0, FILE_LIMIT) == SegmentLog(1, view[1])
    ensures !Complete(view[1].data, view[1].used) ==> Cut(view, 0, FILE_LIMIT) == 1
  {
    hide Kept, SegmentLog, Complete;
    KeptStep(view, 0, FILE_LIMIT);
    KeptStep(view, 1, FILE_LIMIT);
    KeptStep(view, 2, FILE_LIMIT);
    KeptNothing(view, 3, FILE_LIMIT);
    assert SegmentLog(2, view[2]) + [] == SegmentLog(2, view[2]);
  }

  /** A store that wrote one put into each of two files. */
  ghost function TwoPuts(walSize: nat): map<nat, Segment>
    requires HEADER + RECORD_HEADER + 1 <= walSize
  {
    map[1 := OnePut(walSize, []), 2 := OnePut(walSize, [1])]
  }

  /** The same with the header of the first file as it was before the first put. */
  ghost function TwoPutsStale(walSize: nat): map<nat, Segment>
    requires HEADER + RECORD_HEADER + 1 <= walSize
  {
    map[1 := WithUsed(OnePut(walSize, []), HEADER), 2 := OnePut(walSize, [1])]
  }

  /** The promise of a contiguous prefix fails: the second write is recovered without the
      first, which is the outcome of no prefix of the log. */
  lemma StaleHeaderSkipsAWrite(walSize: nat)
    requires HEADER + RECORD_HEADER + 1 <= walSize <= OFFSET_LIMIT
    ensures var view, view2 := TwoPuts(walSize), TwoPutsStale(walSize);
      && Stale(view, view2) && Mean(map[], Kept(view2, 0, FILE_LIMIT)) == OneKey()
      && forall k :: 0 <= k <= |WholeLog(view)| ==> Mean(map[], WholeLog(view)[..k]) != OneKey()
  {
    hide Full, SegmentLog, WithUsed, OnePut, Complete, Kept, LogBelow, NewSegment, ZeroFile;
    var view, view2 := TwoPuts(walSize), TwoPutsStale(walSize);
    OnePutMeans(walSize, 1, []);
    OnePutMeans(walSize, 2, [1]);
    FullMeans(view[1]);
    FullMeans(view[2]);
    FullIsComplete(view[1]);
    FullIsComplete(view[2]);
    WithUsedMeans(view[1], HEADER);
    NoRecords(1, view2[1]);
    hide Loaded;
    TwoFiles(view);
    TwoFiles(view2);
    AllKept(view, FILE_LIMIT);
    var base := NewSegment(ZeroFile(walSize));
    var x1, x2 := Gained(1, base, OP_PUT, [], []), Gained(2, base, OP_PUT, [1], []);
    assert [] + [x2] == [x2] && WholeLog(view) == [x1] + [x2];
    TwoMeans(x1, x2);
  }

  lemma TwoMeans(x1: Replayed, x2: Replayed)
    requires x1.record.op == x2.record.op == OP_PUT && x1.record.key == [] && x2.record.key == [1]
    requires x1.record.value == x2.record.value == []
    ensures Mean(map[], [x2]) == OneKey()
    ensures forall k :: 0 <= k <= 2 ==> Mean(map[], ([x1] + [x2])[..k]) != OneKey()
  {
    var log := [x1] + [x2];
    PlaySnoc(map[], map[], [], x2);
    PlaySnoc(map[], map[], [], x1);
    PlaySnoc(map[], map[], [x1], x2);
    assert [] + [x2] == [x2] && [] + [x1] == [x1];
    assert log[..0] == [] && log[..1] == [x1] && log[..2] == log;
    var empty: Key := [];
    assert empty in Mean(map[], log[..1]) && empty in Mean(map[], log[..2]) && empty !in OneKey();
    var key: Key := [1];
    assert Mean(map[], log[..0]) == map[] && key in OneKey();
  }

  /** A store whose first file is damaged right at its first record. */
  ghost function DamagedFirst(walSize: nat): map<nat, Segment>
    requires HEADER + RECORD_HEADER + 1 <= walSize
  {
    map[1 := WithUsed(NewSegment(ZeroFile(walSize)), HEADER + 1), 2 := OnePut(walSize, [1])]
  }

  /** Recovering it gives the empty map; but when that recovery crashes between its two steps,
      the next one brings back a key of the file that was to be removed. */
  lemma CrashedRecoveryBringsBack(walSize: nat)
    requires HEADER + RECORD_HEADER + 1 <= walSize <= OFFSET_LIMIT
    ensures var view := DamagedFirst(walSize);
      && AllLoaded(view) && Mean(map[], Kept(view, 0, FILE_LIMIT)) == map[]
      && Mean(map[], Kept(view[1 := Repaired(view[1])], 0, FILE_LIMIT)) == OneKey()
  {
    hide Full, SegmentLog, WithUsed, OnePut, Complete, Kept, NewSegment, ZeroFile, Repaired;
    var view := DamagedFirst(walSize);
    OnePutMeans(walSize, 2, [1]);
    NewIsFull(1, ZeroFile(walSize));
    NewSize(walSize);
    FullMeans(view[2]);
    FullMeans(NewSegment(ZeroFile(walSize)));
    FullIsComplete(view[2]);
    WithUsedMeans(NewSegment(ZeroFile(walSize)), HEADER + 1);
    NoRecords(1, view[1]);
    var view2 := view[1 := Repaired(view[1])];
    RepairedFull(1, view[1]);
    FullIsComplete(view2[1]);
    hide Loaded;
    TwoFiles(view);
    TwoFiles(view2);
    var x := Gained(2, NewSegment(ZeroFile(walSize)), OP_PUT, [1], []);
    assert [] + [x] == [x];
    PlaySnoc(map[], map[], [], x);
  }
}
