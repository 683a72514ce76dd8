/** The segmented record store (SegmentedRecordStore of store.cc): mapped segments by file
    number, one of them active, and the records of the snapshot the generation started from. */
module RecordStores {
  import opened Wrappers
  import opened Keys
  import opened Codec
  import opened WalFormat
  import opened WalSegments
  import opened WalLog
  import opened CheckpointFiles
  import opened Recovery
  import opened WalFiles
  import opened Sequences

  class SegmentedRecordStore {
    const walSize: nat
    var generation: nat
    var activeFileNo: nat
    var nextFileNo: nat
    var segments: map<nat, WalSegment>
    var snapshotRecords: seq<OwnedRecord>
    ghost var Repr: set<object>

    ghost predicate Owns(id: nat)
      reads this, Repr
    {
      id in segments ==>
        && segments[id] in Repr && segments[id].data in Repr
        && segments[id].Valid() && segments[id].fileNo == id && segments[id].data.Length == walSize
    }

    /** Only the active segment takes records. */
    ghost predicate Sealing(id: nat)
      reads this, Repr
    {
      id in segments && segments[id] in Repr ==> (segments[id].isSealed <==> id != activeFileNo)
    }

    ghost predicate Apart(i: nat, j: nat)
      reads this
    {
      i in segments && j in segments && i != j ==>
        segments[i] != segments[j] && segments[i].data != segments[j].data
    }

    /** The segments are open and apart, whichever is the active one. */
    ghost predicate Held()
      reads this, Repr
    {
      && this in Repr && HEADER + RECORD_HEADER <= walSize <= OFFSET_LIMIT
      && generation > 0 && |snapshotRecords| > 0
      && (forall id: nat :: Owns(id))
      && (forall i: nat, j: nat :: Apart(i, j))
    }

    ghost predicate Valid()
      reads this, Repr
    {
      && Held() && activeFileNo in segments && nextFileNo == activeFileNo + 1
      && (forall id :: id in segments ==> 0 < id <= activeFileNo)
      && (forall id: nat :: Sealing(id))
    }

    ghost function SegmentAt(id: nat): Segment
      reads this, Repr
      requires id in segments && segments[id] in Repr && segments[id].data in Repr
    {
      Segment(segments[id].data[..], segments[id].used)
    }

    /** The open segments by number. */
    ghost function View(): map<nat, Segment>
      reads this, Repr
      requires Held()
    {
      map id: nat | id in segments && Owns(id) :: SegmentAt(id)
    }

    /** The records of all segments in file order. */
    ghost function Log(): seq<Replayed>
      reads this, Repr
      requires Valid()
    {
      WholeLog(View())
    }

    lemma ViewMeans()
      requires Held()
      ensures View().Keys == segments.Keys && AllLoaded(View())
      ensures forall id: nat :: id in segments ==> segments[id] in Repr && segments[id].data in Repr
      ensures forall id: nat :: id in segments ==> View()[id] == SegmentAt(id) && |View()[id].data| == walSize
    {
      forall id: nat | id in segments ensures id in View() && Loaded(SegmentAt(id)) && 0 < id < FILE_LIMIT {
        assert Owns(id);
        segments[id].ValidMeans();
      }
    }

    lemma ViewAt(id: nat)
      requires Held()
      ensures id in View() <==> id in segments
      ensures id in segments ==> segments[id] in Repr && segments[id].data in Repr && View()[id] == SegmentAt(id)
    {
      assert Owns(id);
    }

    // ------------------------------------------------------------ editing segments

    /** The segment i is the same object as before, in the same state, its seal aside. */
    twostate predicate Same(i: nat)
      reads *
    {
      && i in segments && i in old(segments) && segments[i] == old(segments[i])
      && segments[i] in old(Repr) && segments[i].data in old(Repr) && segments[i] in Repr && segments[i].data in Repr
      && segments[i].used == old(segments[i].used) && segments[i].data[..] == old(segments[i].data[..])
    }

    /** Only the segment object under id changed. */
    twostate predicate OnlySegment(id: nat)
      reads *
    {
      && old(Held()) && id in segments && segments == old(segments) && Repr == old(Repr)
      && generation == old(generation) && activeFileNo == old(activeFileNo) && nextFileNo == old(nextFileNo)
      && snapshotRecords == old(snapshotRecords)
      && Owns(id)
      && forall o :: o in old(Repr) && o != this && o != segments[id] && o != segments[id].data ==> unchanged(o)
    }

    twostate lemma OthersSame(id: nat)
      requires OnlySegment(id)
      ensures forall i: nat :: i in segments && i != id ==> Same(i) && Owns(i)
      ensures forall i: nat, j: nat :: Apart(i, j)
    {
      forall i: nat | i in segments && i != id ensures Same(i) && Owns(i) {
        assert old(Owns(i)) && old(Owns(id)) && old(Apart(i, id));
      }
      forall i: nat, j: nat ensures Apart(i, j) {
        assert old(Apart(i, j));
      }
    }

    twostate lemma SameViews()
      requires old(Held()) && Held()
      ensures forall i: nat :: Same(i) ==> i in View() && i in old(View()) && View()[i] == old(View())[i]
      ensures forall i: nat :: i in old(View()) <==> i in old(segments)
      ensures forall i: nat :: i in View() <==> i in segments
    {
      forall i: nat
        ensures Same(i) ==> i in View() && i in old(View()) && View()[i] == old(View())[i]
        ensures i in old(View()) <==> i in old(segments)
        ensures i in View() <==> i in segments
      {
        assert Owns(i) && old(Owns(i));
      }
    }

    twostate lemma Edited(id: nat)
      requires OnlySegment(id)
      ensures Held() && id in View() && segments[id] in Repr && segments[id].data in Repr
      ensures View() == old(View())[id := Segment(segments[id].data[..], segments[id].used)]
    {
      hide View, Same, Owns, Apart, Held;
      OthersSame(id);
      EditedHeld(id);
      SameViews();
      ViewAt(id);
      EditedMap(old(View()), View(), id);
    }

    twostate lemma EditedHeld(id: nat)
      requires OnlySegment(id)
      requires forall i: nat :: i in segments && i != id ==> Same(i) && Owns(i)
      requires forall i: nat, j: nat :: Apart(i, j)
      ensures Held()
    {
      hide Same, Apart;
      forall i: nat ensures Owns(i) {
      }
    }

    /** A segment edited without touching its seal. */
    twostate lemma StillValid(id: nat)
      requires OnlySegment(id) && old(Valid()) && Held()
      requires segments[id].isSealed == old(segments[id].isSealed)
      ensures Valid()
    {
      forall i: nat ensures Sealing(i) {
        assert old(Sealing(i)) && old(Owns(i)) && old(Owns(id)) && old(Apart(i, id));
      }
    }

    /** Segments may have left the table and fields may have changed, but no segment did. */
    twostate predicate OnlyTable()
      reads *
    {
      && old(Held()) && Repr == old(Repr) && generation > 0 && |snapshotRecords| > 0
      && (forall i :: i in segments ==> i in old(segments) && segments[i] == old(segments[i]))
      && forall o :: o in old(Repr) && o != this ==> unchanged(o)
    }

    twostate lemma TableSame()
      requires OnlyTable()
      ensures forall i: nat :: i in segments ==> Same(i)
      ensures forall i: nat :: Owns(i)
      ensures forall i: nat, j: nat :: Apart(i, j)
    {
      forall i: nat | i in segments ensures Same(i) {
        assert old(Owns(i));
      }
      forall i: nat ensures Owns(i) {
        assert old(Owns(i));
      }
      forall i: nat, j: nat ensures Apart(i, j) {
        assert old(Apart(i, j));
      }
    }

    twostate lemma TableKept()
      requires OnlyTable()
      ensures Held() && View().Keys == segments.Keys && old(View()).Keys == old(segments).Keys
      ensures forall i: nat :: i in segments ==> i in old(View()) && View()[i] == old(View())[i]
      ensures segments == old(segments) ==> View() == old(View())
    {
      hide Same, Owns, Apart, View;
      TableSame();
      TableHeld();
      SameViews();
      if segments == old(segments) {
        assert View() == old(View());
      }
    }

    twostate lemma TableHeld()
      requires OnlyTable()
      requires forall i: nat :: Owns(i)
      requires forall i: nat, j: nat :: Apart(i, j)
      ensures Held()
    {
      hide Owns, Apart;
    }

    twostate lemma SealsKept()
      requires OnlyTable() && old(Valid()) && segments == old(segments) && activeFileNo == old(activeFileNo)
      ensures forall i: nat :: Sealing(i)
    {
      forall i: nat ensures Sealing(i) {
        assert old(Sealing(i)) && old(Owns(i));
      }
    }

    // ---------------------------------------------------------------- appending

    lemma ActiveReady()
      requires Valid()
      ensures Held() && activeFileNo in segments
      ensures segments[activeFileNo] in Repr && segments[activeFileNo].data in Repr
      ensures segments[activeFileNo].Valid() && !segments[activeFileNo].isSealed
      ensures segments[activeFileNo].fileNo == activeFileNo && segments[activeFileNo].data.Length == walSize
      ensures this in Repr
      ensures activeFileNo in View()
      ensures View()[activeFileNo] == Segment(segments[activeFileNo].data[..], segments[activeFileNo].used)
      ensures HEADER <= segments[activeFileNo].used <= walSize
    {
      assert Owns(activeFileNo) && Sealing(activeFileNo);
      segments[activeFileNo].ValidMeans();
    }

    /** The record goes into the active segment, if it has room. */
    method AppendActive(op: bv8, key: Key, value: Bytes) returns (r: Result<Position>, ghost torn: seq<Bytes>)
      requires Valid()
      modifies Repr
      ensures Valid() && Held() && Repr == old(Repr) && segments == old(segments) && generation == old(generation)
      ensures activeFileNo == old(activeFileNo) && snapshotRecords == old(snapshotRecords) && activeFileNo in View()
      ensures r.Ok? <==> Room(old(View())[activeFileNo], key, value)
      ensures r.Err? ==> r == Err(WalFull) && View() == old(View())
      ensures r.Ok? ==> HasRoom(old(View())[activeFileNo], key, value)
      ensures r.Ok? ==> View() == old(View())[activeFileNo := Grown(old(View())[activeFileNo], op, key, value)]
      ensures r.Ok? ==> r.value == Gained(activeFileNo, old(View())[activeFileNo], op, key, value).pos
      ensures AllTorn(old(View())[activeFileNo], torn)
      ensures |torn| == if r.Ok? then RECORD_HEADER + |key| + |value| else 0
      ensures var s := old(View())[activeFileNo];
        r.Ok? ==> Chain(ByteStep, s.data, torn, Laid(s.data, s.used, Encoded(op, key, value)))
    {
      hide *;
      ActiveReady();
      ghost var s := View()[activeFileNo];
      AppendMeans(activeFileNo, segments[activeFileNo], s, op, key, value);
      r, torn := segments[activeFileNo].Append(op, key, value);
      EncodedLength(op, key, value);
      KeepIsTorn(s, torn);
      OwnsActive();
      IsOnlySegment(activeFileNo);
      Edited(activeFileNo);
      StillValid(activeFileNo);
      ActiveReady();
      PutSame(old(View()), activeFileNo);
    }

    twostate lemma IsOnlySegment(id: nat)
      requires old(Held()) && id in segments && segments == old(segments) && Repr == old(Repr)
      requires generation == old(generation) && activeFileNo == old(activeFileNo) && nextFileNo == old(nextFileNo)
      requires snapshotRecords == old(snapshotRecords) && Owns(id)
      requires forall o :: o in old(Repr) && o != this && o != segments[id] && o != segments[id].data ==> unchanged(o)
      ensures OnlySegment(id)
    {
    }

    lemma OwnsActive()
      requires activeFileNo in segments && segments[activeFileNo] in Repr && segments[activeFileNo].data in Repr
      requires segments[activeFileNo].Valid() && !segments[activeFileNo].isSealed
      requires segments[activeFileNo].fileNo == activeFileNo && segments[activeFileNo].data.Length == walSize
      ensures Owns(activeFileNo)
    {
    }

    // ------------------------------------------------------------------ rollover

    /** A fresh segment under the next number became the active one. */
    twostate predicate NewFile(id: nat)
      reads *
    {
      && old(Valid()) && id == old(nextFileNo) && 0 < id < FILE_LIMIT
      && id in segments && id !in old(segments) && segments == old(segments)[id := segments[id]]
      && activeFileNo == id && nextFileNo == id + 1 && generation == old(generation)
      && snapshotRecords == old(snapshotRecords)
      && fresh(segments[id]) && fresh(segments[id].data)
      && Repr == old(Repr) + {segments[id], segments[id].data}
      && Owns(id) && !segments[id].isSealed
      && old(activeFileNo) in segments && segments[old(activeFileNo)].isSealed
      && segments[old(activeFileNo)].used == old(segments[activeFileNo].used)
      && forall o :: o in old(Repr) && o != this && o != segments[old(activeFileNo)] ==> unchanged(o)
    }

    twostate lemma FilesKept(id: nat)
      requires NewFile(id)
      ensures forall i: nat :: i in old(segments) ==> Same(i) && Owns(i)
      ensures forall i: nat, j: nat :: Apart(i, j)
      ensures forall i: nat :: Sealing(i)
      ensures old(Valid()) && id in segments && id !in old(segments)
      ensures forall i: nat :: i in segments <==> i in old(segments) || i == id
    {
      forall i: nat | i in old(segments) ensures Same(i) && Owns(i) {
        assert old(Owns(i)) && old(Owns(activeFileNo)) && old(Apart(i, activeFileNo));
      }
      forall i: nat, j: nat ensures Apart(i, j) {
        assert old(Apart(i, j)) && old(Owns(i)) && old(Owns(j));
      }
      forall i: nat ensures Sealing(i) {
        assert old(Sealing(i)) && old(Owns(i)) && old(Owns(activeFileNo)) && old(Apart(i, activeFileNo));
      }
    }

    twostate lemma ExtendedParts(id: nat)
      requires NewFile(id)
      ensures this in Repr && HEADER + RECORD_HEADER <= walSize <= OFFSET_LIMIT && generation > 0
      ensures |snapshotRecords| > 0
      ensures activeFileNo in segments && nextFileNo == activeFileNo + 1 && Owns(id)
      ensures forall i :: i in segments ==> 0 < i <= activeFileNo
      ensures forall i: nat :: i in segments <==> i in old(segments) || i == id
    {
      hide Owns, Apart, Sealing;
    }

    twostate lemma ExtendedValid(id: nat)
      requires NewFile(id)
      requires forall i: nat :: i in old(segments) ==> Same(i) && Owns(i)
      requires forall i: nat, j: nat :: Apart(i, j)
      requires forall i: nat :: Sealing(i)
      ensures Valid()
    {
      hide Same, Apart, Sealing, NewFile;
      ExtendedParts(id);
      forall i: nat ensures Owns(i) {
        if i in segments {
          assert i in old(segments) || i == id;
        }
      }
    }

    lemma ValidIsHeld()
      requires Valid()
      ensures Held()
    {
    }

    twostate lemma Extended(id: nat)
      requires NewFile(id)
      ensures Valid() && Held() && id !in old(View()) && segments[id] in Repr && segments[id].data in Repr
      ensures View() == old(View())[id := Segment(segments[id].data[..], segments[id].used)]
    {
      hide View, Same, Owns, Apart, Held, NewFile, Valid;
      FilesKept(id);
      ExtendedValid(id);
      ValidIsHeld();
      SameViews();
      ViewAt(id);
      AddedMap(old(View()), View(), id);
    }

    /** Rollover: the active segment is sealed and the next one opened. It fails, changing
        nothing, only when file numbers run out. */
    method Rollover() returns (r: Result<()>)
      requires Valid()
      modifies Repr
      ensures Valid() && Held() && fresh(Repr - old(Repr))
      ensures generation == old(generation) && snapshotRecords == old(snapshotRecords)
      ensures r.Err? <==> old(nextFileNo) >= FILE_LIMIT
      ensures r.Err? ==> r == Err(CorruptWal) && View() == old(View()) && activeFileNo == old(activeFileNo)
      ensures r.Ok? ==> activeFileNo == old(nextFileNo) && activeFileNo !in old(View())
      ensures r.Ok? ==> View() == old(View())[activeFileNo := NewSegment(ZeroFile(walSize))]
    {
      hide Owns, Apart, Valid, Held, Sealing, View, ZeroFile, NewSegment, InitHeader, LoadHeader, Opened;
      ActiveReady();
      NextUnused();
      var was, id := activeFileNo, nextFileNo;
      if id >= FILE_LIMIT {
        return Err(CorruptWal);
      }
      segments[was].isSealed := true;
      nextFileNo := nextFileNo + 1;
      var bytes := new bv8[walSize](_ => 0);
      ZeroBytesOf(bytes[..], walSize);
      var segment := WalSegment.Open(bytes, id);
      segments := segments[id := segment.value];
      activeFileNo := id;
      Repr := Repr + {segment.value, segment.value.data};
      OwnsActive();
      IsNewFile(id);
      hide NewFile;
      Extended(id);
      return Ok(());
    }

    twostate lemma IsNewFile(id: nat)
      requires old(Valid()) && id == old(nextFileNo) && 0 < id < FILE_LIMIT
      requires id in segments && id !in old(segments) && segments == old(segments)[id := segments[id]]
      requires activeFileNo == id && nextFileNo == id + 1 && generation == old(generation)
      requires snapshotRecords == old(snapshotRecords)
      requires fresh(segments[id]) && fresh(segments[id].data)
      requires Repr == old(Repr) + {segments[id], segments[id].data} && Owns(id) && !segments[id].isSealed
      requires old(activeFileNo) in segments && old(activeFileNo) in old(segments)
      requires segments[old(activeFileNo)] == old(segments[activeFileNo])
      requires segments[old(activeFileNo)].isSealed
      requires segments[old(activeFileNo)].used == old(segments[activeFileNo].used)
      requires forall o :: o in old(Repr) && o != this && o != segments[old(activeFileNo)] ==> unchanged(o)
      ensures NewFile(id)
    {
    }

    lemma NextUnused()
      requires Valid()
      ensures nextFileNo == activeFileNo + 1 > 0 && nextFileNo !in segments
      ensures HEADER + RECORD_HEADER <= walSize <= OFFSET_LIMIT
    {
    }

    // --------------------------------------------------------------- the two writers

    /** What is known about an undamaged store. */
    lemma Undamaged()
      requires Valid() && AllFull(View())
      ensures Held() && Sized(walSize, View()) && activeFileNo in View() && nextFileNo == activeFileNo + 1
      ensures Below(View(), activeFileNo) && Log() == WholeLog(View())
    {
      ViewMeans();
    }

    /** There is room for the record in the active segment, or in a new one. */
    ghost predicate Accepts(key: Key, value: Bytes)
      reads this, Repr
      requires Valid()
    {
      || (activeFileNo in View() && Room(View()[activeFileNo], key, value))
      || (nextFileNo < FILE_LIMIT && walSize >= HEADER && Room(NewSegment(ZeroFile(walSize)), key, value))
    }

    lemma AcceptsBy(key: Key, value: Bytes)
      requires Valid()
      ensures activeFileNo in View() && Room(View()[activeFileNo], key, value) ==> Accepts(key, value)
      ensures activeFileNo in View() && !Room(View()[activeFileNo], key, value) ==>
        (Accepts(key, value) <==>
           nextFileNo < FILE_LIMIT && walSize >= HEADER && Room(NewSegment(ZeroFile(walSize)), key, value))
    {
    }

    /** What is accepted shows in the segments alone. */
    lemma AcceptsIs(key: Key, value: Bytes)
      requires Valid()
      ensures Held() && (Accepts(key, value) <==> TakesRecord(walSize, View(), key, value))
    {
      hide *;
      ReplayReady();
      AcceptsBy(key, value);
      TakesHighest(walSize, View(), activeFileNo, key, value);
    }

    /** A record that fits an empty segment is taken as long as there are file numbers. */
    lemma FittingAccepted(key: Key, value: Bytes)
      requires Valid() && |value| < U32 && |key| < U32 && nextFileNo < FILE_LIMIT
      requires HEADER + RECORD_HEADER + |key| + |value| <= walSize
      ensures Accepts(key, value)
    {
      hide ZeroFile, View;
    }

    /** Append and DeleteRecord share their shape: the active segment takes the record, or a
        new one is started and takes it. passed are the WAL files after every byte of the record
        and around it; opened, all but the last show the log from before, and that one the log
        from after. The store of the used offset and the creation of a header are single steps. */
    method AppendOrRoll(op: bv8, key: Key, value: Bytes) returns (r: Result<Position>, ghost passed: seq<Files>)
      requires Valid() && AllFull(View())
      requires |key| <= MAX_KEY_SIZE && (op == OP_PUT || (op == OP_DELETE && value == []))
      modifies Repr
      ensures Valid() && fresh(Repr - old(Repr)) && AllFull(View())
      ensures generation == old(generation) && snapshotRecords == old(snapshotRecords)
      ensures r.Ok? ==> Log() == old(Log()) + [Written(op, key, value, r.value)]
      ensures r.Err? ==> Log() == old(Log())
      ensures walSize >= HEADER && View() == WithRecord(walSize, old(View()), old(activeFileNo), op, key, value)
      ensures activeFileNo == ActiveAfter(old(View()), old(activeFileNo), key, value)
      ensures r.Err? ==> r == Err(if old(nextFileNo) < FILE_LIMIT then WalFull else CorruptWal)
      ensures Keeps(old(View()), View())
      ensures r.Ok? <==> old(Accepts(key, value))
      ensures Advances(walSize, passed, old(Log()), Log())
      ensures Held() && Chain(FileStep, old(FilesOf(View())), passed, FilesOf(View()))
      ensures r.Ok? ==> |passed| > RECORD_HEADER + |key| + |value|
    {
      hide *;
      Undamaged();
      ActiveReady();
      NextUnused();
      AcceptsBy(key, value);
      ghost var view0 := View();
      RecordPlaced(walSize, view0, activeFileNo, op, key, value);
      ghost var torn;
      r, torn := AppendActive(op, key, value);
      if r.Ok? {
        RoomMeans(view0[activeFileNo], op, key, value);
        GrowStep(walSize, view0, activeFileNo, op, key, value);
        TornFilesShow(walSize, view0, activeFileNo, torn);
        passed := TornFiles(FilesOf(view0), activeFileNo, torn);
        GrowChain(view0, activeFileNo, op, key, value, torn);
        Undamaged();
        AdvancesTo(walSize, passed, FilesOf(View()), old(Log()), Log());
        passed := passed + [FilesOf(View())];
        return;
      }
      KeepsSelf(view0);
      Undamaged();
      var rolled := Rollover();
      if rolled.Err? {
        Undamaged();
        NoneShow(walSize, Log());
        ChainNone(FileStep, FilesOf(View()));
        AdvancesNot(walSize, [], Log());
        return Err(CorruptWal), [];
      }
      ghost var view1, id := View(), activeFileNo;
      RollStep(walSize, view0, id);
      Undamaged();
      passed := NewFiles(walSize, FilesOf(view0), id);
      RollChain(walSize, view0, id);
      r, torn := AppendActive(op, key, value);
      if r.Ok? {
        RoomMeans(view1[id], op, key, value);
        GrowStep(walSize, view1, id, op, key, value);
        TornFilesShow(walSize, view1, id, torn);
        AllShowMore(walSize, passed, TornFiles(FilesOf(view1), id, torn), old(Log()));
        GrowChain(view1, id, op, key, value, torn);
        ChainConcat(FileStep, FilesOf(view0), passed, FilesOf(view1),
                    TornFiles(FilesOf(view1), id, torn) + [FilesOf(View())], FilesOf(View()));
        ConcatThree(passed, TornFiles(FilesOf(view1), id, torn), [FilesOf(View())]);
        passed := passed + TornFiles(FilesOf(view1), id, torn);
        Undamaged();
        AdvancesTo(walSize, passed, FilesOf(View()), old(Log()), Log());
        passed := passed + [FilesOf(View())];
        KeepsOn(view0, view1, View());
      } else {
        Undamaged();
        AdvancesNot(walSize, passed, Log());
      }
    }

    /** Append: a put record. */
    method Append(key: Key, value: Bytes) returns (r: Result<Position>, ghost passed: seq<Files>)
      requires Valid() && AllFull(View()) && |key| <= MAX_KEY_SIZE
      modifies Repr
      ensures Valid() && fresh(Repr - old(Repr)) && AllFull(View())
      ensures generation == old(generation) && snapshotRecords == old(snapshotRecords)
      ensures r.Ok? ==> Log() == old(Log()) + [Written(OP_PUT, key, value, r.value)]
      ensures r.Err? ==> Log() == old(Log())
      ensures walSize >= HEADER && View() == WithRecord(walSize, old(View()), old(activeFileNo), OP_PUT, key, value)
      ensures activeFileNo == ActiveAfter(old(View()), old(activeFileNo), key, value)
      ensures r.Err? ==> r == Err(if old(nextFileNo) < FILE_LIMIT then WalFull else CorruptWal)
      ensures r.Ok? <==> old(Accepts(key, value))
      ensures Keeps(old(View()), View())
      ensures Advances(walSize, passed, old(Log()), Log())
      ensures Held() && Chain(FileStep, old(FilesOf(View())), passed, FilesOf(View()))
      ensures r.Ok? ==> |passed| > RECORD_HEADER + |key| + |value|
    {
      r, passed := AppendOrRoll(OP_PUT, key, value);
    }

    /** DeleteRecord: a tombstone. */
    method DeleteRecord(key: Key) returns (r: Result<Position>, ghost passed: seq<Files>)
      requires Valid() && AllFull(View()) && |key| <= MAX_KEY_SIZE
      modifies Repr
      ensures Valid() && fresh(Repr - old(Repr)) && AllFull(View())
      ensures generation == old(generation) && snapshotRecords == old(snapshotRecords)
      ensures r.Ok? ==> Log() == old(Log()) + [Written(OP_DELETE, key, [], r.value)]
      ensures r.Err? ==> Log() == old(Log())
      ensures walSize >= HEADER && View() == WithRecord(walSize, old(View()), old(activeFileNo), OP_DELETE, key, [])
      ensures activeFileNo == ActiveAfter(old(View()), old(activeFileNo), key, [])
      ensures r.Err? ==> r == Err(if old(nextFileNo) < FILE_LIMIT then WalFull else CorruptWal)
      ensures r.Ok? <==> old(Accepts(key, []))
      ensures Keeps(old(View()), View())
      ensures Advances(walSize, passed, old(Log()), Log())
      ensures Held() && Chain(FileStep, old(FilesOf(View())), passed, FilesOf(View()))
      ensures r.Ok? ==> |passed| > RECORD_HEADER + |key|
    {
      r, passed := AppendOrRoll(OP_DELETE, key, []);
    }

    /** AddSnapshotRecord */
    method AddSnapshotRecord(key: Key, value: Bytes) returns (r: Result<Position>)
      requires Valid()
      modifies this
      ensures Valid() && Repr == old(Repr) && generation == old(generation) && View() == old(View())
      ensures r.Err? <==> |old(snapshotRecords)| >= OFFSET_LIMIT
      ensures r.Err? ==> r == Err(CorruptSnapshot) && snapshotRecords == old(snapshotRecords)
      ensures r.Ok? ==> r.value == |old(snapshotRecords)| && IsSnapshotPosition(r.value)
      ensures r.Ok? ==> snapshotRecords == old(snapshotRecords) + [OwnedRecord(key, value, true)]
    {
      if |snapshotRecords| >= OFFSET_LIMIT {
        return Err(CorruptSnapshot);
      }
      var pos := |snapshotRecords|;
      snapshotRecords := snapshotRecords + [OwnedRecord(key, value, true)];
      SnapshotAdded();
      return Ok(pos);
    }

    twostate lemma SnapshotAdded()
      requires OnlyTable() && old(Valid()) && segments == old(segments) && activeFileNo == old(activeFileNo)
      requires nextFileNo == old(nextFileNo)
      ensures Valid() && View() == old(View())
    {
      hide Owns, Apart, View, Sealing;
      TableKept();
      SealsKept();
    }

    /** RecordAt of the segment a position names, or nothing. */
    method WalRecordAt(pos: Position) returns (r: Option<WalRecord>)
      requires Valid()
      ensures r == ReadAt(View(), pos)
    {
      var id := FileNo(pos);
      ViewAt(id);
      if id !in segments {
        return None;
      }
      assert Owns(id);
      segments[id].ValidMeans();
      var record := segments[id].RecordAtOffset(Offset(pos), false);
      match record {
        case Err(_) => return None;
        case Ok(x) => return Some(x);
      }
    }

    /** SnapshotRecord, Key and ValueView: the item a position stands for. */
    method ItemAt(pos: Position) returns (r: Option<Item>)
      requires Valid()
      ensures r == ReadItem(View(), snapshotRecords, pos)
    {
      if IsSnapshotPosition(pos) {
        if pos >= |snapshotRecords| || !snapshotRecords[pos].live {
          return None;
        }
        return Some(Item(snapshotRecords[pos].key, snapshotRecords[pos].value));
      }
      var record := WalRecordAt(pos);
      match record {
        case None => return None;
        case Some(x) =>
          if x.op != OP_PUT {
            return None;
          }
          return Some(Item(x.key, x.value));
      }
    }

    // ------------------------------------------------------------------- replaying

    lemma SegmentReady(id: nat)
      requires Held() && id in segments
      ensures segments[id] in Repr && segments[id].data in Repr && segments[id].Valid()
      ensures segments[id].fileNo == id && segments[id].data.Length == walSize && this in Repr
      ensures id in View() && View()[id] == Segment(segments[id].data[..], segments[id].used) && Loaded(View()[id])
    {
      assert Owns(id);
      ViewMeans();
    }

    lemma OwnsIs(id: nat)
      requires id in segments && segments[id] in Repr && segments[id].data in Repr
      requires segments[id].Valid() && segments[id].fileNo == id && segments[id].data.Length == walSize
      ensures Owns(id)
    {
    }

    twostate lemma ValidAgain(id: nat)
      requires OnlySegment(id) && Held()
      requires segments[id].isSealed == old(segments[id].isSealed)
      ensures old(Valid()) ==> Valid()
    {
      hide Held, Valid, OnlySegment;
      if old(Valid()) {
        StillValid(id);
      }
    }

    /** One file of a replay. */
    method ReplayOne(id: nat, policy: ReplayPolicy) returns (r: Result<bool>, out: seq<Replayed>)
      requires Held() && id in segments && id in View() && Loaded(View()[id])
      modifies Repr
      ensures Held() && Repr == old(Repr) && segments == old(segments) && (old(Valid()) ==> Valid())
      ensures generation == old(generation) && snapshotRecords == old(snapshotRecords)
      ensures activeFileNo == old(activeFileNo) && nextFileNo == old(nextFileNo)
      ensures out == SegmentLog(id, old(View())[id])
      ensures policy == Strict ==> View() == old(View()) && (r.Err? ==> r == Err(CorruptWal))
      ensures policy == Strict ==> (r.Err? <==> !Complete(old(View())[id].data, old(View())[id].used)) && r != Ok(true)
      ensures policy == PointInTime ==> r == Ok(!Complete(old(View())[id].data, old(View())[id].used))
      ensures policy == PointInTime ==> View() == old(View())[id := Repaired(old(View())[id])]
    {
      hide *;
      SegmentReady(id);
      ghost var s := View()[id];
      LoadedMeans(s);
      r, out := segments[id].Replay(policy);
      RepairedIs(id, s);
      OwnsIs(id);
      IsOnlySegment(id);
      Edited(id);
      ValidAgain(id);
      PutSame(old(View()), id);
    }

    method DropSegment(id: nat)
      requires Held()
      modifies this
      ensures Held() && Repr == old(Repr) && View() == old(View()) - {id} && segments == old(segments) - {id}
      ensures generation == old(generation) && snapshotRecords == old(snapshotRecords)
    {
      hide Owns, Apart, View;
      segments := segments - {id};
      TableKept();
    }

    method SetSealed(id: nat, v: bool)
      requires Held() && id in segments && segments[id] in Repr
      modifies segments[id]
      ensures Held() && View() == old(View()) && segments[id].isSealed == v
      ensures forall j: nat :: j in segments && j != id ==> segments[j].isSealed == old(segments[j].isSealed)
    {
      SegmentReady(id);
      hide Held, View, Owns, Apart, Valid;
      segments[id].isSealed := v;
      OwnsIs(id);
      IsOnlySegment(id);
      SealChanged(id);
    }

    twostate lemma SealChanged(id: nat)
      requires OnlySegment(id) && segments[id].used == old(segments[id].used)
      requires segments[id] in Repr && segments[id].data in Repr && segments[id].data[..] == old(segments[id].data[..])
      ensures Held() && View() == old(View())
      ensures forall j: nat :: j in segments && j != id ==> segments[j].isSealed == old(segments[j].isSealed)
    {
      SealsApart(id);
      hide Held, View, OnlySegment, Owns;
      Edited(id);
      OldView(id);
      PutSame(old(View()), id);
    }

    twostate lemma SealsApart(id: nat)
      requires OnlySegment(id)
      ensures old(Held()) && id in old(segments) && segments[id] == old(segments[id])
      ensures forall j: nat :: j in segments && j != id ==> segments[j].isSealed == old(segments[j].isSealed)
    {
      forall j: nat | j in segments && j != id ensures segments[j].isSealed == old(segments[j].isSealed) {
        assert old(Owns(j)) && old(Owns(id)) && old(Apart(j, id));
      }
    }

    twostate lemma OldView(id: nat)
      requires old(Held()) && id in old(segments)
      ensures id in old(View()) && old(View())[id] == old(Segment(segments[id].data[..], segments[id].used))
    {
      assert old(Owns(id));
    }

    twostate lemma FieldsOnly()
      requires OnlyTable() && segments == old(segments)
      ensures Held() && View() == old(View())
    {
      hide Owns, Apart, View;
      TableKept();
    }

    /** The active file is the last one kept; all others are sealed. */
    method Reseal(active: nat)
      requires Held() && active in segments && forall id :: id in segments ==> 0 < id <= active
      modifies Repr
      ensures Valid() && Held() && Repr == old(Repr) && View() == old(View()) && activeFileNo == active
      ensures generation == old(generation) && snapshotRecords == old(snapshotRecords)
    {
      hide View, Apart, Owns;
      activeFileNo := active;
      nextFileNo := active + 1;
      FieldsOnly();
      hide Held;
      var id := 1;
      while id <= active
        invariant 0 < id <= active + 1 && segments == old(segments) && Repr == old(Repr)
        invariant generation == old(generation) && snapshotRecords == old(snapshotRecords)
        invariant activeFileNo == active && nextFileNo == active + 1
        invariant Held() && View() == old(View())
        invariant forall i: nat :: i < id && i in segments ==> (segments[i].isSealed <==> i != active)
      {
        if id in segments {
          SegmentReady(id);
          SetSealed(id, id != active);
        }
        id := id + 1;
      }
    }

    lemma ReplayReady()
      requires Valid()
      ensures Held() && AllLoaded(View()) && View().Keys == segments.Keys && activeFileNo in segments
      ensures 0 < activeFileNo < FILE_LIMIT && nextFileNo == activeFileNo + 1
      ensures forall id :: id in View() ==> 0 < id <= activeFileNo
    {
      ViewMeans();
    }

    /** ReplayAll: replays file after file into the index. With the point-in-time policy the
        first record that cannot be read ends it: its file is cut there, and the files behind
        are removed one by one. passed are the segments after the cut and after each removal. */
    method ReplayAll(policy: ReplayPolicy, index0: Positions)
      returns (r: Result<Positions>, ghost passed: seq<map<nat, Segment>>)
      requires Valid()
      modifies Repr
      ensures Held() && Repr == old(Repr) && generation == old(generation) && snapshotRecords == old(snapshotRecords)
      ensures policy == PointInTime ==> r.Ok?
      ensures policy == Strict ==> View() == old(View()) && (r.Ok? <==> AllFull(old(View())))
      ensures r.Err? ==> r == Err(CorruptWal)
      ensures r.Ok? ==> Valid() && AllFull(View()) && Log() == Kept(old(View()), 0, FILE_LIMIT)
      ensures r.Ok? ==> r.value == Play(index0, Kept(old(View()), 0, FILE_LIMIT))
      ensures AllFull(old(View())) ==> View() == old(View()) && passed == []
      ensures r.Ok? && !AllFull(old(View())) ==> Cutting(old(View()), passed, View())
      ensures r.Ok? ==> View() == RepairedView(old(View()))
    {
      hide *;
      ReplayReady();
      ghost var view0 := View();
      passed := [];
      var index, cut, lastKept, limit := index0, false, activeFileNo, activeFileNo;
      ReplayingStart(view0, index0);
      var id := 1;
      while id <= limit
        invariant 0 < id <= limit + 1 && Held() && Repr == old(Repr) && View().Keys == segments.Keys
        invariant generation == old(generation) && snapshotRecords == old(snapshotRecords)
        invariant Replaying(view0, View(), index0, id, index, cut, if cut then lastKept else 0)
        invariant !cut ==> Valid() && activeFileNo == limit && View() == view0
        invariant policy == Strict ==> !cut
        invariant if cut then CutSoFar(view0, lastKept, id, passed) else passed == []
      {
        ghost var before := View();
        ReplayingMeans(view0, View(), index0, id, index, cut, if cut then lastKept else 0);
        if id in segments {
          if cut {
            DropSegment(id);
            ReplayDropped(view0, before, index0, id, index, lastKept);
            CutMore(view0, lastKept, id, View(), passed, index0, index);
            passed := passed + [View()];
          } else {
            SegmentReady(id);
            var truncated, out := ReplayOne(id, policy);
            if truncated.Err? {
              NotFull(view0, id);
              return Err(CorruptWal), passed;
            }
            ReplayOneMore(view0, index0, id, index, out);
            index := PlayAll(index, out);
            if truncated.value {
              cut, lastKept := true, id;
              CutFirst(view0, id, View(), index0, index);
              passed := [View()];
            }
          }
        } else {
          ReplayGap(view0, before, index0, id, index, cut, if cut then lastKept else 0);
          if cut {
            CutMore(view0, lastKept, id, View(), passed, index0, index);
            passed := passed + [View()];
          }
        }
        KeysAgain();
        id := id + 1;
      }
      ReplayingMeans(view0, View(), index0, id, index, cut, if cut then lastKept else 0);
      FileRange(limit);
      if cut {
        ReplayedCut(view0, lastKept, limit + 1);
        NotFull(view0, lastKept);
        CutDone(view0, lastKept, limit + 1, passed);
        RepairedBy(view0, lastKept, limit + 1);
        Reseal(lastKept);
        LogIs();
      } else {
        ReplayedAll(view0, limit + 1);
        NothingRepaired(view0);
        LogIs();
      }
      return Ok(index), passed;
    }

    lemma ViewSize()
      requires Held()
      ensures |View()| == |segments|
    {
      ViewMeans();
      assert |View()| == |View().Keys| && |segments| == |segments.Keys|;
    }

    lemma KeysAgain()
      requires Held()
      ensures View().Keys == segments.Keys
    {
      ViewMeans();
    }

    lemma LogIs()
      requires Valid()
      ensures Held() && Log() == LogBelow(View(), FILE_LIMIT)
    {
    }

    // ------------------------------------------------------------------- opening

    constructor Bare(walSize: nat, generation: nat)
      requires HEADER + RECORD_HEADER <= walSize <= OFFSET_LIMIT && generation > 0
      ensures Held() && View() == map[] && segments == map[] && fresh(Repr) && Repr == {this}
      ensures this.walSize == walSize && this.generation == generation
      ensures snapshotRecords == [OwnedRecord([], [], false)]
    {
      this.walSize := walSize;
      this.generation := generation;
      activeFileNo, nextFileNo := 0, 0;
      segments := map[];
      snapshotRecords := [OwnedRecord([], [], false)];
      Repr := {this};
    }

    /** The segment under id is new; all others are as before. */
    twostate predicate Adopted(id: nat)
      reads *
    {
      && old(Held()) && id in segments && id !in old(segments) && segments == old(segments)[id := segments[id]]
      && generation == old(generation) && snapshotRecords == old(snapshotRecords)
      && segments[id] !in old(Repr) && segments[id].data !in old(Repr)
      && Repr == old(Repr) + {segments[id], segments[id].data} && Owns(id)
      && forall o :: o in old(Repr) && o != this ==> unchanged(o)
    }

    twostate lemma AdoptedSame(id: nat)
      requires Adopted(id)
      ensures forall i: nat :: i in old(segments) ==> Same(i) && Owns(i)
      ensures forall i: nat, j: nat :: Apart(i, j)
      ensures old(Held()) && id in segments && id !in old(segments)
      ensures forall i: nat :: i in segments <==> i in old(segments) || i == id
    {
      forall i: nat | i in old(segments) ensures Same(i) && Owns(i) {
        assert old(Owns(i));
      }
      forall i: nat, j: nat ensures Apart(i, j) {
        assert old(Apart(i, j)) && old(Owns(i)) && old(Owns(j));
      }
    }

    twostate lemma AdoptedHeld(id: nat)
      requires Adopted(id)
      requires forall i: nat :: i in old(segments) ==> Same(i) && Owns(i)
      requires forall i: nat, j: nat :: Apart(i, j)
      ensures Held()
    {
      hide Same, Apart;
      forall i: nat ensures Owns(i) {
      }
    }

    twostate lemma AdoptedView(id: nat)
      requires Adopted(id)
      ensures Held() && id !in old(View()) && segments[id] in Repr && segments[id].data in Repr
      ensures View() == old(View())[id := Segment(segments[id].data[..], segments[id].used)]
    {
      hide View, Same, Owns, Apart, Held, Adopted;
      AdoptedSame(id);
      AdoptedHeld(id);
      SameViews();
      ViewAt(id);
      AddedMap(old(View()), View(), id);
    }

    method Adopt(id: nat, segment: WalSegment)
      requires Held() && id !in segments && segment !in Repr && segment.data !in Repr
      requires segment.Valid() && segment.fileNo == id && segment.data.Length == walSize
      modifies this
      ensures Held() && View() == old(View())[id := Segment(segment.data[..], segment.used)]
      ensures segments == old(segments)[id := segment] && Repr == old(Repr) + {segment, segment.data}
      ensures generation == old(generation) && snapshotRecords == old(snapshotRecords)
    {
      hide Owns, Apart, View;
      segments := segments[id := segment];
      Repr := Repr + {segment, segment.data};
      OwnsIs(id);
      AdoptedView(id);
    }

    /** WalSegment::Open on the bytes of one file. */
    static method OpenWal(walSize: nat, data: Bytes, id: nat) returns (r: Result<WalSegment>)
      requires HEADER + RECORD_HEADER <= walSize <= OFFSET_LIMIT
      ensures r.Ok? <==> 0 < id < FILE_LIMIT && OpenFile(walSize, data).Some?
      ensures r.Err? ==> r == Err(CorruptWal)
      ensures r.Ok? ==> fresh(r.value) && fresh(r.value.data) && r.value.Valid() && r.value.fileNo == id
      ensures r.Ok? ==> r.value.data.Length == walSize
      ensures r.Ok? ==> Segment(r.value.data[..], r.value.used) == OpenFile(walSize, data).value
    {
      if id == 0 || id >= FILE_LIMIT {
        return Err(CorruptWal);
      }
      var bytes: array<bv8>;
      if data == [] {
        bytes := new bv8[walSize](_ => 0);
        ZeroBytesOf(bytes[..], walSize);
      } else if |data| != walSize {
        return Err(CorruptWal);
      } else {
        bytes := new bv8[walSize](i requires 0 <= i < |data| => data[i]);
        assert bytes[..] == data;
      }
      hide LoadHeader, InitHeader, Load, ZeroFile;
      OpenFileIs(walSize, data, bytes[..]);
      r := WalSegment.Open(bytes, id);
    }

    method OpenInto(id: nat, data: Bytes) returns (r: Result<()>)
      requires Held() && id !in View()
      modifies this
      ensures Held() && fresh(Repr - old(Repr)) && segments.Keys == View().Keys
      ensures generation == old(generation) && snapshotRecords == old(snapshotRecords)
      ensures walSize >= HEADER && (r.Ok? <==> 0 < id < FILE_LIMIT && OpenFile(walSize, data).Some?)
      ensures r.Err? ==> r == Err(CorruptWal)
      ensures r.Ok? ==> View() == old(View())[id := OpenFile(walSize, data).value]
    {
      hide *;
      HeldSize();
      var segment := OpenWal(walSize, data, id);
      if segment.Err? {
        return Err(segment.error);
      }
      Adopt(id, segment.value);
      KeysAgain();
      return Ok(());
    }

    lemma HeldSize()
      requires Held()
      ensures HEADER + RECORD_HEADER <= walSize <= OFFSET_LIMIT && walSize >= HEADER && View().Keys == segments.Keys
    {
      KeysAgain();
    }

    /** SegmentedRecordStore::Open: every file is opened, the one with the highest number
        becomes the active one, and an empty directory gets file 1. passed are the files at
        every step of it; each of them opens to the same segments. */
    static method Open(walSize: nat, generation: nat, files: Files)
      returns (r: Result<SegmentedRecordStore>, ghost passed: seq<Files>)
      ensures r.Ok? <==>
        HEADER + RECORD_HEADER <= walSize <= OFFSET_LIMIT && generation > 0 && Opens(walSize, files)
      ensures r.Err? ==>
        r == Err(if walSize < HEADER + RECORD_HEADER || walSize > OFFSET_LIMIT then InvalidArgument
                 else if generation == 0 then CorruptManifest else CorruptWal)
      ensures r.Ok? ==> fresh(r.value.Repr) && r.value.Valid() && r.value.View() == OpenView(walSize, files)
      ensures r.Ok? ==> r.value.walSize == walSize && r.value.generation == generation
      ensures r.Ok? ==> r.value.snapshotRecords == [OwnedRecord([], [], false)]
      ensures r.Ok? ==> forall d :: d in passed ==>
        Opens(walSize, d) && OpenView(walSize, d) == OpenView(walSize, files)
      ensures r.Ok? ==> r.value.Held() && Chain(FileStep, files, passed, FilesOf(r.value.View()))
    {
      passed := [];
      if walSize < HEADER + RECORD_HEADER || walSize > OFFSET_LIMIT {
        return Err(InvalidArgument), passed;
      }
      if generation == 0 {
        return Err(CorruptManifest), passed;
      }
      hide *;
      WalSizeRange(walSize);
      var base := if files == map[] then map[1 := []] else files;
      BaseOpens(walSize, files, base);
      r, passed := OpenAll(walSize, generation, base);
      if r.Ok? {
        BaseChain(files, base, passed, FilesOf(r.value.View()));
        passed := if files == map[] then [base] + passed else passed;
      }
    }

    static method OpenAll(walSize: nat, generation: nat, base: Files)
      returns (r: Result<SegmentedRecordStore>, ghost passed: seq<Files>)
      requires HEADER + RECORD_HEADER <= walSize <= OFFSET_LIMIT && generation > 0 && base != map[]
      ensures r.Ok? <==> Opens(walSize, base)
      ensures r.Err? ==> r == Err(CorruptWal)
      ensures r.Ok? ==>
        fresh(r.value.Repr) && r.value.Valid() && r.value.Held() && r.value.View() == OpenView(walSize, base)
      ensures r.Ok? ==> r.value.walSize == walSize && r.value.generation == generation
      ensures r.Ok? ==> r.value.snapshotRecords == [OwnedRecord([], [], false)]
      ensures r.Ok? ==> forall d :: d in passed ==> Opens(walSize, d) && OpenView(walSize, d) == OpenView(walSize, base)
      ensures r.Ok? ==> Chain(FileStep, base, passed, FilesOf(r.value.View()))
    {
      hide *;
      WalSizeRange(walSize);
      var ids := SortedIds(base.Keys);
      SomeIds(walSize, base, ids);
      var store := new SegmentedRecordStore.Bare(walSize, generation);
      var ok;
      ok, passed := store.OpenFiles(base, ids);
      if !ok {
        return Err(CorruptWal), [];
      }
      OpeningSame(walSize, base, passed);
      store.KeysAgain();
      store.Reseal(ids[|ids| - 1]);
      return Ok(store), passed;
    }

    method OpenFiles(base: Files, ids: seq<nat>) returns (ok: bool, ghost passed: seq<Files>)
      requires Held() && View() == map[] && SortedOf(ids, base.Keys) && |ids| > 0 && base != map[]
      modifies this
      ensures Held() && fresh(Repr - old(Repr)) && generation == old(generation)
      ensures snapshotRecords == old(snapshotRecords)
      ensures walSize >= HEADER && (ok <==> Opens(walSize, base))
      ensures ok ==> View() == OpenView(walSize, base) && ids[|ids| - 1] in View()
      ensures ok ==> forall id :: id in View() ==> 0 < id <= ids[|ids| - 1]
      ensures forall d :: d in passed ==> AlikeFiles(walSize, base, d)
      ensures ok ==> Chain(FileStep, base, passed, FilesOf(View()))
    {
      hide *;
      HeldSize();
      ghost var now := base;
      OpeningStart(walSize, base, ids);
      ChainNone(FileStep, base);
      passed := [];
      var i := 0;
      while i < |ids|
        invariant 0 <= i <= |ids| && Held() && fresh(Repr - old(Repr))
        invariant generation == old(generation) && snapshotRecords == old(snapshotRecords)
        invariant OpenedSoFar(walSize, base, ids, i, View(), now)
        invariant forall d :: d in passed ==> AlikeFiles(walSize, base, d)
        invariant Chain(FileStep, base, passed, now)
      {
        var id := ids[i];
        OpeningFile(walSize, base, ids, i, View(), now);
        ghost var view := View();
        var done := OpenInto(id, base[id]);
        if done.Err? {
          NotOpens(walSize, base, id);
          return false, passed;
        }
        OpeningNext(walSize, base, ids, i, view, now);
        ghost var data := View()[id].data;
        OpeningChain(walSize, now, id, View()[id]);
        ChainConcat(FileStep, base, passed, now, OpeningFiles(walSize, now, id, data), now[id := data]);
        AlikeMore(walSize, base, passed, now, id, data);
        passed := passed + OpeningFiles(walSize, now, id, data);
        now := now[id := data];
        i := i + 1;
      }
      OpeningDone(walSize, base, ids, View(), now);
      return true, passed;
    }

    /** The bytes of all open files. */
    method FileBytes() returns (files: Files)
      requires Held()
      ensures files == FilesOf(View())
    {
      hide WalSegment.Valid;
      ViewMeans();
      files := map id | id in segments :: segments[id].data[..];
    }

    /** ResetToSnapshot: all segments are closed; the store goes on with file 1 of another
        generation, here given with what is found there, and without snapshot records. */
    method ResetToSnapshot(newGeneration: nat, data: Bytes) returns (r: Result<()>)
      requires Valid() && newGeneration > 0
      modifies Repr
      ensures Held() && fresh(Repr - old(Repr)) && walSize >= HEADER
      ensures r.Ok? <==> OpenFile(walSize, data).Some?
      ensures r.Ok? ==> Valid() && View() == map[1 := OpenFile(walSize, data).value]
      ensures r.Ok? ==> generation == newGeneration && snapshotRecords == [OwnedRecord([], [], false)]
    {
      hide Owns, Apart, View, OpenFile;
      segments := map[];
      snapshotRecords := [OwnedRecord([], [], false)];
      generation := newGeneration;
      TableKept();
      FileOne();
      r := OpenInto(1, data);
      if r.Ok? {
        KeysAgain();
        Reseal(1);
      }
    }
  }

  lemma EditedMap(a: map<nat, Segment>, b: map<nat, Segment>, id: nat)
    requires id in b && forall i :: i in a <==> i in b
    requires forall i :: i in b && i != id ==> b[i] == a[i]
    ensures b == a[id := b[id]]
  {
  }

  lemma PutSame(m: map<nat, Segment>, id: nat)
    ensures id in m ==> m[id := m[id]] == m
  {
  }

  lemma KeepIsTorn(s: Segment, torn: seq<Bytes>)
    requires AllKeep(torn, s.data, s.used)
    ensures AllTorn(s, torn)
  {
    forall t | t in torn ensures TornTail(s, t) {
      assert Keep(t, s.data, s.used);
      assert forall i :: 0 <= i < s.used ==> t[i] == t[..s.used][i] == s.data[..s.used][i];
    }
  }

  /** What the append of a segment object means for the segment it shows. */
  lemma AppendMeans(id: nat, seg: WalSegment, s: Segment, op: bv8, key: Key, value: Bytes)
    requires seg.Valid() && !seg.isSealed && s == Segment(seg.data[..], seg.used) && seg.fileNo == id
    ensures HEADER <= s.used <= |s.data|
    ensures seg.Fits(s.used, key, value) <==> Room(s, key, value)
    ensures Room(s, key, value) ==> HasRoom(s, key, value)
    ensures HasRoom(s, key, value) ==>
      s.used + |Encoded(op, key, value)| <= |s.data|
      && Grown(s, op, key, value)
        == Segment(Appended(s.data, s.used, Encoded(op, key, value)), s.used + |Encoded(op, key, value)|)
    ensures MakeRecordPosition(id, s.used).Some? ==>
      Gained(id, s, op, key, value).pos == MakeRecordPosition(id, s.used).value
  {
    hide Encoded, Appended;
    EncodedLength(op, key, value);
    seg.ValidMeans();
  }

  lemma AddedMap(a: map<nat, Segment>, b: map<nat, Segment>, id: nat)
    requires id in b && id !in a && forall i :: i in b <==> i in a || i == id
    requires forall i :: i in a ==> b[i] == a[i]
    ensures b == a[id := b[id]]
  {
  }

  lemma ZeroBytesOf(data: Bytes, n: nat)
    requires |data| == n >= HEADER && forall i :: 0 <= i < n ==> data[i] == 0
    ensures data == ZeroFile(n) && ZeroBytes(data, HEADER)
    ensures Opened(data) == InitHeader(data) && LoadHeader(InitHeader(data)) == LoadHeader(NewSegment(data).data)
    ensures Segment(InitHeader(data), HEADER) == NewSegment(ZeroFile(n))
    ensures n <= OFFSET_LIMIT ==> LoadHeader(InitHeader(data)) == Ok(HEADER)
  {
    if n <= OFFSET_LIMIT {
      HeaderInitialised(data);
    }
  }

  lemma RoomMeans(s: Segment, op: bv8, key: Key, value: Bytes)
    requires Room(s, key, value) && |key| <= MAX_KEY_SIZE && (op == OP_PUT || (op == OP_DELETE && value == []))
    ensures HasRoom(s, key, value) && Writable(op, key, value)
  {
  }

  lemma NoneShow(walSize: nat, log: seq<Replayed>)
    ensures AllShow(walSize, [], log)
  {
  }

  lemma KeepsSelf(view: map<nat, Segment>)
    ensures Keeps(view, view)
  {
  }

  lemma KeepsOn(a: map<nat, Segment>, b: map<nat, Segment>, c: map<nat, Segment>)
    requires Keeps(a, b) && Keeps(b, c)
    ensures Keeps(a, c)
  {
    hide ReadAt;
  }

  lemma RepairedIs(id: nat, s: Segment)
    requires Loaded(s)
    ensures HEADER <= s.used <= |s.data|
    ensures Repaired(s) == Segment(Truncated(s.data, s.used), LastGood(s.data, s.used, HEADER))
    ensures SegmentLog(id, s) == Positioned(id, Entries(s.data, s.used, HEADER))
  {
    LoadedMeans(s);
  }

  // ------------------------------------------------------------- steps of a replay

  /** How far a replay has come: nothing cut so far, or file c was cut and the files
      between c and the next one are gone. */
  ghost predicate Replaying(view0: map<nat, Segment>, view: map<nat, Segment>, index0: Positions, id: nat,
                            index: Positions, cut: bool, c: nat) {
    AllLoaded(view0) &&
    if cut then
      && c < id && c in view0 && Loaded(view0[c]) && CompleteBelow(view0, c)
      && !Complete(view0[c].data, view0[c].used)
      && view == Dropped(view0, c, id)
      && index == Play(index0, LogBelow(view0, c) + SegmentLog(c, view0[c]))
    else
      view == view0 && CompleteBelow(view0, id) && index == Play(index0, LogBelow(view0, id))
  }

  lemma ReplayingMeans(view0: map<nat, Segment>, view: map<nat, Segment>, index0: Positions, id: nat,
                       index: Positions, cut: bool, c: nat)
    requires Replaying(view0, view, index0, id, index, cut, c)
    ensures AllLoaded(view0)
    ensures cut ==> c < id && c in view0 && Loaded(view0[c]) && CompleteBelow(view0, c)
    ensures cut ==> !Complete(view0[c].data, view0[c].used) && view == Dropped(view0, c, id)
    ensures cut ==> index == Play(index0, LogBelow(view0, c) + SegmentLog(c, view0[c]))
    ensures !cut ==> view == view0 && CompleteBelow(view0, id) && index == Play(index0, LogBelow(view0, id))
  {
  }

  lemma ReplayingStart(view0: map<nat, Segment>, index0: Positions)
    requires AllLoaded(view0)
    ensures Replaying(view0, view0, index0, 1, index0, false, 0)
  {
    hide Complete, Loaded;
    LogNext(view0, 0);
  }

  lemma ReplayDropped(view0: map<nat, Segment>, view: map<nat, Segment>, index0: Positions, id: nat, index: Positions,
                      c: nat)
    requires Replaying(view0, view, index0, id, index, true, c)
    ensures Replaying(view0, view - {id}, index0, id + 1, index, true, c)
  {
    hide Complete, Loaded, CompleteBelow, Repaired, Play, LogBelow, SegmentLog;
  }

  lemma ReplayGap(view0: map<nat, Segment>, view: map<nat, Segment>, index0: Positions, id: nat, index: Positions,
                  cut: bool, c: nat)
    requires Replaying(view0, view, index0, id, index, cut, c) && id !in view
    ensures Replaying(view0, view, index0, id + 1, index, cut, c)
  {
    hide Complete, Loaded, Repaired, Play, LogBelow, SegmentLog;
    LogNext(view0, id);
  }

  /** One more file replayed. */
  lemma ReplayOneMore(view0: map<nat, Segment>, index0: Positions, id: nat, index: Positions, out: seq<Replayed>)
    requires Replaying(view0, view0, index0, id, index, false, 0) && id in view0 && out == SegmentLog(id, view0[id])
    ensures Loaded(view0[id])
    ensures Complete(view0[id].data, view0[id].used) ==>
      Replaying(view0, view0, index0, id + 1, Play(index, out), false, 0) && view0[id := Repaired(view0[id])] == view0
    ensures !Complete(view0[id].data, view0[id].used) ==>
      Replaying(view0, view0[id := Repaired(view0[id])], index0, id + 1, Play(index, out), true, id)
  {
    hide Complete, Repaired, Play, LogBelow, SegmentLog;
    assert Loaded(view0[id]);
    hide Loaded;
    LogNext(view0, id);
    PlayConcat(index0, map[], LogBelow(view0, id), out);
    if Complete(view0[id].data, view0[id].used) {
      CompleteIsFull(view0[id]);
      RepairedFull(id, view0[id]);
    }
    DroppedNow(view0, id);
  }

  lemma CompleteIsFull(s: Segment)
    requires Loaded(s) && Complete(s.data, s.used)
    ensures Full(s)
  {
  }

  lemma DroppedNow(view0: map<nat, Segment>, id: nat)
    requires id in view0 && Loaded(view0[id])
    ensures Dropped(view0, id, id + 1) == view0[id := Repaired(view0[id])]
  {
    hide Repaired, Loaded;
  }

  lemma NotFull(view0: map<nat, Segment>, id: nat)
    requires id in view0 && !Complete(view0[id].data, view0[id].used)
    ensures !AllFull(view0)
  {
    assert !Full(view0[id]);
  }

  lemma FileRange(limit: nat)
    requires limit < FILE_LIMIT
    ensures limit + 1 <= FILE_LIMIT
  {
  }

  /** The segments while the files behind file c go, up to file n. */
  ghost predicate CutSoFar(view0: map<nat, Segment>, c: nat, n: nat, passed: seq<map<nat, Segment>>) {
    && c < n && c in view0 && Loaded(view0[c]) && |passed| == n - c
    && forall j :: 0 <= j < |passed| ==> passed[j] == Dropped(view0, c, c + 1 + j)
  }

  /** A replay that cut a file: what the segments were on the way, and are in the end. */
  ghost predicate Cutting(view0: map<nat, Segment>, passed: seq<map<nat, Segment>>, view: map<nat, Segment>) {
    && passed != [] && passed[|passed| - 1] == view
    && var c := Cut(view0, 0, FILE_LIMIT);
       c + |passed| <= FILE_LIMIT && CutSoFar(view0, c, c + |passed|, passed)
  }

  lemma CutFirst(view0: map<nat, Segment>, c: nat, view: map<nat, Segment>, index0: Positions, index: Positions)
    requires Replaying(view0, view, index0, c + 1, index, true, c)
    ensures CutSoFar(view0, c, c + 1, [view])
  {
    hide Dropped, Loaded, Complete;
  }

  lemma CutMore(view0: map<nat, Segment>, c: nat, n: nat, view: map<nat, Segment>, passed: seq<map<nat, Segment>>,
                index0: Positions, index: Positions)
    requires Replaying(view0, view, index0, n + 1, index, true, c) && CutSoFar(view0, c, n, passed)
    ensures CutSoFar(view0, c, n + 1, passed + [view])
  {
    hide Dropped, Loaded, Complete;
  }

  lemma CutDone(view0: map<nat, Segment>, c: nat, n: nat, passed: seq<map<nat, Segment>>)
    requires CutSoFar(view0, c, n, passed) && c == Cut(view0, 0, FILE_LIMIT) && n <= FILE_LIMIT
    ensures Cutting(view0, passed, Dropped(view0, c, n))
  {
    hide Dropped, Loaded, Cut;
  }

  /** The files behind segments on the way. */
  ghost function ViewFiles(views: seq<map<nat, Segment>>): (s: seq<Files>)
    ensures |s| == |views|
  {
    seq(|views|, i requires 0 <= i < |views| => FilesOf(views[i]))
  }

  /** The single steps of a repair: the used offset of the damaged file, then one removal after
      the other. */
  lemma CuttingChain(view0: map<nat, Segment>, cuts: seq<map<nat, Segment>>, last: map<nat, Segment>)
    requires AllLoaded(view0) && Cutting(view0, cuts, last)
    ensures Chain(FileStep, FilesOf(view0), ViewFiles(cuts), FilesOf(last))
  {
    hide Cut, Dropped, Loaded, FilesOf, FileStep;
    var c, files := Cut(view0, 0, FILE_LIMIT), ViewFiles(cuts);
    forall i | 0 <= i < |files| ensures FileStep(Stop(FilesOf(view0), files, i), files[i]) {
      if i == 0 {
        CutStep(view0, c);
      } else {
        DropStep(view0, c, c + i);
      }
    }
  }

  lemma CutStep(view0: map<nat, Segment>, c: nat)
    requires c in view0 && Loaded(view0[c])
    ensures FileStep(FilesOf(view0), FilesOf(Dropped(view0, c, c + 1)))
  {
    RepairedData(view0[c]);
    hide *;
    DroppedNow(view0, c);
    FilesGrown(view0, c, Repaired(view0[c]));
    FileIs(view0, c);
    UsedIsFileStep(FilesOf(view0), c, view0[c].data, Repaired(view0[c]).used);
    SameFile(FilesOf(view0), c);
  }

  lemma SameFile(f: Files, id: nat)
    ensures id in f ==> f[id := f[id]] == f
    ensures FileStep(f, f)
  {
  }

  lemma RepairedData(s: Segment)
    requires Loaded(s)
    ensures |s.data| >= HEADER
    ensures Repaired(s).data == s.data || Repaired(s).data == SetUsed(s.data, Repaired(s).used)
  {
    hide Load, LoadHeader, Entries, SetUsed, LastGood;
    LoadedMeans(s);
  }

  lemma DropStep(view0: map<nat, Segment>, c: nat, n: nat)
    requires c < n && c in view0 && Loaded(view0[c])
    ensures FileStep(FilesOf(Dropped(view0, c, n)), FilesOf(Dropped(view0, c, n + 1)))
  {
    hide Loaded, Repaired, FileStep;
    var v := Dropped(view0, c, n);
    assert Dropped(view0, c, n + 1) == v - {n};
    assert FilesOf(v - {n}) == FilesOf(v) - {n};
    RemoveIsFileStep(FilesOf(v), n);
  }

  /** The replay callback, record by record. */
  method PlayAll(index0: Positions, out: seq<Replayed>) returns (index: Positions)
    ensures index == Play(index0, out)
  {
    index := index0;
    var i := 0;
    assert out[..0] == [];
    while i < |out|
      invariant 0 <= i <= |out| && index == Play(index0, out[..i])
    {
      assert out[..i + 1][..i] == out[..i];
      index := PlayOne(index, out[i]);
      i := i + 1;
    }
    assert out[..|out|] == out;
  }

  lemma OpenFileIs(walSize: nat, data: Bytes, bytes: Bytes)
    requires HEADER + RECORD_HEADER <= walSize <= OFFSET_LIMIT && |bytes| == walSize
    requires bytes == if data == [] then ZeroFile(walSize) else data
    ensures ZeroBytes(bytes, HEADER) ==>
      OpenFile(walSize, data) == Some(Segment(Opened(bytes), HEADER)) && LoadHeader(Opened(bytes)) == Ok(HEADER)
    ensures !ZeroBytes(bytes, HEADER) ==> Opened(bytes) == bytes
    ensures !ZeroBytes(bytes, HEADER) && LoadHeader(bytes).Ok? ==>
      OpenFile(walSize, data) == Some(Segment(bytes, LoadHeader(bytes).value))
    ensures !ZeroBytes(bytes, HEADER) && LoadHeader(bytes).Err? ==>
      OpenFile(walSize, data) == None && LoadHeader(bytes) == Err(CorruptWal)
  {
    hide Load;
    if ZeroBytes(bytes, HEADER) {
      HeaderInitialised(bytes);
    }
  }

  // ------------------------------------------------------------- steps of an opening

  lemma WalSizeRange(walSize: nat)
    requires HEADER + RECORD_HEADER <= walSize <= OFFSET_LIMIT
    ensures walSize >= HEADER
  {
  }

  /** The lowest of the numbers. */
  method LeastId(ids: set<nat>) returns (least: nat)
    requires ids != {}
    ensures least in ids && forall y :: y in ids ==> least <= y
  {
    least :| least in ids;
    var rest := ids - {least};
    while rest != {}
      invariant least in ids && rest <= ids
      invariant forall y :: y in ids && y !in rest ==> least <= y
      decreases |rest|
    {
      var x :| x in rest;
      if x < least {
        least := x;
      }
      rest := rest - {x};
    }
  }

  /** The file numbers in ascending order. */
  ghost predicate SortedOf(ids: seq<nat>, all: set<nat>) {
    && (forall j, k :: 0 <= j < k < |ids| ==> ids[j] < ids[k])
    && (forall x :: x in all <==> x in ids)
  }

  method SortedIds(all: set<nat>) returns (ids: seq<nat>)
    ensures SortedOf(ids, all)
  {
    ids := [];
    var rest := all;
    hide SortedBefore, ListedOrLeft, SortedOf;
    ListedNone(all);
    while rest != {}
      invariant SortedBefore(ids, rest) && ListedOrLeft(all, ids, rest)
      decreases |rest|
    {
      var x := LeastId(rest);
      OneMoreId(all, ids, rest, x);
      ids := ids + [x];
      rest := rest - {x};
    }
    ListedAll(all, ids);
  }

  lemma ListedAll(all: set<nat>, ids: seq<nat>)
    requires SortedBefore(ids, {}) && ListedOrLeft(all, ids, {})
    ensures SortedOf(ids, all)
  {
  }

  lemma ListedNone(all: set<nat>)
    ensures SortedBefore([], all) && ListedOrLeft(all, [], all)
  {
  }

  ghost predicate SortedBefore(ids: seq<nat>, rest: set<nat>) {
    && (forall j, k :: 0 <= j < k < |ids| ==> ids[j] < ids[k])
    && (forall j, y :: 0 <= j < |ids| && y in rest ==> ids[j] < y)
  }

  ghost predicate ListedOrLeft(all: set<nat>, ids: seq<nat>, rest: set<nat>) {
    forall x :: x in all <==> x in ids || x in rest
  }

  lemma OneMoreId(all: set<nat>, ids: seq<nat>, rest: set<nat>, x: nat)
    requires SortedBefore(ids, rest) && ListedOrLeft(all, ids, rest)
    requires x in rest && forall y :: y in rest ==> x <= y
    ensures SortedBefore(ids + [x], rest - {x}) && ListedOrLeft(all, ids + [x], rest - {x})
  {
    forall z ensures z in ids + [x] <==> z in ids || z == x {
    }
  }

  lemma BaseOpens(walSize: nat, files: Files, base: Files)
    requires HEADER + RECORD_HEADER <= walSize <= OFFSET_LIMIT
    requires base == if files == map[] then map[1 := []] else files
    ensures base != map[] && (Opens(walSize, base) <==> Opens(walSize, files))
    ensures Opens(walSize, base) ==> OpenView(walSize, base) == OpenView(walSize, files)
  {
    assert files == map[] ==> 1 in base;
    EmptyOpens(walSize);
    FirstFileShows(walSize, []);
  }

  ghost predicate OpenedSoFar(walSize: nat, base: Files, ids: seq<nat>, i: nat, view: map<nat, Segment>, now: Files)
    requires walSize >= HEADER
  {
    && i <= |ids| && SortedOf(ids, base.Keys) && now.Keys == base.Keys
    && (forall id :: id in view ==> id in ids)
    && (forall j :: 0 <= j < i ==>
          ids[j] in base && ids[j] in view && 0 < ids[j] < FILE_LIMIT
          && OpenFile(walSize, base[ids[j]]) == Some(view[ids[j]]) && now[ids[j]] == view[ids[j]].data)
    && (forall j :: i <= j < |ids| ==> ids[j] !in view && ids[j] in base && now[ids[j]] == base[ids[j]])
  }

  /** Files that open file by file to the same. */
  ghost predicate AlikeFiles(walSize: nat, base: Files, d: Files)
    requires walSize >= HEADER
  {
    d.Keys == base.Keys && forall id :: id in base ==> OpenFile(walSize, d[id]) == OpenFile(walSize, base[id])
  }

  lemma OpeningStart(walSize: nat, base: Files, ids: seq<nat>)
    requires walSize >= HEADER && SortedOf(ids, base.Keys)
    ensures OpenedSoFar(walSize, base, ids, 0, map[], base)
  {
  }

  lemma SomeIds(walSize: nat, base: Files, ids: seq<nat>)
    requires base != map[] && SortedOf(ids, base.Keys)
    ensures |ids| > 0
  {
    var x :| x in base;
    assert x in ids;
  }

  lemma OpeningFile(walSize: nat, base: Files, ids: seq<nat>, i: nat, view: map<nat, Segment>, now: Files)
    requires walSize >= HEADER && i < |ids| && OpenedSoFar(walSize, base, ids, i, view, now)
    ensures ids[i] in base && ids[i] !in view && ids[i] in now && now[ids[i]] == base[ids[i]]
  {
  }

  lemma NotOpens(walSize: nat, base: Files, id: nat)
    requires walSize >= HEADER && id in base && !(0 < id < FILE_LIMIT && OpenFile(walSize, base[id]).Some?)
    ensures !Opens(walSize, base)
  {
  }

  /** Files opened already still open to the same. */
  lemma NowAlike(walSize: nat, base: Files, ids: seq<nat>, i: nat, view: map<nat, Segment>, now: Files)
    requires HEADER + RECORD_HEADER <= walSize <= OFFSET_LIMIT && OpenedSoFar(walSize, base, ids, i, view, now)
    ensures AlikeFiles(walSize, base, now)
  {
    hide OpenFile;
    forall x | x in base ensures OpenFile(walSize, now[x]) == OpenFile(walSize, base[x]) {
      assert x in ids;
      var j :| 0 <= j < |ids| && ids[j] == x;
      if j < i {
        OpenAgain(walSize, base[x]);
      }
    }
  }

  lemma AlikeWith(walSize: nat, base: Files, now: Files, id: nat, data: Bytes)
    requires walSize >= HEADER && AlikeFiles(walSize, base, now) && id in base
    requires OpenFile(walSize, data) == OpenFile(walSize, base[id])
    ensures AlikeFiles(walSize, base, now[id := data])
  {
    hide OpenFile;
  }

  lemma OpenedOneMore(walSize: nat, base: Files, ids: seq<nat>, i: nat, view: map<nat, Segment>, now: Files, s: Segment)
    requires walSize >= HEADER && i < |ids| && OpenedSoFar(walSize, base, ids, i, view, now)
    requires ids[i] in base && 0 < ids[i] < FILE_LIMIT && OpenFile(walSize, base[ids[i]]) == Some(s)
    ensures OpenedSoFar(walSize, base, ids, i + 1, view[ids[i] := s], now[ids[i] := s.data])
  {
    hide OpenFile;
    IdsApart(ids, base.Keys, i);
    hide SortedOf;
  }

  lemma IdsApart(ids: seq<nat>, all: set<nat>, i: nat)
    requires SortedOf(ids, all) && i < |ids|
    ensures forall j :: 0 <= j < |ids| && j != i ==> ids[j] != ids[i]
    ensures ids[i] in ids
  {
  }

  lemma OpeningNext(walSize: nat, base: Files, ids: seq<nat>, i: nat, view: map<nat, Segment>, now: Files)
    requires HEADER + RECORD_HEADER <= walSize <= OFFSET_LIMIT
    requires i < |ids| && OpenedSoFar(walSize, base, ids, i, view, now) && ids[i] in base
    requires 0 < ids[i] < FILE_LIMIT && OpenFile(walSize, base[ids[i]]).Some?
    ensures var s := OpenFile(walSize, base[ids[i]]).value;
      && OpenedSoFar(walSize, base, ids, i + 1, view[ids[i] := s], now[ids[i] := s.data])
      && AlikeFiles(walSize, base, now[ids[i] := if base[ids[i]] == [] then ZeroFile(walSize) else base[ids[i]]])
      && AlikeFiles(walSize, base, now[ids[i] := s.data])
  {
    hide OpenFile, ZeroFile, AlikeFiles, OpenedSoFar;
    var id := ids[i];
    var s := OpenFile(walSize, base[id]).value;
    NowAlike(walSize, base, ids, i, view, now);
    OpenAgain(walSize, base[id]);
    AlikeWith(walSize, base, now, id, if base[id] == [] then ZeroFile(walSize) else base[id]);
    AlikeWith(walSize, base, now, id, s.data);
    OpenedOneMore(walSize, base, ids, i, view, now, s);
  }

  lemma OpeningDone(walSize: nat, base: Files, ids: seq<nat>, view: map<nat, Segment>, now: Files)
    requires walSize >= HEADER && base != map[] && |ids| > 0 && OpenedSoFar(walSize, base, ids, |ids|, view, now)
    ensures Opens(walSize, base) && view == OpenView(walSize, base) && now == FilesOf(view)
    ensures ids[|ids| - 1] in view && forall id :: id in view ==> 0 < id <= ids[|ids| - 1]
  {
    hide OpenFile;
    forall id | id in base ensures id in view && 0 < id < FILE_LIMIT && OpenFile(walSize, base[id]) == Some(view[id]) {
      assert id in ids;
    }
    forall id | id in view ensures id in base && 0 < id <= ids[|ids| - 1] {
      assert id in ids;
    }
  }

  /** The files while file id is opened: one that is empty gets its size, one whose header is
      empty gets a header. */
  ghost function OpeningFiles(walSize: nat, now: Files, id: nat, data: Bytes): seq<Files>
    requires id in now
  {
    if now[id] == [] then [now[id := ZeroFile(walSize)], now[id := data]]
    else if now[id] == data then []
    else [now[id := data]]
  }

  lemma OpeningChain(walSize: nat, now: Files, id: nat, s: Segment)
    requires walSize >= HEADER && id in now && OpenFile(walSize, now[id]) == Some(s)
    ensures Chain(FileStep, now, OpeningFiles(walSize, now, id, s.data), now[id := s.data])
  {
    hide ZeroFile, InitHeader, LoadHeader, FileStep;
    if now[id] == [] {
      SizedChain(walSize, now, id);
      assert now[id := []] == now;
    } else if now[id] == s.data {
      assert now[id := s.data] == now;
    } else {
      HeaderIsFileStep(now, id, now[id]);
      assert now[id := now[id]] == now;
    }
  }

  lemma AlikeMore(walSize: nat, base: Files, passed: seq<Files>, now: Files, id: nat, data: Bytes)
    requires walSize >= HEADER && id in now && id in base && now[id] == base[id]
    requires forall d :: d in passed ==> AlikeFiles(walSize, base, d)
    requires AlikeFiles(walSize, base, now[id := data])
    requires AlikeFiles(walSize, base, now[id := if base[id] == [] then ZeroFile(walSize) else base[id]])
    ensures forall d :: d in passed + OpeningFiles(walSize, now, id, data) ==> AlikeFiles(walSize, base, d)
  {
    hide AlikeFiles, ZeroFile;
  }

  lemma BaseChain(files: Files, base: Files, passed: seq<Files>, last: Files)
    requires base == (if files == map[] then map[1 := []] else files) && Chain(FileStep, base, passed, last)
    ensures Chain(FileStep, files, if files == map[] then [base] + passed else passed, last)
  {
    hide FileStep;
    if files == map[] {
      CreateIsFileStep(files, 1);
      assert files[1 := []] == base;
      ChainOne(FileStep, files, base);
      ChainConcat(FileStep, files, [base], base, passed, last);
    }
  }

  lemma OpeningSame(walSize: nat, base: Files, passed: seq<Files>)
    requires HEADER + RECORD_HEADER <= walSize <= OFFSET_LIMIT && Opens(walSize, base)
    requires forall d :: d in passed ==> AlikeFiles(walSize, base, d)
    ensures forall d :: d in passed ==> Opens(walSize, d) && OpenView(walSize, d) == OpenView(walSize, base)
  {
    hide OpenFile;
    forall d | d in passed ensures Opens(walSize, d) && OpenView(walSize, d) == OpenView(walSize, base) {
      assert AlikeFiles(walSize, base, d);
      assert Opening(walSize, base, d);
      OpeningShows(walSize, base, d);
    }
  }

  lemma FileOne()
    ensures 0 < 1 < FILE_LIMIT && forall s: Segment :: map[][1 := s] == map[1 := s]
  {
  }
}
