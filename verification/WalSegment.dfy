/** One mapped WAL segment (class WalSegment of store.cc): the bytes are changed in place. */
module WalSegments {
  import opened Wrappers
  import opened Keys
  import opened Codec
  import opened Crc32
  import opened WalFormat
  import opened Sequences

  datatype ReplayPolicy = Strict | PointInTime

  /** What a replay hands to its callback for one record. */
  datatype Replayed = Replayed(record: WalRecord, pos: Position)

  /** The records of a segment under their positions. */
  ghost function Positioned(fileNo: nat, entries: seq<Entry>): (r: seq<Replayed>)
    ensures |r| == |entries|
  {
    seq(|entries|, i requires 0 <= i < |entries| =>
      Replayed(entries[i].record, fileNo * OFFSET_LIMIT + entries[i].offset))
  }

  class WalSegment {
    const data: array<bv8>
    const fileNo: nat
    var used: nat
    var isSealed: bool

    /** The used offset in memory is the one in the header. */
    ghost predicate Valid()
      reads this, data
    {
      && HEADER + RECORD_HEADER <= data.Length <= OFFSET_LIMIT && 0 < fileNo < FILE_LIMIT
      && data[0..8] == MAGIC && Load(data[8..12]) == VERSION
      && LoadHeader(data[..]) == Ok(used)
    }

    /** WalSegment::Open over the mapped bytes of a file that has the right size: a zero
        header is initialised, any other must load. */
    static method Open(bytes: array<bv8>, fileNo: nat) returns (r: Result<WalSegment>)
      requires HEADER + RECORD_HEADER <= bytes.Length <= OFFSET_LIMIT && 0 < fileNo < FILE_LIMIT
      modifies bytes
      ensures r.Err? <==> !old(ZeroBytes(bytes[..], HEADER)) && old(LoadHeader(bytes[..])).Err?
      ensures r.Err? ==> r == Err(CorruptWal) && bytes[..] == old(bytes[..])
      ensures r.Ok? ==> fresh(r.value) && r.value.Valid() && r.value.data == bytes && r.value.fileNo == fileNo
      ensures r.Ok? ==> !r.value.isSealed
      ensures r.Ok? ==> bytes[..] == Opened(old(bytes[..])) && Ok(r.value.used) == LoadHeader(bytes[..])
    {
      var zero := true;
      var i := 0;
      while i < HEADER && zero
        invariant 0 <= i <= HEADER
        invariant zero <==> ZeroBytes(bytes[..], i)
        invariant !zero ==> !ZeroBytes(bytes[..], HEADER)
      {
        zero := bytes[i] == 0;
        i := i + 1;
      }
      if zero {
        var segment := new WalSegment(bytes, fileNo, HEADER);
        segment.InitialiseHeader();
        return Ok(segment);
      }
      var header := LoadHeader(bytes[..]);
      if header.Err? {
        return Err(header.error);
      }
      assert bytes[..][0..8] == bytes[0..8] && bytes[..][8..12] == bytes[8..12];
      var segment := new WalSegment(bytes, fileNo, header.value);
      return Ok(segment);
    }

    constructor (bytes: array<bv8>, fileNo: nat, used: nat)
      ensures this.data == bytes && this.fileNo == fileNo && this.used == used && !isSealed
    {
      data := bytes;
      this.fileNo := fileNo;
      this.used := used;
      isSealed := false;
    }

    /** Bytes copied into the mapping. passed are the contents after every single byte. */
    method CopyIn(at: nat, bytes: Bytes) returns (ghost passed: seq<Bytes>)
      requires at + |bytes| <= data.Length
      modifies data
      ensures data[..] == Exchange(old(data[..]), at, at + |bytes|, bytes)
      ensures |passed| == |bytes|
      ensures forall j :: 0 <= j < |passed| ==> passed[j] == Copied(old(data[..]), at, bytes, j + 1)
    {
      passed := [];
      ghost var before := data[..];
      var i := 0;
      CopiedEnds(before, at, bytes);
      while i < |bytes|
        invariant 0 <= i <= |bytes| && data[..] == Copied(before, at, bytes, i) && |passed| == i
        invariant forall j :: 0 <= j < i ==> passed[j] == Copied(before, at, bytes, j + 1)
      {
        CopiedNext(before, at, bytes, i);
        data[at + i] := bytes[i];
        i := i + 1;
        assert data[..] == Copied(before, at, bytes, i);
        passed := passed + [data[..]];
      }
    }

    method InitialiseHeader()
      requires HEADER + RECORD_HEADER <= data.Length <= OFFSET_LIMIT && 0 < fileNo < FILE_LIMIT
      modifies this, data
      ensures Valid() && used == HEADER && data[..] == InitHeader(old(data[..])) && isSealed == old(isSealed)
    {
      ghost var before := data[..];
      hide Load, Store, LoadHeader;
      HeaderInitialised(before);
      ghost var passed := CopyIn(0, MAGIC);
      passed := CopyIn(8, Store(VERSION, 4));
      used := HEADER;
      passed := CopyIn(16, Store(used, 8));
      HeaderBytes(before);
      assert data[0..8] == data[..][0..8] && data[8..12] == data[..][8..12];
    }

    predicate Fits(at: nat, key: Key, value: Bytes) {
      |key| < U32 && |value| < U32 && at + RECORD_HEADER + |key| + |value| <= data.Length
    }

    /** Append: the record is written behind the used part, then the used offset moves over
        it. A sealed segment, or one without room, takes nothing. torn are the contents after
        every byte of the record; the store of the used offset is a single step. */
    method Append(op: bv8, key: Key, value: Bytes) returns (r: Result<Position>, ghost torn: seq<Bytes>)
      requires Valid()
      modifies this, data
      ensures Valid() && isSealed == old(isSealed)
      ensures r.Ok? <==> !old(isSealed) && Fits(old(used), key, value)
      ensures r.Err? ==> r == Err(WalFull) && used == old(used) && data[..] == old(data[..])
      ensures r.Ok? ==> used == old(used) + |Encoded(op, key, value)|
      ensures r.Ok? ==> data[..] == Appended(old(data[..]), old(used), Encoded(op, key, value))
      ensures r.Ok? ==> MakeRecordPosition(fileNo, old(used)) == Some(r.value)
      ensures |torn| == if r.Ok? then |Encoded(op, key, value)| else 0
      ensures AllKeep(torn, old(data[..]), old(used))
      ensures r.Ok? ==> Chain(ByteStep, old(data[..]), torn, Laid(old(data[..]), old(used), Encoded(op, key, value)))
    {
      hide Encoded, Appended, LoadHeader, Load;
      torn := [];
      if isSealed {
        return Err(WalFull), torn;
      }
      if |key| >= U32 || |value| >= U32 {
        return Err(WalFull), torn;
      }
      var total := RECORD_HEADER + |key| + |value|;
      if total > data.Length - used {
        return Err(WalFull), torn;
      }
      r, torn := AppendFitting(op, key, value);
    }

    /** The writing part of Append. */
    method AppendFitting(op: bv8, key: Key, value: Bytes) returns (r: Result<Position>, ghost torn: seq<Bytes>)
      requires Valid() && Fits(used, key, value)
      modifies this`used, data
      ensures Valid() && r.Ok? && used == old(used) + |Encoded(op, key, value)|
      ensures data[..] == Appended(old(data[..]), old(used), Encoded(op, key, value))
      ensures MakeRecordPosition(fileNo, old(used)) == Some(r.value)
      ensures |torn| == |Encoded(op, key, value)| && AllKeep(torn, old(data[..]), old(used))
      ensures Chain(ByteStep, old(data[..]), torn, Laid(old(data[..]), old(used), Encoded(op, key, value)))
    {
      hide *;
      FitsMeans(used, op, key, value);
      ValidMeans();
      ghost var before := data[..];
      var start := used;
      LaidIs(before, start, Encoded(op, key, value));
      torn := WriteRecord(start, op, key, value);
      AdvanceUsed(before, op, key, value);
      return Ok(fileNo * OFFSET_LIMIT + start), torn;
    }

    /** The used offset moves over a record that is laid out. */
    method AdvanceUsed(ghost before: Bytes, op: bv8, key: Key, value: Bytes)
      requires HEADER + RECORD_HEADER <= data.Length == |before| <= OFFSET_LIMIT && 0 < fileNo < FILE_LIMIT
      requires before[0..8] == MAGIC && Load(before[8..12]) == VERSION && HEADER <= used
      requires used + RECORD_HEADER + |key| + |value| <= data.Length
      requires data[..] == Laid(before, used, Encoded(op, key, value))
      requires |Encoded(op, key, value)| == RECORD_HEADER + |key| + |value|
      modifies this`used, data
      ensures Valid() && used == old(used) + |Encoded(op, key, value)|
      ensures data[..] == Appended(before, old(used), Encoded(op, key, value))
      ensures MakeRecordPosition(fileNo, old(used)) == Some(fileNo * OFFSET_LIMIT + old(used))
    {
      hide *;
      var start := used;
      LaidIs(before, start, Encoded(op, key, value));
      AppendedIs(before, start, op, key, value);
      used := start + RECORD_HEADER + |key| + |value|;
      WriteUsed();
      StaysValid(before, start, op, key, value);
    }

    lemma FitsMeans(at: nat, op: bv8, key: Key, value: Bytes)
      requires Fits(at, key, value)
      ensures at + RECORD_HEADER + |key| + |value| <= data.Length
      ensures |Encoded(op, key, value)| == RECORD_HEADER + |key| + |value|
    {
    }

    method WriteUsed()
      requires HEADER + RECORD_HEADER <= data.Length && used <= data.Length
      modifies data
      ensures data[..] == SetUsed(old(data[..]), used)
    {
      ghost var passed := CopyIn(16, Store(used, 8));
    }

    /** The bytes of a record, field by field, its CRC last. */
    method WriteRecord(start: nat, op: bv8, key: Key, value: Bytes) returns (ghost passed: seq<Bytes>)
      requires HEADER <= start && start + RECORD_HEADER + |key| + |value| <= data.Length
      modifies data
      ensures Chain(ByteStep, old(data[..]), passed, data[..])
      ensures |passed| == |Encoded(op, key, value)| && AllKeep(passed, old(data[..]), start)
      ensures data[..] == Exchange(old(data[..]), start, start + |Encoded(op, key, value)|, Encoded(op, key, value))
    {
      hide *;
      RecordLayout();
      ghost var before := data[..];
      passed := WriteParts(start, op, key, value);
      var end := start + 13 + |key| + |value|;
      SliceOfArray(start, start + 9);
      SliceOfArray(start + 13, end);
      CrcWritten(before, start, op, key, value);
      var crc := CRC32Update(0, data[start..start + 9]);
      crc := CRC32Update(crc, data[start + 13..end]);
      ghost var more;
      ghost var parts := data[..];
      more := CopyField(start, start + 9, CrcBytes(crc), before);
      ChainConcat(ByteStep, before, passed, parts, more, data[..]);
      AllKeepMore(passed, more, before, start);
      passed := passed + more;
    }

    /** One field of the record that starts at start. */
    method CopyField(start: nat, at: nat, bytes: Bytes, ghost before: Bytes) returns (ghost passed: seq<Bytes>)
      requires HEADER <= start <= at && at + |bytes| <= data.Length && Keep(data[..], before, start)
      modifies data
      ensures Chain(ByteStep, old(data[..]), passed, data[..])
      ensures data[..] == Exchange(old(data[..]), at, at + |bytes|, bytes) && Keep(data[..], before, start)
      ensures |passed| == |bytes| && AllKeep(passed, before, start)
    {
      ghost var was := data[..];
      passed := CopyIn(at, bytes);
      CopiedKeep(was, before, start, at, bytes);
      CopiedChain(was, at, bytes, passed);
    }

    /** The fields around the CRC. */
    method WriteParts(start: nat, op: bv8, key: Key, value: Bytes) returns (ghost passed: seq<Bytes>)
      requires HEADER <= start && start + RECORD_HEADER + |key| + |value| <= data.Length
      modifies data
      ensures Chain(ByteStep, old(data[..]), passed, data[..])
      ensures Keep(data[..], old(data[..]), start) && AllKeep(passed, old(data[..]), start)
      ensures |passed| == 9 + |key| + |value|
      ensures data[..] == Parts(old(data[..]), start, op, key, value)
    {
      hide *;
      RecordLayout();
      ghost var before := data[..];
      KeepSelf(before, start);
      ghost var a, b, c, d, e;
      a := CopyField(start, start, [op], before);
      ghost var one := data[..];
      b := CopyField(start, start + 1, Store(|key|, 4), before);
      ChainConcat(ByteStep, before, a, one, b, data[..]);
      ghost var two := data[..];
      c := CopyField(start, start + 5, Store(|value|, 4), before);
      ChainConcat(ByteStep, before, a + b, two, c, data[..]);
      ghost var three := data[..];
      d := CopyField(start, start + 13, key, before);
      ChainConcat(ByteStep, before, a + b + c, three, d, data[..]);
      ghost var four := data[..];
      e := CopyField(start, start + 13 + |key|, value, before);
      ChainConcat(ByteStep, before, a + b + c + d, four, e, data[..]);
      AllKeepMore(a, b, before, start);
      AllKeepMore(a + b, c, before, start);
      AllKeepMore(a + b + c, d, before, start);
      AllKeepMore(a + b + c + d, e, before, start);
      passed := a + b + c + d + e;
      WrittenParts(before, start, op, key, value);
    }

    /** RecordAtOffset: reads one record, or finds that there is none. */
    method RecordAtOffset(offset: nat, verifyCrc: bool) returns (r: Result<WalRecord>)
      requires Valid()
      ensures used <= data.Length && r == RecordAt(data[..], used, offset, verifyCrc)
    {
      hide Load, LoadCrc, RecordCrc;
      if offset < HEADER || offset + RECORD_HEADER > used {
        return Err(CorruptWal);
      }
      var op := data[offset];
      if op != OP_PUT && op != OP_DELETE {
        return Err(CorruptWal);
      }
      SliceOfArray(offset + 1, offset + 5);
      SliceOfArray(offset + 5, offset + 9);
      var keyLen, valueLen := Load(data[offset + 1..offset + 5]), Load(data[offset + 5..offset + 9]);
      if op == OP_DELETE && valueLen != 0 {
        return Err(CorruptWal);
      }
      if keyLen > MAX_KEY_SIZE {
        return Err(CorruptWal);
      }
      var start := offset + RECORD_HEADER;
      var end := start + keyLen + valueLen;
      if end > used {
        return Err(CorruptWal);
      }
      SliceOfArray(offset, offset + 9);
      SliceOfArray(offset + 9, start);
      SliceOfArray(start, end);
      SliceOfArray(start, start + keyLen);
      SliceOfArray(start + keyLen, end);
      if verifyCrc {
        var crc := RecordCrcOf(offset, end);
        if crc != LoadCrc(data[offset + 9..start]) {
          return Err(CorruptWal);
        }
      }
      return Ok(WalRecord(op, data[start..start + keyLen], data[start + keyLen..end], end));
    }

    /** WalRecordCRC */
    method RecordCrcOf(offset: nat, end: nat) returns (crc: bv32)
      requires offset + RECORD_HEADER <= end <= data.Length
      ensures crc == RecordCrc(data[offset..offset + 9], data[offset + RECORD_HEADER..end])
    {
      hide Crc;
      crc := CRC32Update(0, data[offset..offset + 9]);
      crc := CRC32Update(crc, data[offset + RECORD_HEADER..end]);
    }

    /** Replay: hands out the records from the start on, up to the first that cannot be read.
        There strict replay fails, and point-in-time replay truncates; a replay that reads
        all of them always ends on the used offset. */
    method Replay(policy: ReplayPolicy) returns (r: Result<bool>, out: seq<Replayed>)
      requires Valid()
      modifies this, data
      ensures Valid() && isSealed == old(isSealed)
      ensures out == Positioned(fileNo, Entries(old(data[..]), old(used), HEADER))
      ensures policy == Strict ==> data[..] == old(data[..]) && used == old(used)
      ensures policy == Strict ==> r == if Complete(old(data[..]), old(used)) then Ok(false) else Err(CorruptWal)
      ensures policy == PointInTime ==> r == Ok(!Complete(old(data[..]), old(used)))
      ensures policy == PointInTime ==> used == LastGood(old(data[..]), old(used), HEADER) && Complete(data[..], used)
      ensures policy == PointInTime ==> Entries(data[..], used, HEADER) == Entries(old(data[..]), old(used), HEADER)
      ensures policy == PointInTime ==> data[..] == Truncated(old(data[..]), old(used))
    {
      hide *;
      ValidMeans();
      ghost var bytes, all := data[..], used;
      out := [];
      var offset := HEADER;
      ReplayStart(bytes, all);
      while offset < used
        invariant Valid() && data[..] == bytes && used == all && HEADER <= offset <= used && isSealed == old(isSealed)
        invariant Entries(bytes, all, HEADER) == Done(out, fileNo) + Entries(bytes, all, offset)
        invariant LastGood(bytes, all, offset) == LastGood(bytes, all, HEADER)
        invariant Numbered(out, fileNo)
        decreases used - offset
      {
        ReplayStep(bytes, all, offset, out, fileNo);
        var record := RecordAtOffset(offset, true);
        if record.Err? {
          ReplayDone(bytes, all, offset, out, fileNo);
          if policy == Strict {
            return Err(record.error), out;
          }
          Truncate(offset);
          ReplayTruncated(bytes, all, offset);
          return Ok(true), out;
        }
        var pos := MakeRecordPosition(fileNo, offset);
        PositionParts(fileNo, offset);
        out := out + [Replayed(record.value, pos.value)];
        offset := record.value.end;
      }
      ReplayDone(bytes, all, offset, out, fileNo);
      return Ok(false), out;
    }

    /** Truncate */
    method Truncate(to: nat)
      requires Valid() && HEADER <= to <= used
      modifies this, data
      ensures Valid() && used == to && isSealed == old(isSealed) && data[..] == SetUsed(old(data[..]), to)
    {
      ghost var before := data[..];
      hide Load, Store, LoadHeader;
      ValidMeans();
      used := to;
      WriteUsed();
      UsedWritten(before, to);
      assert data[0..8] == data[..][0..8] && data[8..12] == data[..][8..12];
    }

    lemma ValidMeans()
      requires Valid()
      ensures HEADER + RECORD_HEADER <= data.Length <= OFFSET_LIMIT && 0 < fileNo < FILE_LIMIT
      ensures HEADER <= used <= data.Length && LoadHeader(data[..]) == Ok(used)
      ensures data[..][0..8] == MAGIC && Load(data[..][8..12]) == VERSION
    {
      assert data[..][0..8] == data[0..8] && data[..][8..12] == data[8..12];
    }

    lemma SliceOfArray(i: nat, j: nat)
      requires i <= j <= data.Length
      ensures data[i..j] == data[..][i..j]
    {
    }

    lemma StaysValid(before: Bytes, start: nat, op: bv8, key: Key, value: Bytes)
      requires HEADER + RECORD_HEADER <= data.Length == |before| <= OFFSET_LIMIT && 0 < fileNo < FILE_LIMIT
      requires before[0..8] == MAGIC && Load(before[8..12]) == VERSION
      requires HEADER <= start && used == start + |Encoded(op, key, value)| <= data.Length
      requires data[..] == Appended(before, start, Encoded(op, key, value))
      ensures Valid() && MakeRecordPosition(fileNo, start) == Some(fileNo * OFFSET_LIMIT + start)
    {
      hide Load, Encoded;
      var d := Exchange(before, start, used, Encoded(op, key, value));
      assert d[0..8] == before[0..8] && d[8..12] == before[8..12];
      UsedWritten(d, used);
      assert data[0..8] == data[..][0..8] && data[8..12] == data[..][8..12];
    }
  }

  lemma HeaderBytes(before: Bytes)
    requires |before| >= HEADER
    ensures var a := Exchange(before, 0, 8, MAGIC);
      var b := Exchange(a, 8, 12, Store(VERSION, 4));
      |a| == |before| == |b| && Exchange(b, 16, 24, Store(HEADER, 8)) == InitHeader(before)
  {
    hide Store;
    var a := Exchange(before, 0, 8, MAGIC);
    var b := Exchange(a, 8, 12, Store(VERSION, 4));
    assert b == MAGIC + Store(VERSION, 4) + before[12..];
  }

  lemma RecordLayout()
    ensures RECORD_HEADER == 13 && HEADER == 4096
  {
  }

  /** The first n bytes are copied. */
  ghost function Copied(before: Bytes, at: nat, bytes: Bytes, n: nat): Bytes
    requires at + |bytes| <= |before| && n <= |bytes|
  {
    Exchange(before, at, at + n, bytes[..n])
  }

  lemma CopiedEnds(before: Bytes, at: nat, bytes: Bytes)
    requires at + |bytes| <= |before|
    ensures Copied(before, at, bytes, 0) == before
    ensures Copied(before, at, bytes, |bytes|) == Exchange(before, at, at + |bytes|, bytes)
  {
    assert bytes[..|bytes|] == bytes;
  }

  lemma CopiedNext(before: Bytes, at: nat, bytes: Bytes, n: nat)
    requires at + |bytes| <= |before| && n < |bytes|
    ensures |Copied(before, at, bytes, n)| == |before|
    ensures Copied(before, at, bytes, n + 1) == Copied(before, at, bytes, n)[at + n := bytes[n]]
  {
  }

  /** One byte behind the header was stored. */
  ghost predicate ByteStep(a: Bytes, b: Bytes) {
    |b| == |a| && exists i: nat :: HEADER <= i < |a| && b == a[i := b[i]]
  }

  lemma CopiedChain(before: Bytes, at: nat, bytes: Bytes, passed: seq<Bytes>)
    requires HEADER <= at && at + |bytes| <= |before| && |passed| == |bytes|
    requires forall j :: 0 <= j < |passed| ==> passed[j] == Copied(before, at, bytes, j + 1)
    ensures Chain(ByteStep, before, passed, Exchange(before, at, at + |bytes|, bytes))
  {
    CopiedEnds(before, at, bytes);
    forall j | 0 <= j < |passed| ensures ByteStep(Stop(before, passed, j), passed[j]) {
      CopiedNext(before, at, bytes, j);
      var was, now := Stop(before, passed, j), passed[j];
      assert was == Copied(before, at, bytes, j);
      assert now == was[at + j := now[at + j]];
    }
  }

  /** What lies before start is untouched. */
  ghost predicate Keep(data: Bytes, before: Bytes, start: nat) {
    |data| == |before| && start <= |data| && data[..start] == before[..start]
  }

  ghost predicate AllKeep(torn: seq<Bytes>, before: Bytes, start: nat) {
    forall t :: t in torn ==> Keep(t, before, start)
  }

  lemma KeepSelf(before: Bytes, start: nat)
    requires start <= |before|
    ensures Keep(before, before, start)
  {
  }

  lemma AllKeepMore(a: seq<Bytes>, b: seq<Bytes>, before: Bytes, start: nat)
    requires AllKeep(a, before, start) && AllKeep(b, before, start)
    ensures AllKeep(a + b, before, start)
  {
  }

  lemma CopiedKeep(was: Bytes, before: Bytes, start: nat, at: nat, bytes: Bytes)
    requires Keep(was, before, start) && start <= at && at + |bytes| <= |was|
    ensures forall n :: 0 <= n <= |bytes| ==> Keep(Copied(was, at, bytes, n), before, start)
    ensures Keep(Exchange(was, at, at + |bytes|, bytes), before, start)
  {
    forall n | 0 <= n <= |bytes| ensures Keep(Copied(was, at, bytes, n), before, start) {
      assert Copied(was, at, bytes, n)[..start] == was[..start];
    }
    CopiedEnds(was, at, bytes);
  }

  /** The record is laid out, and the used offset not yet stored. */
  ghost function Laid(data: Bytes, used: nat, record: Bytes): (r: Bytes) {
    if used + |record| <= |data| then Exchange(data, used, used + |record|, record) else data
  }

  lemma LaidIs(data: Bytes, used: nat, record: Bytes)
    requires used + |record| <= |data|
    ensures Laid(data, used, record) == Exchange(data, used, used + |record|, record)
  {
  }

  lemma AppendedIs(before: Bytes, start: nat, op: bv8, key: Key, value: Bytes)
    requires HEADER <= start && start + |Encoded(op, key, value)| <= |before|
    ensures var e := Exchange(before, start, start + |Encoded(op, key, value)|, Encoded(op, key, value));
      |e| >= HEADER && SetUsed(e, start + |Encoded(op, key, value)|) == Appended(before, start, Encoded(op, key, value))
  {
  }

  /** The bytes around a record whose CRC is still missing. */
  ghost function Parts(before: Bytes, start: nat, op: bv8, key: Key, value: Bytes): (r: Bytes)
    requires start + RECORD_HEADER + |key| + |value| <= |before|
    ensures |r| == |before|
  {
    Exchange(Exchange(before, start, start + 9, Lead(op, key, value)),
             start + 13, start + 13 + |key| + |value|, key + value)
  }

  lemma WrittenParts(before: Bytes, start: nat, op: bv8, key: Key, value: Bytes)
    requires start + RECORD_HEADER + |key| + |value| <= |before|
    ensures var a := Exchange(before, start, start + 1, [op]);
      |a| == |before| && var b := Exchange(a, start + 1, start + 5, Store(|key|, 4));
      |b| == |before| && var c := Exchange(b, start + 5, start + 9, Store(|value|, 4));
      |c| == |before| && var d := Exchange(c, start + 13, start + 13 + |key|, key);
      |d| == |before| && Exchange(d, start + 13 + |key|, start + 13 + |key| + |value|, value)
        == Parts(before, start, op, key, value)
  {
    hide Store;
    ExchangeNext(before, start, start + 1, start + 5, [op], Store(|key|, 4));
    ExchangeNext(before, start, start + 5, start + 9, [op] + Store(|key|, 4), Store(|value|, 4));
    var c := Exchange(before, start, start + 9, Lead(op, key, value));
    ExchangeNext(c, start + 13, start + 13 + |key|, start + 13 + |key| + |value|, key, value);
  }

  lemma CrcWritten(before: Bytes, start: nat, op: bv8, key: Key, value: Bytes)
    requires start + RECORD_HEADER + |key| + |value| <= |before|
    ensures var f := Parts(before, start, op, key, value);
      var end := start + 13 + |key| + |value|;
      && f[start..start + 9] == Lead(op, key, value) && f[start + 13..end] == key + value
      && Exchange(f, start + 9, start + 13, CrcBytes(Crc(Crc(0, Lead(op, key, value)), key + value)))
        == Exchange(before, start, start + |Encoded(op, key, value)|, Encoded(op, key, value))
      && start + |Encoded(op, key, value)| == end
  {
    hide Store, Lead, Crc, CrcBytes;
    var lead := Lead(op, key, value);
    var crc := CrcBytes(RecordCrc(lead, key + value));
    ExchangeGap(before, start, start + 9, start + 13, start + 13 + |key| + |value|, lead, crc, key + value);
    assert lead + crc + (key + value) == Encoded(op, key, value);
  }

  // ------------------------------------------------------------ steps of a replay

  /** The segment after a point-in-time replay. */
  ghost function Truncated(data: Bytes, used: nat): Bytes
    requires HEADER <= used <= |data|
  {
    if Complete(data, used) then data else SetUsed(data, LastGood(data, used, HEADER))
  }

  /** The entries already handed out. */
  ghost function Done(out: seq<Replayed>, fileNo: nat): seq<Entry> {
    seq(|out|, i requires 0 <= i < |out| => Entry(Offset(out[i].pos), out[i].record))
  }

  ghost predicate Numbered(out: seq<Replayed>, fileNo: nat) {
    forall x :: x in out ==> x.pos == fileNo * OFFSET_LIMIT + Offset(x.pos)
  }

  lemma ReplayStart(data: Bytes, used: nat)
    requires HEADER <= used <= |data| <= OFFSET_LIMIT
    ensures Entries(data, used, HEADER) == Done([], 0) + Entries(data, used, HEADER)
    ensures forall n :: Done([], n) == [] && Numbered([], n)
    ensures HEADER == 4096
  {
  }

  /** Offsets of a segment fit into positions. */
  lemma OffsetsFit(data: Bytes, used: nat)
    requires HEADER <= used <= |data| <= OFFSET_LIMIT
    ensures forall e :: e in Entries(data, used, HEADER) ==> HEADER <= e.offset < OFFSET_LIMIT
  {
    forall e | e in Entries(data, used, HEADER) ensures HEADER <= e.offset < OFFSET_LIMIT {
      EntryReadable(data, used, HEADER, e);
    }
  }

  lemma ReplayStep(data: Bytes, used: nat, offset: nat, out: seq<Replayed>, fileNo: nat)
    requires HEADER <= offset < used <= |data| <= OFFSET_LIMIT && 0 < fileNo < FILE_LIMIT && Numbered(out, fileNo)
    ensures RecordAt(data, used, offset, true).Err? ==>
      Entries(data, used, offset) == [] && LastGood(data, used, offset) == offset
    ensures RecordAt(data, used, offset, true).Ok? ==>
      var r := RecordAt(data, used, offset, true).value;
      && offset < r.end <= used && LastGood(data, used, offset) == LastGood(data, used, r.end)
      && MakeRecordPosition(fileNo, offset).Some?
      && var out2 := out + [Replayed(r, MakeRecordPosition(fileNo, offset).value)];
      && Numbered(out2, fileNo)
      && Done(out, fileNo) + Entries(data, used, offset) == Done(out2, fileNo) + Entries(data, used, r.end)
  {
    hide RecordAt;
    if RecordAt(data, used, offset, true).Ok? {
      var r := RecordAt(data, used, offset, true).value;
      PositionParts(fileNo, offset);
      var out2 := out + [Replayed(r, MakeRecordPosition(fileNo, offset).value)];
      assert Done(out2, fileNo) == Done(out, fileNo) + [Entry(offset, r)];
    }
  }

  lemma ReplayDone(data: Bytes, used: nat, offset: nat, out: seq<Replayed>, fileNo: nat)
    requires HEADER <= offset <= used <= |data| <= OFFSET_LIMIT && 0 < fileNo < FILE_LIMIT && Numbered(out, fileNo)
    requires Entries(data, used, HEADER) == Done(out, fileNo) + Entries(data, used, offset)
    requires LastGood(data, used, offset) == LastGood(data, used, HEADER)
    requires offset < used ==> RecordAt(data, used, offset, true).Err?
    ensures out == Positioned(fileNo, Entries(data, used, HEADER))
    ensures LastGood(data, used, HEADER) == offset && (Complete(data, used) <==> offset == used)
    ensures Complete(data, used) ==> Truncated(data, used) == data
    ensures !Complete(data, used) ==> Truncated(data, used) == SetUsed(data, offset)
  {
    hide RecordAt;
    OffsetsFit(data, used);
    var es := Entries(data, used, HEADER);
    assert es == Done(out, fileNo) + [] == Done(out, fileNo);
    assert forall i :: 0 <= i < |out| ==> Positioned(fileNo, es)[i] == out[i];
  }

  lemma ReplayTruncated(data: Bytes, used: nat, offset: nat)
    requires HEADER <= used <= |data| && LastGood(data, used, HEADER) == offset
    ensures var data2 := SetUsed(data, offset);
      Complete(data2, offset) && Entries(data2, offset, HEADER) == Entries(data, used, HEADER)
  {
    TruncateKeeps(data, used, SetUsed(data, offset));
  }
}
