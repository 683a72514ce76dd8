/** The bytes of a WAL segment (class WalSegment of store.cc), as functions of the bytes:
    records, what a replay reads, and what appending and truncating do to it. */
module WalFormat {
  import opened Wrappers
  import opened Keys
  import opened Codec
  import opened Crc32
  import opened Sequences

  const HEADER: nat := 4096
  const RECORD_HEADER: nat := 13
  const OP_PUT: bv8 := 1
  const OP_DELETE: bv8 := 2

  datatype WalRecord = WalRecord(op: bv8, key: Key, value: Bytes, end: nat)

  // ------------------------------------------------------------------- records

  /** The nine bytes before the CRC: operation, key length, value length. */
  function Lead(op: bv8, key: Key, value: Bytes): (s: Bytes)
    ensures |s| == 9
  {
    [op] + Store(|key|, 4) + Store(|value|, 4)
  }

  /** WalRecordCRC: over everything but the CRC field itself. */
  function RecordCrc(lead: Bytes, body: Bytes): bv32 {
    Crc(Crc(0, lead), body)
  }

  /** A record as it is laid out. */
  function Encoded(op: bv8, key: Key, value: Bytes): (s: Bytes)
    ensures |s| == RECORD_HEADER + |key| + |value|
  {
    Lead(op, key, value) + CrcBytes(RecordCrc(Lead(op, key, value), key + value)) + key + value
  }

  /** RecordAtOffset: the record at an offset of a segment whose first used bytes count. */
  function RecordAt(data: Bytes, used: nat, offset: nat, verify: bool): (r: Result<WalRecord>)
    requires used <= |data|
    ensures r.Ok? ==>
      HEADER <= offset && r.value.end == offset + RECORD_HEADER + |r.value.key| + |r.value.value| <= used
    ensures r.Ok? ==> |r.value.key| <= MAX_KEY_SIZE && (r.value.op == OP_PUT || r.value.op == OP_DELETE)
    ensures r.Err? ==> r == Err(CorruptWal)
  {
    if offset < HEADER || offset + RECORD_HEADER > used then Err(CorruptWal)
    else
      var op := data[offset];
      if op != OP_PUT && op != OP_DELETE then Err(CorruptWal)
      else
        var keyLen, valueLen := Load(data[offset + 1..offset + 5]), Load(data[offset + 5..offset + 9]);
        if op == OP_DELETE && valueLen != 0 then Err(CorruptWal)
        else if keyLen > MAX_KEY_SIZE then Err(CorruptWal)
        else
          var start := offset + RECORD_HEADER;
          var end := start + keyLen + valueLen;
          if end > used then Err(CorruptWal)
          else if verify && RecordCrc(data[offset..offset + 9], data[start..end]) != LoadCrc(data[offset + 9..start])
          then Err(CorruptWal)
          else Ok(WalRecord(op, data[start..start + keyLen], data[start + keyLen..end], end))
  }

  /** Reading looks only at the bytes of the record. */
  lemma RecordFrame(data: Bytes, used: nat, data2: Bytes, used2: nat, offset: nat, verify: bool)
    requires used <= |data| && used2 <= |data2|
    requires RecordAt(data, used, offset, verify).Ok?
    requires var end := RecordAt(data, used, offset, verify).value.end;
      end <= used2 && data2[offset..end] == data[offset..end]
    ensures RecordAt(data2, used2, offset, verify) == RecordAt(data, used, offset, verify)
  {
    hide Load, LoadCrc, RecordCrc;
    var end := RecordAt(data, used, offset, verify).value.end;
    var start := offset + RECORD_HEADER;
    var keyLen := |RecordAt(data, used, offset, verify).value.key|;
    SameSlice(data, data2, offset, end, 0, 1);
    SameSlice(data, data2, offset, end, 1, 5);
    SameSlice(data, data2, offset, end, 5, 9);
    SameSlice(data, data2, offset, end, 0, 9);
    SameSlice(data, data2, offset, end, 9, 13);
    SameSlice(data, data2, offset, end, 13, end - offset);
    SameSlice(data, data2, offset, end, 13, 13 + keyLen);
    SameSlice(data, data2, offset, end, 13 + keyLen, end - offset);
    assert data[offset] == data[offset..offset + 1][0] && data2[offset] == data2[offset..offset + 1][0];
  }

  lemma SameSlice<T>(a: seq<T>, b: seq<T>, lo: nat, hi: nat, i: nat, j: nat)
    requires lo <= hi <= |a| && hi <= |b| && a[lo..hi] == b[lo..hi] && i <= j <= hi - lo
    ensures a[lo + i..lo + j] == b[lo + i..lo + j]
  {
    SliceOfSlice(a, lo, hi, i, j);
    SliceOfSlice(b, lo, hi, i, j);
  }

  /** What was laid out is read back, operation, key and value. */
  lemma ReadBack(data: Bytes, used: nat, offset: nat, op: bv8, key: Key, value: Bytes, verify: bool)
    requires HEADER <= offset && used <= |data| && offset + |Encoded(op, key, value)| <= used
    requires data[offset..offset + |Encoded(op, key, value)|] == Encoded(op, key, value)
    requires op == OP_PUT || (op == OP_DELETE && value == [])
    requires |key| <= MAX_KEY_SIZE && |value| < U32
    ensures RecordAt(data, used, offset, verify)
      == Ok(WalRecord(op, key, value, offset + RECORD_HEADER + |key| + |value|))
  {
    hide Load, LoadCrc, RecordCrc, Store, CrcBytes;
    var e := Encoded(op, key, value);
    var end := offset + |e|;
    EncodedParts(op, key, value);
    InsideRecord(data, offset, e);
    WordRange();
    LoadStore(|key|, 4);
    LoadStore(|value|, 4);
    CrcRoundTrip(RecordCrc(Lead(op, key, value), key + value), CrcBytes(0));
    assert data[offset] == e[0];
  }

  lemma LeadParts(op: bv8, key: Key, value: Bytes)
    ensures var lead := Lead(op, key, value);
      lead[0] == op && lead[1..5] == Store(|key|, 4) && lead[5..9] == Store(|value|, 4)
  {
    hide Store;
    FourParts([op], Store(|key|, 4), Store(|value|, 4), []);
    assert [op] + Store(|key|, 4) + Store(|value|, 4) + [] == Lead(op, key, value);
  }

  lemma EncodedCut(op: bv8, key: Key, value: Bytes)
    ensures var e := Encoded(op, key, value);
      && e[0..9] == Lead(op, key, value) && e[9..13] == CrcBytes(RecordCrc(Lead(op, key, value), key + value))
      && e[13..|e|] == key + value && e[13..13 + |key|] == key && e[13 + |key|..|e|] == value
  {
    hide RecordCrc, Store, CrcBytes, Lead;
    FourParts(Lead(op, key, value), CrcBytes(RecordCrc(Lead(op, key, value), key + value)), key, value);
  }

  lemma EncodedParts(op: bv8, key: Key, value: Bytes)
    ensures var e := Encoded(op, key, value);
      && e[0] == op && e[1..5] == Store(|key|, 4) && e[5..9] == Store(|value|, 4)
      && e[0..9] == Lead(op, key, value) && e[9..13] == CrcBytes(RecordCrc(Lead(op, key, value), key + value))
      && e[13..|e|] == key + value && e[13..13 + |key|] == key && e[13 + |key|..|e|] == value
  {
    hide RecordCrc, Store, CrcBytes, Lead, Encoded;
    var e := Encoded(op, key, value);
    LeadParts(op, key, value);
    EncodedCut(op, key, value);
    SliceOfSlice(e, 0, 9, 1, 5);
    SliceOfSlice(e, 0, 9, 5, 9);
    assert e[0] == e[0..9][0];
  }

  lemma InsideRecord(data: Bytes, offset: nat, e: Bytes)
    requires offset + |e| <= |data| && data[offset..offset + |e|] == e
    ensures forall i, j :: 0 <= i <= j <= |e| ==> data[offset + i..offset + j] == e[i..j]
    ensures forall i :: 0 <= i < |e| ==> data[offset + i] == e[i]
  {
    forall i, j | 0 <= i <= j <= |e| ensures data[offset + i..offset + j] == e[i..j] {
      SliceOfSlice(data, offset, offset + |e|, i, j);
    }
    forall i | 0 <= i < |e| ensures data[offset + i] == e[i] {
      assert data[offset + i] == data[offset..offset + |e|][i];
    }
  }

  /** A record that may be laid out. */
  ghost predicate Legal(r: WalRecord) {
    (r.op == OP_PUT || (r.op == OP_DELETE && r.value == [])) && |r.key| <= MAX_KEY_SIZE && |r.value| < U32
  }

  /** What is read at an offset with its CRC is a legal record laid out there, and every such
      record is read. */
  lemma RecordExact(data: Bytes, used: nat, offset: nat, r: WalRecord)
    requires used <= |data|
    ensures RecordAt(data, used, offset, true) == Ok(r) <==>
      && HEADER <= offset && offset + |Encoded(r.op, r.key, r.value)| == r.end <= used && Legal(r)
      && data[offset..r.end] == Encoded(r.op, r.key, r.value)
  {
    hide Load, LoadCrc, RecordCrc, Store, CrcBytes, RecordAt;
    if RecordAt(data, used, offset, true) == Ok(r) {
      RecordIs(data, used, offset, r);
    }
    if HEADER <= offset && offset + |Encoded(r.op, r.key, r.value)| == r.end <= used && Legal(r)
      && data[offset..r.end] == Encoded(r.op, r.key, r.value)
    {
      ReadBack(data, used, offset, r.op, r.key, r.value, true);
    }
  }

  lemma RecordIs(data: Bytes, used: nat, offset: nat, r: WalRecord)
    requires used <= |data| && RecordAt(data, used, offset, true) == Ok(r)
    ensures HEADER <= offset && offset + |Encoded(r.op, r.key, r.value)| == r.end <= used && Legal(r)
    ensures data[offset..r.end] == Encoded(r.op, r.key, r.value)
  {
    hide Load, LoadCrc, RecordCrc, Store, CrcBytes, Encoded;
    var start := offset + RECORD_HEADER;
    var a, b, c := data[offset + 1..offset + 5], data[offset + 5..offset + 9], data[offset + 9..start];
    WordRange();
    StoreLoad(a);
    StoreLoad(b);
    CrcRoundTrip(0, c);
    RecordSlices(data, offset, |r.key|, r.end);
    EncodedIs(r.op, r.key, r.value, data[offset..offset + 9], c, data[start..r.end]);
  }

  lemma RecordSlices(data: Bytes, offset: nat, n: nat, end: nat)
    requires offset + RECORD_HEADER + n <= end <= |data|
    ensures var start := offset + RECORD_HEADER;
      && data[offset..offset + 9] == [data[offset]] + data[offset + 1..offset + 5] + data[offset + 5..offset + 9]
      && data[start..end] == data[start..start + n] + data[start + n..end]
      && data[offset..end] == data[offset..offset + 9] + data[offset + 9..start] + data[start..end]
  {
  }

  lemma EncodedIs(op: bv8, key: Key, value: Bytes, lead: Bytes, crc: Bytes, body: Bytes)
    requires lead == [op] + Store(|key|, 4) + Store(|value|, 4) && body == key + value
    requires crc == CrcBytes(RecordCrc(lead, body))
    ensures lead + crc + body == Encoded(op, key, value) && |Encoded(op, key, value)| == RECORD_HEADER + |key| + |value|
  {
    hide RecordCrc, Store, CrcBytes;
    ConcatThree(lead + crc, key, value);
  }

  /** The CRC covers the operation, the lengths, the key and the value, in one piece. */
  lemma RecordCrcIs(op: bv8, key: Key, value: Bytes)
    ensures RecordCrc(Lead(op, key, value), key + value)
      == Crc(0, [op] + Store(|key|, 4) + Store(|value|, 4) + key + value)
  {
    hide Crc, Store;
    Chained(0, Lead(op, key, value), key + value);
    ConcatThree(Lead(op, key, value), key, value);
  }

  // ------------------------------------------------------- damaged records

  /** One changed byte of a record, its length fields aside. */
  ghost predicate Damaged(data: Bytes, offset: nat, end: nat, i: nat, b: bv8) {
    && offset + RECORD_HEADER <= end <= |data| && offset <= i < end && b != data[i]
    && (i == offset || i >= offset + 9)
  }

  /** The CRC notices. */
  lemma CrcNotices(lead: Bytes, body: Bytes, i: nat, b: bv8)
    ensures i < |lead| && b != lead[i] ==> RecordCrc(lead[i := b], body) != RecordCrc(lead, body)
    ensures i < |body| && b != body[i] ==> RecordCrc(lead, body[i := b]) != RecordCrc(lead, body)
  {
    hide Crc;
    Chained(0, lead, body);
    UpdateConcat(lead, body, i, b);
    if i < |lead| && b != lead[i] {
      Chained(0, lead[i := b], body);
      ByteChanged(0, lead + body, i, b);
    }
    if i < |body| && b != body[i] {
      Chained(0, lead, body[i := b]);
      ByteChanged(0, lead + body, |lead| + i, b);
    }
  }

  /** A record of any length with one byte of its operation, CRC, key or value changed is
      never read as a record again. */
  lemma DamageDetected(data: Bytes, used: nat, offset: nat, i: nat, b: bv8)
    requires used <= |data| && RecordAt(data, used, offset, true).Ok?
    requires Damaged(data, offset, RecordAt(data, used, offset, true).value.end, i, b)
    ensures RecordAt(data[i := b], used, offset, true).Err?
  {
    hide Load, LoadCrc, RecordCrc, Damaged;
    var start, end := offset + RECORD_HEADER, RecordAt(data, used, offset, true).value.end;
    DamagedMeans(data, offset, end, i, b);
    var data2 := data[i := b];
    DamagedCrc(data, offset, end, i, b);
    assert RecordCrc(data2[offset..offset + 9], data2[start..end]) != LoadCrc(data2[offset + 9..start]);
  }

  lemma DamagedMeans(data: Bytes, offset: nat, end: nat, i: nat, b: bv8)
    requires Damaged(data, offset, end, i, b)
    ensures offset + RECORD_HEADER <= end <= |data| && i < |data|
    ensures data[i := b][offset + 1..offset + 5] == data[offset + 1..offset + 5]
    ensures data[i := b][offset + 5..offset + 9] == data[offset + 5..offset + 9]
  {
    UpdateSlice(data, offset + 1, offset + 5, i, b);
    UpdateSlice(data, offset + 5, offset + 9, i, b);
  }

  lemma DamagedCrc(data: Bytes, offset: nat, end: nat, i: nat, b: bv8)
    requires Damaged(data, offset, end, i, b)
    requires var start := offset + RECORD_HEADER;
      RecordCrc(data[offset..offset + 9], data[start..end]) == LoadCrc(data[offset + 9..start])
    ensures var start, data2 := offset + RECORD_HEADER, data[i := b];
      RecordCrc(data2[offset..offset + 9], data2[start..end]) != LoadCrc(data2[offset + 9..start])
  {
    hide LoadCrc, RecordCrc;
    var start, data2 := offset + RECORD_HEADER, data[i := b];
    var lead, field, body := data[offset..offset + 9], data[offset + 9..start], data[start..end];
    UpdateSlice(data, offset, offset + 9, i, b);
    UpdateSlice(data, offset + 9, start, i, b);
    UpdateSlice(data, start, end, i, b);
    if i == offset {
      assert lead[0] == data[i];
      CrcNotices(lead, body, 0, b);
      assert RecordCrc(data2[offset..offset + 9], data2[start..end]) == RecordCrc(lead[0 := b], body);
    } else if i < start {
      assert field[i - offset - 9] == data[i];
      FieldDiffers(field, i - offset - 9, b);
      assert LoadCrc(data2[offset + 9..start]) == LoadCrc(field[i - offset - 9 := b]);
    } else {
      assert body[i - start] == data[i];
      CrcNotices(lead, body, i - start, b);
      assert RecordCrc(data2[offset..offset + 9], data2[start..end]) == RecordCrc(lead, body[i - start := b]);
    }
  }

  // ------------------------------------------------------------------- replay

  datatype Entry = Entry(offset: nat, record: WalRecord)

  /** The records a replay hands out from an offset on: up to the first that cannot be read. */
  ghost function Entries(data: Bytes, used: nat, offset: nat): seq<Entry>
    requires used <= |data|
    decreases used - offset
  {
    if offset < used && RecordAt(data, used, offset, true).Ok? then
      var r := RecordAt(data, used, offset, true).value;
      [Entry(offset, r)] + Entries(data, used, r.end)
    else []
  }

  /** Where the replay stops. */
  ghost function LastGood(data: Bytes, used: nat, offset: nat): (end: nat)
    requires used <= |data|
    ensures end >= offset && (offset <= used ==> end <= used)
    decreases used - offset
  {
    if offset < used && RecordAt(data, used, offset, true).Ok? then
      LastGood(data, used, RecordAt(data, used, offset, true).value.end)
    else offset
  }

  /** All of the used part is records. */
  ghost predicate Complete(data: Bytes, used: nat) {
    HEADER <= used <= |data| && LastGood(data, used, HEADER) == used
  }

  /** The records before the place where a replay stops do not depend on what is behind. */
  lemma {:induction false} EntriesKeep(data: Bytes, used: nat, data2: Bytes, used2: nat, offset: nat)
    requires offset <= used <= |data| && used2 <= |data2|
    requires var end := LastGood(data, used, offset);
      end <= used2 && data2[offset..end] == data[offset..end]
    ensures var end := LastGood(data, used, offset);
      && Entries(data2, used2, offset) == Entries(data, used, offset) + Entries(data2, used2, end)
      && LastGood(data2, used2, offset) == LastGood(data2, used2, end)
    decreases used - offset
  {
    hide RecordAt;
    if offset < used && RecordAt(data, used, offset, true).Ok? {
      var r := RecordAt(data, used, offset, true).value;
      var end := LastGood(data, used, offset);
      SliceOfSlice(data, offset, end, 0, r.end - offset);
      SliceOfSlice(data2, offset, end, 0, r.end - offset);
      SliceOfSlice(data, offset, end, r.end - offset, end - offset);
      SliceOfSlice(data2, offset, end, r.end - offset, end - offset);
      RecordFrame(data, used, data2, used2, offset, true);
      EntriesKeep(data, used, data2, used2, r.end);
    }
  }

  /** Truncating at the last good record drops nothing that was replayed, and what is left
      is complete. */
  lemma TruncateKeeps(data: Bytes, used: nat, data2: Bytes)
    requires HEADER <= used <= |data| && |data2| == |data| && data2[HEADER..] == data[HEADER..]
    ensures var end := LastGood(data, used, HEADER);
      Entries(data2, end, HEADER) == Entries(data, used, HEADER) && Complete(data2, end)
  {
    hide RecordAt;
    var end := LastGood(data, used, HEADER);
    SliceOfSlice(data, HEADER, |data|, 0, end - HEADER);
    SliceOfSlice(data2, HEADER, |data|, 0, end - HEADER);
    EntriesKeep(data, used, data2, end, HEADER);
    assert Entries(data2, end, end) == [] && LastGood(data2, end, end) == end;
  }

  /** Bytes behind the used part do not matter. */
  lemma {:induction false} TailIgnored(data: Bytes, data2: Bytes, used: nat, offset: nat)
    requires HEADER <= offset && used <= |data| && used <= |data2|
    requires forall i :: HEADER <= i < used ==> data2[i] == data[i]
    ensures Entries(data2, used, offset) == Entries(data, used, offset)
    ensures LastGood(data2, used, offset) == LastGood(data, used, offset)
    decreases used - offset
  {
    RecordSame(data, data2, used, offset);
    hide RecordAt;
    if offset < used && RecordAt(data, used, offset, true).Ok? {
      TailIgnored(data, data2, used, RecordAt(data, used, offset, true).value.end);
    }
  }

  lemma RecordSame(data: Bytes, data2: Bytes, used: nat, offset: nat)
    requires HEADER <= offset && used <= |data| && used <= |data2|
    requires forall i :: HEADER <= i < used ==> data2[i] == data[i]
    ensures RecordAt(data2, used, offset, true) == RecordAt(data, used, offset, true)
  {
    hide Load, LoadCrc, RecordCrc;
    if offset + RECORD_HEADER <= used {
      assert data2[offset + 1..offset + 5] == data[offset + 1..offset + 5];
      assert data2[offset + 5..offset + 9] == data[offset + 5..offset + 9];
      assert data2[offset..offset + 9] == data[offset..offset + 9];
      assert data2[offset + 9..offset + 13] == data[offset + 9..offset + 13];
      var start := offset + RECORD_HEADER;
      var keyLen := Load(data[offset + 1..offset + 5]);
      var end := start + keyLen + Load(data[offset + 5..offset + 9]);
      if end <= used {
        assert data2[start..end] == data[start..end];
        assert data2[start..start + keyLen] == data[start..start + keyLen];
        assert data2[start + keyLen..end] == data[start + keyLen..end];
      }
    }
  }

  /** Every replayed record is read back at its offset, with or without its CRC. */
  lemma {:induction false} EntryReadable(data: Bytes, used: nat, offset: nat, e: Entry)
    requires HEADER <= offset && used <= |data| && e in Entries(data, used, offset)
    ensures offset <= e.offset && e.record.end <= used
    ensures RecordAt(data, used, e.offset, true) == Ok(e.record) == RecordAt(data, used, e.offset, false)
    decreases used - offset
  {
    if offset < used && RecordAt(data, used, offset, true).Ok? {
      var r := RecordAt(data, used, offset, true).value;
      if e != Entry(offset, r) {
        EntryReadable(data, used, r.end, e);
      }
    }
  }

  // ------------------------------------------------------------------- header

  /** kWalHeaderMagic */
  const MAGIC: Bytes := [0x4d, 0x57, 0x57, 0x41, 0x4c, 0x30, 0x31, 0]

  const VERSION: nat := 1

  /** LoadHeader: how much of the segment is in use. */
  function LoadHeader(data: Bytes): (r: Result<nat>)
    ensures r.Ok? ==> HEADER <= r.value <= |data|
    ensures r.Err? ==> r == Err(CorruptWal)
  {
    if |data| < HEADER || data[0..8] != MAGIC || Load(data[8..12]) != VERSION then Err(CorruptWal)
    else
      var used := Load(data[16..24]);
      if used < HEADER || used > |data| then Err(CorruptWal) else Ok(used)
  }

  /** A segment loads exactly when it starts with the magic, the version, four bytes that do not
      matter, and a used offset within it. */
  lemma HeaderExact(data: Bytes, used: nat)
    ensures LoadHeader(data) == Ok(used) <==>
      && HEADER <= used <= |data| && used < U64
      && exists p: Bytes :: |p| == 4 && data[0..24] == MAGIC + Store(VERSION, 4) + p + Store(used, 8)
  {
    hide Load, Store;
    WordRange();
    if LoadHeader(data) == Ok(used) {
      StoreLoad(data[8..12]);
      StoreLoad(data[16..24]);
      var p := data[12..16];
      assert data[0..24] == data[0..8] + data[8..12] + p + data[16..24];
    }
    if HEADER <= used <= |data| && used < U64
      && exists p: Bytes :: |p| == 4 && data[0..24] == MAGIC + Store(VERSION, 4) + p + Store(used, 8)
    {
      var p: Bytes :| |p| == 4 && data[0..24] == MAGIC + Store(VERSION, 4) + p + Store(used, 8);
      LoadStore(VERSION, 4);
      LoadStore(used, 8);
      FourParts(MAGIC, Store(VERSION, 4), p, Store(used, 8));
      SliceOfSlice(data, 0, 24, 0, 8);
      SliceOfSlice(data, 0, 24, 8, 12);
      SliceOfSlice(data, 0, 24, 16, 24);
    }
  }

  /** WriteUsed */
  function SetUsed(data: Bytes, used: nat): (r: Bytes)
    requires |data| >= HEADER
    ensures |r| == |data| && r[HEADER..] == data[HEADER..]
  {
    Exchange(data, 16, 24, Store(used, 8))
  }

  lemma UsedWritten(data: Bytes, used: nat)
    requires |data| >= HEADER && data[0..8] == MAGIC && Load(data[8..12]) == VERSION
    requires HEADER <= used <= |data| && used < U64
    ensures LoadHeader(SetUsed(data, used)) == Ok(used)
    ensures SetUsed(data, used)[0..8] == MAGIC && Load(SetUsed(data, used)[8..12]) == VERSION
  {
    hide Load, Store;
    WordRange();
    LoadStore(used, 8);
    var r := SetUsed(data, used);
    assert r[0..8] == data[0..8] && r[8..12] == data[8..12] && r[16..24] == Store(used, 8);
  }

  ghost predicate ZeroBytes(data: Bytes, n: nat) {
    n <= |data| && forall i :: 0 <= i < n ==> data[i] == 0
  }

  /** InitHeader: over a page of zeros. */
  function InitHeader(data: Bytes): (r: Bytes)
    requires |data| >= HEADER
    ensures |r| == |data|
  {
    SetUsed(MAGIC + Store(VERSION, 4) + data[12..], HEADER)
  }

  lemma HeaderInitialised(data: Bytes)
    requires |data| >= HEADER && |data| < U64
    ensures LoadHeader(InitHeader(data)) == Ok(HEADER)
    ensures InitHeader(data)[0..8] == MAGIC && Load(InitHeader(data)[8..12]) == VERSION
    ensures Complete(InitHeader(data), HEADER) && Entries(InitHeader(data), HEADER, HEADER) == []
  {
    hide Load, Store, RecordAt;
    var d := MAGIC + Store(VERSION, 4) + data[12..];
    WordRange();
    LoadStore(VERSION, 4);
    assert d[0..8] == MAGIC && d[8..12] == Store(VERSION, 4);
    UsedWritten(d, HEADER);
  }

  /** The bytes of a segment file once it is open: a zero header is initialised. */
  ghost function Opened(data: Bytes): (r: Bytes)
    requires |data| >= HEADER
    ensures |r| == |data|
  {
    if ZeroBytes(data, HEADER) then InitHeader(data) else data
  }

  // ------------------------------------------------------------------- append

  /** The segment with a record appended. */
  function Appended(data: Bytes, used: nat, record: Bytes): (r: Bytes)
    requires HEADER <= used && used + |record| <= |data|
    ensures |r| == |data|
  {
    SetUsed(Exchange(data, used, used + |record|, record), used + |record|)
  }

  /** Appending adds exactly the one record, at the old end, and keeps all others. */
  lemma AppendAdds(data: Bytes, used: nat, op: bv8, key: Key, value: Bytes)
    requires Complete(data, used) && used + |Encoded(op, key, value)| <= |data|
    requires op == OP_PUT || (op == OP_DELETE && value == [])
    requires |key| <= MAX_KEY_SIZE && |value| < U32
    ensures var record := Encoded(op, key, value);
      var end := used + |record|;
      var data2 := Appended(data, used, record);
      && Complete(data2, end)
      && Entries(data2, end, HEADER)
        == Entries(data, used, HEADER) + [Entry(used, WalRecord(op, key, value, end))]
  {
    hide *;
    var record := Encoded(op, key, value);
    var end := used + |record|;
    CompleteMeans(data, used);
    var data2 := Appended(data, used, record);
    AppendedSlices(data, used, record);
    EntriesKeep(data, used, data2, end, HEADER);
    EncodedLength(op, key, value);
    ReadBack(data2, end, used, op, key, value, true);
    LastOne(data2, end, used);
    IsComplete(data2, end);
  }

  lemma CompleteMeans(data: Bytes, used: nat)
    requires Complete(data, used)
    ensures HEADER <= used <= |data| && LastGood(data, used, HEADER) == used
  {
  }

  lemma IsComplete(data: Bytes, used: nat)
    requires HEADER <= used <= |data| && LastGood(data, used, HEADER) == used
    ensures Complete(data, used)
  {
  }

  lemma EncodedLength(op: bv8, key: Key, value: Bytes)
    ensures |Encoded(op, key, value)| == RECORD_HEADER + |key| + |value| > 0
  {
  }

  /** What was in use stays, and the record is behind it. */
  lemma AppendedSlices(data: Bytes, used: nat, record: Bytes)
    requires HEADER <= used && used + |record| <= |data|
    ensures var end, data2 := used + |record|, Appended(data, used, record);
      data2[HEADER..used] == data[HEADER..used] && data2[used..end] == record
  {
    hide Store;
    var end := used + |record|;
    var data1, data2 := Exchange(data, used, end, record), Appended(data, used, record);
    assert data2[HEADER..] == data1[HEADER..];
    assert data1[HEADER..used] == data[HEADER..used] && data1[used..end] == record;
    SliceOfSlice(data1, HEADER, |data|, 0, used - HEADER);
    SliceOfSlice(data2, HEADER, |data|, 0, used - HEADER);
    SliceOfSlice(data1, HEADER, |data|, used - HEADER, end - HEADER);
    SliceOfSlice(data2, HEADER, |data|, used - HEADER, end - HEADER);
  }

  lemma LastOne(data: Bytes, used: nat, offset: nat)
    requires used <= |data| && offset < used && RecordAt(data, used, offset, true).Ok?
    requires RecordAt(data, used, offset, true).value.end == used
    ensures Entries(data, used, offset) == [Entry(offset, RecordAt(data, used, offset, true).value)]
    ensures LastGood(data, used, offset) == used
  {
    hide RecordAt;
    assert Entries(data, used, used) == [] && LastGood(data, used, used) == used;
  }
}
