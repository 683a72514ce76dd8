/** What the header of a WAL segment shows when a crash splits one of its writes. Elsewhere the
    store of the used offset, and the initialisation of a header, are single steps; here they
    are taken byte by byte, in the order the bytes are written. */
module TornHeaders {
  import opened Wrappers
  import opened Keys
  import opened Codec
  import opened WalFormat
  import opened WalLog
  import opened WalFiles
  import opened Sequences

  // ------------------------------------------------------------------ numbers

  lemma {:induction false} LoadConcat(a: Bytes, b: Bytes)
    ensures Load(a + b) == Load(a) + Pow256(|a|) * Load(b)
    decreases |a|
  {
    hide Value;
    if a == [] {
      assert a + b == b;
    } else {
      LoadConcat(a[1..], b);
      assert (a + b)[1..] == a[1..] + b;
      Scale(Pow256(|a| - 1), Load(b));
    }
  }

  lemma Scale(p: nat, x: nat)
    ensures 256 * (p * x) == (256 * p) * x
  {
  }

  lemma {:induction false} StoreFront(x: nat, n: nat, k: nat)
    requires k <= n
    ensures Store(x, n)[..k] == Store(x, k)
  {
    hide Byte;
    if k > 0 {
      StoreFront(x / 256, n - 1, k - 1);
      assert Store(x, n)[..k] == [Byte(x % 256)] + Store(x / 256, n - 1)[..k - 1];
    }
  }

  /** The number the k lowest bytes of x make up. */
  function LowBytes(x: nat, k: nat): nat {
    Load(Store(x, k))
  }

  lemma LowByte(x: nat)
    ensures LowBytes(x, 1) == x % 256
  {
    hide Byte, Value;
    ValueOfByte(x % 256);
    var s := Store(x, 1);
    assert s == [Byte(x % 256)] + Store(x / 256, 0) == [Byte(x % 256)];
    assert s[1..] == [] && Load(s) == Value(s[0]) + 256 * Load(s[1..]);
  }

  /** The used word when its first k bytes are those of the new value already. */
  function MixedWord(before: nat, after: nat, k: nat): (s: Bytes)
    requires k <= 8
    ensures |s| == 8
  {
    Store(after, 8)[..k] + Store(before, 8)[k..]
  }

  /** The number in between never exceeds the new one, and falls below the old one exactly when
      its low bytes do, that is when the addition carries out of byte k - 1. */
  lemma MixedOrder(before: nat, after: nat, k: nat)
    requires before <= after < U64 && k <= 8
    ensures Load(MixedWord(before, after, k)) <= after
    ensures Load(MixedWord(before, after, k)) >= before <==> LowBytes(after, k) >= LowBytes(before, k)
  {
    hide Store, Load;
    WordRange();
    LoadStore(before, 8);
    LoadStore(after, 8);
    StoreFront(before, 8, k);
    StoreFront(after, 8, k);
    StoreLoad(Store(before, k));
    StoreLoad(Store(after, k));
    var hb, ha := Store(before, 8)[k..], Store(after, 8)[k..];
    assert Store(before, 8) == Store(before, k) + hb && Store(after, 8) == Store(after, k) + ha;
    LoadConcat(Store(before, k), hb);
    LoadConcat(Store(after, k), ha);
    LoadConcat(Store(after, k), hb);
    HighOrder(LowBytes(before, k), LowBytes(after, k), Pow256(k), Load(hb), Load(ha));
  }

  lemma HighOrder(lb: nat, la: nat, p: nat, hb: nat, ha: nat)
    requires lb < p && la < p && lb + p * hb <= la + p * ha
    ensures p * hb <= p * ha
  {
    Multiples(p, ha, hb);
    Multiples(p, hb, ha);
  }

  lemma {:induction false} Multiples(p: nat, a: nat, b: nat)
    ensures a < b ==> p * a + p <= p * b
    decreases b
  {
    if a < b {
      Distribute(p, b - 1);
      Multiples(p, a, b - 1);
    }
  }

  lemma Distribute(p: nat, x: nat)
    ensures p * (x + 1) == p * x + p
  {
  }

  // --------------------------------------------------------- the used offset

  /** The segment while the used word is written behind a new record: k bytes of it are new. */
  ghost function MixedImage(s: Segment, op: bv8, key: Key, value: Bytes, k: nat): (d: Bytes)
    requires HasRoom(s, key, value) && k <= 8
    ensures |d| == |s.data|
  {
    var end := s.used + |Encoded(op, key, value)|;
    Exchange(Exchange(s.data, s.used, end, Encoded(op, key, value)), 16, 24, MixedWord(s.used, end, k))
  }

  lemma MixedIsSet(s: Segment, op: bv8, key: Key, value: Bytes, k: nat)
    requires Loaded(s) && HasRoom(s, key, value) && k <= 8
    ensures var end := s.used + |Encoded(op, key, value)|;
      var d := Exchange(s.data, s.used, end, Encoded(op, key, value));
      && |d| >= HEADER && d[0..8] == MAGIC && Load(d[8..12]) == VERSION && end < U64
      && MixedImage(s, op, key, value, k) == SetUsed(d, Load(MixedWord(s.used, end, k)))
      && SetUsed(d, end) == Grown(s, op, key, value).data
  {
    hide Load, Store, LoadHeader, Encoded;
    LoadedMeans(s);
    var end := s.used + |Encoded(op, key, value)|;
    var d := Exchange(s.data, s.used, end, Encoded(op, key, value));
    assert d[0..8] == s.data[0..8] && d[8..12] == s.data[8..12];
    StoreLoad(MixedWord(s.used, end, k));
  }

  /** A header whose used word was set to any number. */
  lemma UsedLoads(d: Bytes, u: nat)
    requires |d| >= HEADER && d[0..8] == MAGIC && Load(d[8..12]) == VERSION && u < U64
    ensures LoadHeader(SetUsed(d, u)) == if HEADER <= u <= |d| then Ok(u) else Err(CorruptWal)
  {
    hide Load, Store;
    WordRange();
    LoadStore(u, 8);
    var r := SetUsed(d, u);
    assert r[0..8] == d[0..8] && r[8..12] == d[8..12] && r[16..24] == Store(u, 8);
  }

  /** A record that reaches past the used offset is not read. */
  lemma CutShort(data: Bytes, used: nat, data2: Bytes, used2: nat, offset: nat)
    requires used <= |data| && used2 <= |data2| && RecordAt(data, used, offset, true).Ok?
    requires used2 < RecordAt(data, used, offset, true).value.end <= |data2|
    requires HEADER <= offset && |data| >= HEADER && |data2| >= HEADER && data2[HEADER..] == data[HEADER..]
    ensures RecordAt(data2, used2, offset, true).Err?
  {
    hide Load, LoadCrc, RecordCrc;
    if offset + RECORD_HEADER <= used2 {
      SameBehind(data, data2, offset + 1, offset + 5);
      SameBehind(data, data2, offset + 5, offset + 9);
    }
  }

  lemma SameBehind(data: Bytes, data2: Bytes, i: nat, j: nat)
    requires HEADER <= i <= j <= |data| == |data2| && data2[HEADER..] == data[HEADER..]
    ensures data2[i..j] == data[i..j]
  {
    SliceOfSlice(data, HEADER, |data|, i - HEADER, j - HEADER);
    SliceOfSlice(data2, HEADER, |data|, i - HEADER, j - HEADER);
  }

  /** The last record of a complete segment ends at its used offset. */
  lemma {:induction false} LastEnds(data: Bytes, used: nat, offset: nat)
    requires offset < used <= |data| && LastGood(data, used, offset) == used
    ensures exists e :: e in Entries(data, used, offset) && e.record.end == used
    decreases used - offset
  {
    hide RecordAt;
    var r := RecordAt(data, used, offset, true).value;
    if r.end < used {
      LastEnds(data, used, r.end);
      var e :| e in Entries(data, used, r.end) && e.record.end == used;
      assert e in Entries(data, used, offset);
    } else {
      assert Entry(offset, r) in Entries(data, used, offset);
    }
  }

  /** What a point-in-time replay reads while the used word is written: the records from before,
      or those and the new one. */
  ghost predicate BeforeOrAfter(s: Segment, op: bv8, key: Key, value: Bytes, d: Bytes)
    requires HasRoom(s, key, value) && s.used <= |s.data|
  {
    && LoadHeader(d).Ok?
    && var es := Entries(d, LoadHeader(d).value, HEADER);
       || es == Entries(s.data, s.used, HEADER)
       || (Grown(s, op, key, value).used <= |Grown(s, op, key, value).data|
           && es == Entries(Grown(s, op, key, value).data, Grown(s, op, key, value).used, HEADER))
  }

  lemma GrownEntries(s: Segment, op: bv8, key: Key, value: Bytes)
    requires Full(s) && HasRoom(s, key, value) && Writable(op, key, value)
    ensures var g := Grown(s, op, key, value);
      && g.used == s.used + |Encoded(op, key, value)| && g.used <= |g.data| == |s.data| && HEADER <= s.used <= |s.data|
      && Entries(g.data, g.used, HEADER) == Entries(s.data, s.used, HEADER)
           + [Entry(s.used, WalRecord(op, key, value, g.used))]
      && RecordAt(g.data, g.used, s.used, true) == Ok(WalRecord(op, key, value, g.used))
  {
    hide Encoded, Load, LoadHeader, RecordAt, Appended;
    LoadedMeans(s);
    AppendAdds(s.data, s.used, op, key, value);
    var g := Grown(s, op, key, value);
    EncodedLength(op, key, value);
    EntryReadable(g.data, g.used, HEADER, Entry(s.used, WalRecord(op, key, value, g.used)));
  }

  /** Not below the old offset: the records from before, perhaps the new one too. */
  lemma MixedAbove(s: Segment, op: bv8, key: Key, value: Bytes, u: nat, d: Bytes)
    requires Full(s) && HasRoom(s, key, value) && Writable(op, key, value)
    requires |d| == |s.data| && LoadHeader(d) == Ok(u) && s.used <= u <= Grown(s, op, key, value).used
    requires d[HEADER..] == Grown(s, op, key, value).data[HEADER..]
    ensures BeforeOrAfter(s, op, key, value, d)
  {
    hide Encoded, Load, LoadHeader, RecordAt;
    LoadedMeans(s);
    GrownEntries(s, op, key, value);
    var g := Grown(s, op, key, value);
    GrownFront(s, op, key, value);
    hide Grown;
    SameUpTo(g.data, d, s.used);
    EntriesKeep(s.data, s.used, d, u, HEADER);
    if u == g.used {
      BehindSame(g.data, d);
      TailIgnored(g.data, d, u, HEADER);
    } else {
      CutShort(g.data, g.used, d, u, s.used);
      assert Entries(d, u, s.used) == [];
    }
  }

  lemma BehindSame(a: Bytes, b: Bytes)
    requires |a| == |b| >= HEADER && a[HEADER..] == b[HEADER..]
    ensures forall i :: HEADER <= i < |a| ==> b[i] == a[i]
  {
    forall i | HEADER <= i < |a| ensures b[i] == a[i] {
      assert b[i] == b[HEADER..][i - HEADER] && a[i] == a[HEADER..][i - HEADER];
    }
  }

  lemma SameUpTo(a: Bytes, b: Bytes, u: nat)
    requires |a| == |b| && HEADER <= u <= |a| && a[HEADER..] == b[HEADER..]
    ensures b[HEADER..u] == a[HEADER..u]
  {
    BehindSame(a, b);
  }

  lemma GrownFront(s: Segment, op: bv8, key: Key, value: Bytes)
    requires Loaded(s) && HasRoom(s, key, value)
    ensures var g := Grown(s, op, key, value);
      |g.data| == |s.data| && HEADER <= s.used <= |s.data| && g.data[HEADER..s.used] == s.data[HEADER..s.used]
  {
    hide Encoded, Load, LoadHeader, SetUsed;
    LoadedMeans(s);
    var end := s.used + |Encoded(op, key, value)|;
    var d := Exchange(s.data, s.used, end, Encoded(op, key, value));
    SetUsedTail(d, end);
    SameBehind(SetUsed(d, end), d, HEADER, s.used);
  }

  /** Below the old offset: a record from before is lost. */
  lemma MixedBelow(s: Segment, op: bv8, key: Key, value: Bytes, u: nat, d: Bytes)
    requires Full(s) && HasRoom(s, key, value) && Writable(op, key, value)
    requires LoadHeader(d) == Ok(u) && u < s.used
    ensures !BeforeOrAfter(s, op, key, value, d)
  {
    hide Encoded, Load, LoadHeader, RecordAt, Grown;
    LoadedMeans(s);
    GrownEntries(s, op, key, value);
    LoadedRange(d);
    LastEnds(s.data, s.used, HEADER);
    var e :| e in Entries(s.data, s.used, HEADER) && e.record.end == s.used;
    if e in Entries(d, u, HEADER) {
      EntryReadable(d, u, HEADER, e);
    }
  }

  lemma LoadedRange(d: Bytes)
    requires LoadHeader(d).Ok?
    ensures HEADER <= LoadHeader(d).value <= |d|
  {
  }

  /** A crash that splits the store of the used offset after k bytes: what a point-in-time
      replay reads is the log from before or from after exactly when the k low bytes of the
      offset did not get smaller. */
  lemma MixedOffset(s: Segment, op: bv8, key: Key, value: Bytes, k: nat)
    requires Full(s) && HasRoom(s, key, value) && Writable(op, key, value) && k <= 8
    ensures HEADER <= s.used <= |s.data|
    ensures BeforeOrAfter(s, op, key, value, MixedImage(s, op, key, value, k)) <==>
      LowBytes(Grown(s, op, key, value).used, k) >= LowBytes(s.used, k)
  {
    hide Encoded, Load, LoadHeader, MixedWord, LowBytes, SetUsed, BeforeOrAfter;
    LoadedMeans(s);
    EncodedLength(op, key, value);
    var end := s.used + |Encoded(op, key, value)|;
    var u := Load(MixedWord(s.used, end, k));
    var d := Exchange(s.data, s.used, end, Encoded(op, key, value));
    var d2 := MixedImage(s, op, key, value, k);
    MixedIsSet(s, op, key, value, k);
    MixedOrder(s.used, end, k);
    UsedLoads(d, u);
    if u >= s.used {
      SetUsedTail(d, u);
      SetUsedTail(d, end);
      MixedAbove(s, op, key, value, u, d2);
    } else if u >= HEADER {
      MixedBelow(s, op, key, value, u, d2);
    } else {
      NotLoaded(s, op, key, value, d2);
    }
  }

  /** An addition that carries: from 0x10ff to 0x110d the low byte gets smaller. */
  lemma CarryExample()
    ensures LowBytes(0x110d, 1) < LowBytes(0x10ff, 1)
  {
    hide *;
    LowByte(0x110d);
    LowByte(0x10ff);
  }

  /** A segment with one put that ends at 0x10ff, and a second put that ends at 0x110d: a crash
      after the first byte of the used offset leaves neither log. */
  lemma CarryLosesRecords(walSize: nat, key: Key, small: Key)
    requires |key| == 242 && |small| == 1 && 0x110d <= walSize <= OFFSET_LIMIT
    ensures var s := Grown(NewSegment(ZeroFile(walSize)), OP_PUT, key, []);
      && Full(s) && s.used == 0x10ff && HasRoom(s, small, []) && s.used <= |s.data|
      && Grown(s, OP_PUT, small, []).used == 0x110d
      && !BeforeOrAfter(s, OP_PUT, small, [], MixedImage(s, OP_PUT, small, [], 1))
  {
    hide Full, SegmentLog, InitHeader, ZeroFile, BeforeOrAfter, MixedImage, Appended, LowBytes;
    NewIsFull(1, ZeroFile(walSize));
    SegmentGrows(1, NewSegment(ZeroFile(walSize)), OP_PUT, key, []);
    var s := Grown(NewSegment(ZeroFile(walSize)), OP_PUT, key, []);
    EncodedLength(OP_PUT, small, []);
    MixedOffset(s, OP_PUT, small, [], 1);
    CarryExample();
  }

  /** The strict policy is stricter: with an offset in between, the records end before it, and
      only the old and the new offset are accepted. */
  lemma MixedOffsetStrict(s: Segment, op: bv8, key: Key, value: Bytes, k: nat)
    requires Full(s) && HasRoom(s, key, value) && Writable(op, key, value) && k <= 8
    requires LowBytes(Grown(s, op, key, value).used, k) >= LowBytes(s.used, k)
    ensures var d, u := MixedImage(s, op, key, value, k), Load(MixedWord(s.used, Grown(s, op, key, value).used, k));
      LoadHeader(d) == Ok(u) && (Complete(d, u) <==> u == s.used || u == Grown(s, op, key, value).used)
  {
    hide Encoded, Load, LoadHeader, MixedWord, LowBytes, SetUsed, RecordAt;
    LoadedMeans(s);
    EncodedLength(op, key, value);
    GrownEntries(s, op, key, value);
    var end := s.used + |Encoded(op, key, value)|;
    var u := Load(MixedWord(s.used, end, k));
    var d := Exchange(s.data, s.used, end, Encoded(op, key, value));
    MixedIsSet(s, op, key, value, k);
    MixedOrder(s.used, end, k);
    UsedLoads(d, u);
    SetUsedTail(d, u);
    SetUsedTail(d, end);
    MixedEnds(s, op, key, value, u, MixedImage(s, op, key, value, k));
  }

  lemma MixedEnds(s: Segment, op: bv8, key: Key, value: Bytes, u: nat, d: Bytes)
    requires Full(s) && HasRoom(s, key, value) && Writable(op, key, value)
    requires |d| == |s.data| && s.used <= u <= Grown(s, op, key, value).used
    requires d[HEADER..] == Grown(s, op, key, value).data[HEADER..]
    ensures u <= |d| && (Complete(d, u) <==> u == s.used || u == Grown(s, op, key, value).used)
  {
    hide Encoded, Load, LoadHeader, RecordAt;
    LoadedMeans(s);
    GrownEntries(s, op, key, value);
    SegmentGrows(1, s, op, key, value);
    var g := Grown(s, op, key, value);
    GrownFront(s, op, key, value);
    FullEnds(g);
    hide Grown;
    SliceOfSlice(d, HEADER, |d|, 0, s.used - HEADER);
    SliceOfSlice(g.data, HEADER, |d|, 0, s.used - HEADER);
    assert d[HEADER..s.used] == s.data[HEADER..s.used];
    EntriesKeep(s.data, s.used, d, u, HEADER);
    if u == g.used {
      BehindSame(g.data, d);
      TailIgnored(g.data, d, u, HEADER);
    } else if u > s.used {
      CutShort(g.data, g.used, d, u, s.used);
      assert LastGood(d, u, s.used) == s.used;
    }
  }

  lemma FullEnds(s: Segment)
    requires Full(s)
    ensures LastGood(s.data, s.used, HEADER) == s.used
  {
  }

  lemma NotLoaded(s: Segment, op: bv8, key: Key, value: Bytes, d: Bytes)
    requires HasRoom(s, key, value) && s.used <= |s.data| && LoadHeader(d).Err?
    ensures !BeforeOrAfter(s, op, key, value, d)
  {
  }

  // ------------------------------------------------------ initialising a header

  /** A new segment of which the first j bytes of the header are written. */
  ghost function HalfHeader(walSize: nat, j: nat): (d: Bytes)
    requires HEADER <= walSize && j <= 24
    ensures |d| == walSize
  {
    InitHeader(ZeroFile(walSize))[..j] + ZeroFile(walSize)[j..]
  }

  lemma {:induction false} LoadZeros(s: Bytes)
    requires forall i :: 0 <= i < |s| ==> s[i] == 0
    ensures Load(s) == 0
  {
    if s != [] {
      LoadZeros(s[1..]);
    }
  }

  /** The used word of a new header. */
  lemma HeaderWord()
    ensures forall i :: 0 <= i < 8 && i != 1 ==> Store(HEADER, 8)[i] == 0
  {
    hide Byte;
    assert Byte(0) == 0 by {
      ZeroByte();
    }
    assert Store(0, 2) == [Byte(0), Byte(0)] && Store(0, 4) == [Byte(0), Byte(0)] + Store(0, 2);
    assert Store(0, 6) == [Byte(0), Byte(0)] + Store(0, 4);
    assert Store(16, 7) == [Byte(16)] + Store(0, 6);
    assert Store(HEADER, 8) == [Byte(0)] + Store(16, 7);
  }

  lemma ZeroByte()
    ensures Byte(0) == 0
  {
  }

  /** The bytes of a new header. */
  lemma HeaderLayout(z: Bytes)
    requires |z| >= HEADER && forall i :: 0 <= i < |z| ==> z[i] == 0
    ensures var h := InitHeader(z);
      && h[0] == 0x4d && (forall i :: 12 <= i < 17 ==> h[i] == 0) && (forall i :: 18 <= i < |z| ==> h[i] == 0)
  {
    hide Store;
    var w := Store(HEADER, 8);
    HeaderWord();
    var d := MAGIC + Store(VERSION, 4) + z[12..];
    assert d[..16] == MAGIC + Store(VERSION, 4) + z[12..16] && d[24..] == z[24..];
    var h := InitHeader(z);
    assert h == d[..16] + w + d[24..];
    forall i | 12 <= i < 16 ensures h[i] == 0 {
      assert h[i] == d[..16][i] == z[12..16][i - 12];
    }
    assert h[16..24] == w;
    forall i | 16 <= i < 24 && i != 17 ensures h[i] == 0 {
      var k := i - 16;
      assert w[k] == 0 && h[i] == h[16..24][k];
    }
    forall i | 24 <= i < |z| ensures h[i] == 0 {
      assert h[i] == z[24..][i - 24] == z[i];
    }
  }

  /** A crash while a new header is written: the file opens again exactly when none of its
      bytes was written yet or the last one that is not zero was. */
  lemma HalfHeaderOpens(walSize: nat, j: nat)
    requires HEADER + RECORD_HEADER <= walSize <= OFFSET_LIMIT && j <= 24
    ensures OpenFile(walSize, HalfHeader(walSize, j)).Some? <==> j == 0 || j >= 18
  {
    hide Store, Load, InitHeader, ZeroFile;
    HeaderLayout(ZeroFile(walSize));
    var h, z, d := InitHeader(ZeroFile(walSize)), ZeroFile(walSize), HalfHeader(walSize, j);
    if j == 0 {
      assert d == z && ZeroBytes(d, HEADER);
    } else if j >= 18 {
      assert d == h;
      HeaderInitialised(z);
    } else {
      assert d[0] == 0x4d;
      if j <= 8 {
        LoadZeros(d[8..12]);
      } else {
        LoadZeros(d[16..24]);
      }
    }
  }
}
