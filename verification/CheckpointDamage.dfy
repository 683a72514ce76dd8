/** Which bytes are a manifest or a snapshot, and that damaged ones are not: what ReadManifest and
    ReadSnapshot of store.cc accept, said without them. */
module CheckpointDamage {
  import opened Wrappers
  import opened Keys
  import opened Codec
  import opened Crc32
  import opened CheckpointFiles
  import opened Disks
  import opened Sequences

  // ------------------------------------------------------------------ manifest

  /** The first 28 bytes of a manifest; p and q are the bytes that are not used. */
  ghost function Head(generation: nat, p: Bytes, q: Bytes): (h: Bytes)
    requires |p| == 4 && |q| == 4
    ensures |h| == 28
  {
    MANIFEST_MAGIC + Store(FILE_VERSION, 4) + p + Store(generation, 8) + q
  }

  /** data starts with a manifest of this generation: magic, version, generation, and the CRC of
      these and the four zeros in its place. */
  ghost predicate IsManifest(data: Bytes, generation: nat, p: Bytes, q: Bytes) {
    && |p| == 4 && |q| == 4 && 0 < generation < U64 && |data| >= 32
    && data[0..28] == Head(generation, p, q) && data[28..32] == CrcBytes(Crc(0, Head(generation, p, q) + Zeros(4)))
  }

  /** What is read as a manifest is one, and nothing else is. */
  lemma ManifestExact(data: Bytes, generation: nat)
    ensures DecodeManifest(data) == Ok(generation) <==> exists p, q :: IsManifest(data, generation, p, q)
  {
    hide Store, Load, CrcBytes, LoadCrc, Zeros, Crc;
    WordRange();
    if exists p, q :: IsManifest(data, generation, p, q) {
      var p, q :| IsManifest(data, generation, p, q);
      ManifestReads(data, generation, p, q);
    }
    if DecodeManifest(data) == Ok(generation) {
      FiveParts(data);
      StoreLoad(data[8..12]);
      StoreLoad(data[16..24]);
      CrcRoundTrip(0, data[28..32]);
      assert IsManifest(data, generation, data[12..16], data[24..28]);
    }
  }

  lemma FiveParts(data: Bytes)
    requires |data| >= 32
    ensures data[0..28] == data[0..8] + data[8..12] + data[12..16] + data[16..24] + data[24..28]
  {
  }

  lemma ManifestReads(data: Bytes, generation: nat, p: Bytes, q: Bytes)
    requires IsManifest(data, generation, p, q)
    ensures DecodeManifest(data) == Ok(generation)
  {
    hide Store, Load, CrcBytes, LoadCrc, Zeros, Crc;
    WordRange();
    LoadStore(FILE_VERSION, 4);
    LoadStore(generation, 8);
    HeadTail(MANIFEST_MAGIC, Store(FILE_VERSION, 4), p, Store(generation, 8), q);
    CrcRoundTrip(Crc(0, Head(generation, p, q) + Zeros(4)), data[28..32]);
    SliceOfSlice(data, 0, 28, 0, 8);
    SliceOfSlice(data, 0, 28, 8, 12);
    SliceOfSlice(data, 0, 28, 16, 24);
  }

  /** A manifest with any one of its 32 bytes changed is not read. */
  lemma ManifestDamage(data: Bytes, i: nat, b: bv8)
    requires DecodeManifest(data).Ok? && i < 32 && b != data[i]
    ensures DecodeManifest(data[i := b]) == Err(CorruptManifest)
  {
    hide Load, LoadCrc, Zeros, Crc;
    var data2 := data[i := b];
    UpdateSlice(data, 0, 28, i, b);
    UpdateSlice(data, 28, 32, i, b);
    var covered, field := data[0..28], data[28..32];
    if i < 28 {
      assert covered[i] == data[i];
      UpdateConcat(covered, Zeros(4), i, b);
      ByteChanged(0, covered + Zeros(4), i, b);
      assert data2[0..28] == covered[i := b] && data2[28..32] == field;
    } else {
      assert field[i - 28] == data[i];
      FieldDiffers(field, i - 28, b);
      assert data2[0..28] == covered && data2[28..32] == field[i - 28 := b];
    }
    assert Crc(0, data2[0..28] + Zeros(4)) != LoadCrc(data2[28..32]);
  }

  // ------------------------------------------------------------------ snapshot

  /** The CRC of an item is that of its lengths, its key and its value in one piece. */
  lemma ItemCrcIs(head: Bytes, key: Key, value: Bytes)
    ensures ItemCrc(head, key, value) == Crc(0, head + key + value)
  {
    hide Crc;
    Chained(0, head, key);
    Chained(0, head + key, value);
  }

  /** How an item is laid out: key length, value length, CRC over all but itself, key, value. */
  lemma ItemLayout(item: Item)
    ensures var e, n := EncodeItem(item), |item.key|;
      && e[0..4] == Store(n, 4) && e[4..8] == Store(|item.value|, 4)
      && e[8..12] == CrcBytes(Crc(0, e[0..8] + item.key + item.value))
      && e[12..12 + n] == item.key && e[12 + n..] == item.value
  {
    hide Store, CrcBytes, Crc, ItemCrc;
    var head, e := ItemHead(item), EncodeItem(item);
    ItemCrcIs(head, item.key, item.value);
    FourParts(head, CrcBytes(ItemCrc(head, item.key, item.value)), item.key, item.value);
    CutConcat(Store(|item.key|, 4), Store(|item.value|, 4));
    assert e[0..4] == e[0..8][0..4] && e[4..8] == e[0..8][4..8];
  }

  ghost predicate Small(item: Item) {
    |item.key| <= MAX_KEY_SIZE && |item.value| < U32
  }

  lemma ItemExact(data: Bytes, item: Item)
    ensures DecodeItem(data) == Ok(item) <==> Small(item) && exists rest :: data == EncodeItem(item) + rest
  {
    hide Store, Load, CrcBytes, LoadCrc, Crc, ItemCrc;
    WordRange();
    if DecodeItem(data) == Ok(item) {
      var n, m := |item.key|, |item.value|;
      StoreLoad(data[0..4]);
      StoreLoad(data[4..8]);
      CrcRoundTrip(0, data[8..12]);
      assert data[0..8] == data[0..4] + data[4..8] == ItemHead(item);
      assert data == data[0..8] + data[8..12] + data[12..12 + n] + data[12 + n..12 + n + m] + data[12 + n + m..];
      assert data == EncodeItem(item) + data[12 + n + m..];
    }
    if Small(item) && exists rest :: data == EncodeItem(item) + rest {
      var rest :| data == EncodeItem(item) + rest;
      ItemRoundTrip(item, rest);
    }
  }

  lemma ItemsExact(data: Bytes, items: seq<Item>)
    ensures DecodeItems(data, |items|) == Ok(items) <==>
      Storable(items) && exists rest :: data == EncodeItems(items) + rest
  {
    hide EncodeItems, DecodeItems, Storable;
    if DecodeItems(data, |items|) == Ok(items) {
      var rest := ItemsAre(data, items);
    }
    if Storable(items) && exists rest :: data == EncodeItems(items) + rest {
      var rest :| data == EncodeItems(items) + rest;
      ItemsRead(items, rest);
    }
  }

  lemma {:induction false} ItemsAre(data: Bytes, items: seq<Item>) returns (rest: Bytes)
    requires DecodeItems(data, |items|) == Ok(items)
    ensures Storable(items) && data == EncodeItems(items) + rest
    decreases |items|
  {
    hide EncodeItem, DecodeItem;
    if items == [] {
      rest := data;
      assert data == EncodeItems([]) + data;
    } else {
      var first, others := items[0], items[1..];
      DecodedStep(data, items);
      ItemExact(data, first);
      var tail :| data == EncodeItem(first) + tail;
      assert data[|EncodeItem(first)|..] == tail;
      rest := ItemsAre(tail, others);
      StorableStep(items);
      ConcatThree(EncodeItem(first), EncodeItems(others), rest);
    }
  }

  lemma DecodedStep(data: Bytes, items: seq<Item>)
    requires items != [] && DecodeItems(data, |items|) == Ok(items)
    ensures DecodeItem(data) == Ok(items[0]) && |EncodeItem(items[0])| <= |data|
    ensures DecodeItems(data[|EncodeItem(items[0])|..], |items[1..]|) == Ok(items[1..])
  {
    hide EncodeItem, DecodeItem;
    var rest := DecodeItems(data[12 + |DecodeItem(data).value.key| + |DecodeItem(data).value.value|..], |items| - 1);
    assert items == [DecodeItem(data).value] + rest.value;
    assert items[1..] == rest.value;
  }

  lemma StorableStep(items: seq<Item>)
    requires items != []
    ensures Storable(items) <==> Small(items[0]) && Storable(items[1..])
  {
    assert items == [items[0]] + items[1..];
  }

  lemma {:induction false} ItemsRead(items: seq<Item>, rest: Bytes)
    requires Storable(items)
    ensures DecodeItems(EncodeItems(items) + rest, |items|) == Ok(items)
    decreases |items|
  {
    hide EncodeItem, DecodeItem, DecodeItems;
    if items == [] {
      NoneDecoded(EncodeItems([]) + rest);
    } else {
      var first, others := items[0], items[1..];
      var data, tail := EncodeItems(items) + rest, EncodeItems(others) + rest;
      StorableStep(items);
      ConcatThree(EncodeItem(first), EncodeItems(others), rest);
      ItemRoundTrip(first, tail);
      ItemsRead(others, rest);
      DecodeStep(data, |items|, first, others);
      assert items == [first] + others;
    }
  }

  lemma NoneDecoded(data: Bytes)
    ensures DecodeItems(data, 0) == Ok([])
  {
  }

  /** data starts with a snapshot of these items: magic, version, count, generation, and each
      item with its lengths and its CRC. */
  ghost predicate IsSnapshot(data: Bytes, generation: nat, items: seq<Item>, p: Bytes, rest: Bytes) {
    && |p| == 4 && 0 < generation < U64 && |items| <= MAX_ITEMS && Storable(items)
    && data == SnapshotStart(generation, |items|, p) + EncodeItems(items) + rest
  }

  ghost function SnapshotStart(generation: nat, count: nat, p: Bytes): (h: Bytes)
    requires |p| == 4
    ensures |h| == 32
  {
    SNAPSHOT_MAGIC + Store(FILE_VERSION, 4) + p + (Store(count, 8) + Store(generation, 8))
  }

  /** What is read as a snapshot is one, and nothing else is. */
  lemma SnapshotExact(data: Bytes, generation: nat, items: seq<Item>)
    ensures DecodeSnapshot(data, generation) == Ok(items) <==>
      exists p, rest :: IsSnapshot(data, generation, items, p, rest)
  {
    hide Store, Load, EncodeItems, DecodeItems;
    WordRange();
    if DecodeSnapshot(data, generation) == Ok(items) {
      StoreLoad(data[8..12]);
      StoreLoad(data[16..24]);
      StoreLoad(data[24..32]);
      ItemsExact(data[32..], items);
      var rest :| data[32..] == EncodeItems(items) + rest;
      var p := data[12..16];
      StartParts(data);
      assert data[0..32] == SnapshotStart(generation, |items|, p);
      assert IsSnapshot(data, generation, items, p, rest);
    }
    if exists p, rest :: IsSnapshot(data, generation, items, p, rest) {
      var p, rest :| IsSnapshot(data, generation, items, p, rest);
      SnapshotReads(data, generation, items, p, rest);
    }
  }

  lemma StartParts(data: Bytes)
    requires |data| >= 32
    ensures data[0..32] == data[0..8] + data[8..12] + data[12..16] + (data[16..24] + data[24..32])
    ensures data == data[0..32] + data[32..]
  {
  }

  lemma SnapshotReads(data: Bytes, generation: nat, items: seq<Item>, p: Bytes, rest: Bytes)
    requires IsSnapshot(data, generation, items, p, rest)
    ensures DecodeSnapshot(data, generation) == Ok(items)
  {
    hide Store, Load, EncodeItems, DecodeItems;
    WordRange();
    LoadStore(FILE_VERSION, 4);
    LoadStore(|items|, 8);
    LoadStore(generation, 8);
    var h, counts := SnapshotStart(generation, |items|, p), Store(|items|, 8) + Store(generation, 8);
    FourParts(SNAPSHOT_MAGIC, Store(FILE_VERSION, 4), p, counts);
    SliceOfSlice(h, 16, 32, 0, 8);
    SliceOfSlice(h, 16, 32, 8, 16);
    CutConcat(Store(|items|, 8), Store(generation, 8));
    assert data[0..32] == h && data[32..] == EncodeItems(items) + rest;
    SliceOfSlice(data, 0, 32, 0, 8);
    SliceOfSlice(data, 0, 32, 8, 12);
    SliceOfSlice(data, 0, 32, 16, 24);
    SliceOfSlice(data, 0, 32, 24, 32);
    ItemsExact(data[32..], items);
  }

  /** Byte j is one of the CRC, the key or the value of item i. */
  ghost predicate InItem(items: seq<Item>, i: nat, j: nat) {
    && i < |items|
    && var at := |EncodeItems(items[..i])|;
       at + 8 <= j < at + 12 + |items[i].key| + |items[i].value|
  }

  lemma ItemDamage(data: Bytes, j: nat, b: bv8)
    requires DecodeItem(data).Ok? && 8 <= j < 12 + |DecodeItem(data).value.key| + |DecodeItem(data).value.value|
    requires b != data[j]
    ensures DecodeItem(data[j := b]) == Err(CorruptSnapshot)
  {
    hide Load, LoadCrc, Crc, ItemCrc;
    UpdateSlice(data, 0, 4, j, b);
    UpdateSlice(data, 4, 8, j, b);
    ItemDamagedCrc(data, |DecodeItem(data).value.key|, |DecodeItem(data).value.value|, j, b);
  }

  /** An item whose key and value have lengths n and m carries the CRC over them. */
  ghost predicate CarriesCrc(data: Bytes, n: nat, m: nat)
    requires 12 + n + m <= |data|
  {
    ItemCrc(data[0..8], data[12..12 + n], data[12 + n..12 + n + m]) == LoadCrc(data[8..12])
  }

  lemma ItemDamagedCrc(data: Bytes, n: nat, m: nat, j: nat, b: bv8)
    requires 12 + n + m <= |data| && 8 <= j < 12 + n + m && b != data[j]
    requires CarriesCrc(data, n, m)
    ensures !CarriesCrc(data[j := b], n, m)
  {
    hide LoadCrc, Crc, ItemCrc;
    var data2, head, field := data[j := b], data[0..8], data[8..12];
    var key, value := data[12..12 + n], data[12 + n..12 + n + m];
    var key2, value2 := data2[12..12 + n], data2[12 + n..12 + n + m];
    ItemSlices(data, n, m, j, b);
    ItemCrcIs(head, key, value);
    ItemCrcIs(head, key2, value2);
    if j < 12 {
      FieldDiffers(field, j - 8, b);
    } else {
      ByteInside(head, key, value, j - 12, b);
      ByteChanged(0, head + key + value, j - 4, b);
    }
  }

  /** Which of the parts of an item a changed byte is in. */
  lemma ItemSlices(data: Bytes, n: nat, m: nat, j: nat, b: bv8)
    requires 12 + n + m <= |data| && 8 <= j < 12 + n + m
    ensures var data2, key, value := data[j := b], data[12..12 + n], data[12 + n..12 + n + m];
      && data2[0..8] == data[0..8]
      && data2[8..12] == (if j < 12 then data[8..12][j - 8 := b] else data[8..12])
      && data2[12..12 + n] == (if 12 <= j < 12 + n then key[j - 12 := b] else key)
      && data2[12 + n..12 + n + m] == (if 12 + n <= j then value[j - 12 - n := b] else value)
    ensures data[j] == if j < 12 then data[8..12][j - 8]
      else if j < 12 + n then data[12..12 + n][j - 12] else data[12 + n..12 + n + m][j - 12 - n]
  {
    UpdateSlice(data, 0, 8, j, b);
    UpdateSlice(data, 8, 12, j, b);
    UpdateSlice(data, 12, 12 + n, j, b);
    UpdateSlice(data, 12 + n, 12 + n + m, j, b);
  }

  lemma ByteInside(head: Bytes, key: Bytes, value: Bytes, j: nat, b: bv8)
    requires |head| == 8 && j < |key| + |value|
    ensures j < |key| ==> head + key[j := b] + value == (head + key + value)[8 + j := b]
    ensures j >= |key| ==> head + key + value[j - |key| := b] == (head + key + value)[8 + j := b]
    ensures (head + key + value)[8 + j] == if j < |key| then key[j] else value[j - |key|]
  {
  }

  lemma {:induction false} ItemsDamage(data: Bytes, items: seq<Item>, i: nat, j: nat, b: bv8)
    requires DecodeItems(data, |items|) == Ok(items) && InItem(items, i, j) && j < |data| && b != data[j]
    ensures DecodeItems(data[j := b], |items|) == Err(CorruptSnapshot)
    decreases |items|
  {
    hide DecodeItem, EncodeItem, DecodeItems, EncodeItems;
    var first, others := items[0], items[1..];
    var size := |EncodeItem(first)|;
    DecodedStep(data, items);
    EncodedFront(items, i);
    if i == 0 {
      ItemDamage(data, j, b);
      FirstFails(data[j := b], |items|);
    } else {
      ItemExact(data, first);
      var tail :| data == EncodeItem(first) + tail;
      assert data[size..] == tail && data[j := b] == EncodeItem(first) + tail[j - size := b];
      ItemRoundTrip(first, tail[j - size := b]);
      ItemsDamage(tail, others, i - 1, j - size, b);
      RestFails(data[j := b], |items|, first);
    }
  }

  lemma EncodedFront(items: seq<Item>, i: nat)
    requires i < |items|
    ensures |EncodeItem(items[0])| == 12 + |items[0].key| + |items[0].value|
    ensures i == 0 ==> EncodeItems(items[..i]) == []
    ensures i > 0 ==> |EncodeItems(items[..i])| == |EncodeItem(items[0])| + |EncodeItems(items[1..][..i - 1])|
  {
    hide EncodeItem;
    if i > 0 {
      assert items[..i][0] == items[0] && items[..i][1..] == items[1..][..i - 1];
    }
  }

  lemma FirstFails(data: Bytes, count: nat)
    requires count > 0 && DecodeItem(data).Err?
    ensures DecodeItems(data, count) == Err(DecodeItem(data).error)
  {
    hide DecodeItem;
  }

  lemma RestFails(data: Bytes, count: nat, first: Item)
    requires count > 0 && DecodeItem(data) == Ok(first) && 12 + |first.key| + |first.value| <= |data|
    requires DecodeItems(data[12 + |first.key| + |first.value|..], count - 1).Err?
    ensures DecodeItems(data, count) == Err(DecodeItems(data[12 + |first.key| + |first.value|..], count - 1).error)
  {
    hide DecodeItem;
  }

  /** A snapshot in which a byte of the magic, the version or the generation, or of an item's CRC,
      key or value is changed is not read. */
  lemma SnapshotDamage(data: Bytes, generation: nat, items: seq<Item>, i: nat, j: nat, b: bv8)
    requires DecodeSnapshot(data, generation) == Ok(items) && j < |data| && b != data[j]
    requires j < 12 || 24 <= j < 32 || (j >= 32 && InItem(items, i, j - 32))
    ensures DecodeSnapshot(data[j := b], generation) == Err(CorruptSnapshot)
  {
    hide Load, DecodeItems, InItem;
    var data2 := data[j := b];
    UpdateSlice(data, 0, 8, j, b);
    UpdateSlice(data, 8, 12, j, b);
    UpdateSlice(data, 16, 24, j, b);
    UpdateSlice(data, 24, 32, j, b);
    if j < 32 {
      SlicesDiffer(data, j, b);
    } else {
      ItemsDamage(data[32..], items, i, j - 32, b);
      assert data2[32..] == data[32..][j - 32 := b];
    }
  }

  lemma SlicesDiffer(data: Bytes, j: nat, b: bv8)
    requires j < |data| && |data| >= 32 && b != data[j]
    ensures var data2 := data[j := b];
      && (j < 8 ==> data2[0..8] != data[0..8])
      && (8 <= j < 12 ==> Load(data2[8..12]) != Load(data[8..12]))
      && (24 <= j < 32 ==> Load(data2[24..32]) != Load(data[24..32]))
  {
    hide Load;
    var data2 := data[j := b];
    if j < 8 {
      assert data2[0..8][j] != data[0..8][j];
    } else if 8 <= j < 12 {
      assert data2[8..12][j - 8] != data[8..12][j - 8];
      LoadDiffers(data[8..12], data2[8..12]);
    } else if 24 <= j < 32 {
      assert data2[24..32][j - 24] != data[24..32][j - 24];
      LoadDiffers(data[24..32], data2[24..32]);
    }
  }

  lemma LoadDiffers(a: Bytes, b: Bytes)
    requires |a| == |b| && a != b
    ensures Load(a) != Load(b)
  {
    hide Load;
    StoreLoad(a);
    StoreLoad(b);
  }

  // ------------------------------------------------------------------ directories

  /** A directory without the snapshot that its manifest calls for does not open. */
  lemma MissingSnapshot(walSize: nat, d: Disk)
    requires d.manifest.Some? && DiskGeneration(d).Ok? && DiskGeneration(d).value !in d.snapshots
    ensures DiskItems(d) == Err(CorruptSnapshot) && !Loadable(walSize, d)
  {
  }

  /** A directory whose manifest has a changed byte does not open. */
  lemma DamagedManifest(walSize: nat, d: Disk, i: nat, b: bv8)
    requires Loadable(walSize, d) && d.manifest.Some? && i < 32 && i < |d.manifest.value| && b != d.manifest.value[i]
    ensures var d2 := d.(manifest := Some(d.manifest.value[i := b]));
      DiskGeneration(d2) == Err(CorruptManifest) && !Loadable(walSize, d2)
  {
    hide DecodeManifest, DiskItems, DiskFiles;
    ManifestDamage(d.manifest.value, i, b);
  }

  /** Nor does one whose snapshot has a changed byte anywhere but in a length, the count or the
      four unused bytes. */
  lemma DamagedSnapshot(walSize: nat, d: Disk, i: nat, j: nat, b: bv8)
    requires Loadable(walSize, d) && d.manifest.Some?
    requires var g := DiskGeneration(d).value;
      g in d.snapshots && j < |d.snapshots[g]| && b != d.snapshots[g][j]
    requires j < 12 || 24 <= j < 32 || (j >= 32 && InItem(DiskItems(d).value, i, j - 32))
    ensures var g := DiskGeneration(d).value;
      var d2 := d.(snapshots := d.snapshots[g := d.snapshots[g][j := b]]);
      DiskGeneration(d2) == Ok(g) && DiskItems(d2) == Err(CorruptSnapshot) && !Loadable(walSize, d2)
  {
    hide DecodeManifest, DecodeSnapshot, InItem, DiskFiles;
    var g := DiskGeneration(d).value;
    SnapshotDamage(d.snapshots[g], g, DiskItems(d).value, i, j, b);
  }
}
