/** The bytes of MANIFEST and of snapshot files (ReadManifest, WriteManifest, ReadSnapshot
    and WriteSnapshot of store.cc). */
module CheckpointFiles {
  import opened Wrappers
  import opened Keys
  import opened Codec
  import opened Crc32
  import opened Sequences

  datatype Item = Item(key: Key, value: Bytes)

  // ------------------------------------------------------------------ manifest

  const MANIFEST_MAGIC: Bytes := [0x4d, 0x57, 0x4d, 0x41, 0x4e, 0x30, 0x31, 0]
  const SNAPSHOT_MAGIC: Bytes := [0x4d, 0x57, 0x53, 0x4e, 0x41, 0x50, 0x31, 0]
  const FILE_VERSION: nat := 1

  function Zeros(n: nat): (s: Bytes)
    ensures |s| == n
  {
    if n == 0 then [] else [0] + Zeros(n - 1)
  }

  /** The manifest up to its CRC. */
  function ManifestHead(generation: nat): (s: Bytes)
    ensures |s| == 28
  {
    MANIFEST_MAGIC + Store(FILE_VERSION, 4) + Zeros(4) + Store(generation, 8) + Zeros(4)
  }

  /** WriteManifest: the CRC is taken with the CRC field zero. */
  function EncodeManifest(generation: nat): (s: Bytes)
    ensures |s| == 32
  {
    ManifestHead(generation) + CrcBytes(Crc(0, ManifestHead(generation) + Zeros(4)))
  }

  /** ReadManifest, over an existing file: the generation it names. */
  function DecodeManifest(data: Bytes): (r: Result<nat>)
    ensures r.Ok? ==> r.value > 0
  {
    if |data| < 32 || data[0..8] != MANIFEST_MAGIC || Load(data[8..12]) != FILE_VERSION then Err(CorruptManifest)
    else
      var generation := Load(data[16..24]);
      if generation == 0 then Err(CorruptManifest)
      else if Crc(0, data[0..28] + Zeros(4)) != LoadCrc(data[28..32]) then Err(CorruptManifest)
      else Ok(generation)
  }

  lemma ManifestRoundTrip(generation: nat)
    requires 0 < generation < U64
    ensures DecodeManifest(EncodeManifest(generation)) == Ok(generation)
  {
    hide Store, Load, CrcBytes, LoadCrc, Zeros;
    var d := EncodeManifest(generation);
    WordRange();
    LoadStore(FILE_VERSION, 4);
    LoadStore(generation, 8);
    CrcRoundTrip(Crc(0, ManifestHead(generation) + Zeros(4)), CrcBytes(0));
    ManifestParts(generation);
  }

  lemma HeadParts(generation: nat)
    ensures var h := ManifestHead(generation);
      h[0..8] == MANIFEST_MAGIC && h[8..12] == Store(FILE_VERSION, 4) && h[16..24] == Store(generation, 8)
  {
    hide Store, Zeros;
    HeadTail(MANIFEST_MAGIC, Store(FILE_VERSION, 4), Zeros(4), Store(generation, 8), Zeros(4));
  }

  lemma HeadTail(a: Bytes, b: Bytes, c: Bytes, d: Bytes, e: Bytes)
    requires |a| == 8 && |b| == 4 && |c| == 4 && |d| == 8 && |e| == 4
    ensures var h := a + b + c + d + e; h[0..8] == a && h[8..12] == b && h[16..24] == d
  {
  }

  lemma ManifestParts(generation: nat)
    ensures var d := EncodeManifest(generation);
      && d[0..8] == MANIFEST_MAGIC && d[8..12] == Store(FILE_VERSION, 4) && d[16..24] == Store(generation, 8)
      && d[0..28] == ManifestHead(generation)
      && d[28..32] == CrcBytes(Crc(0, ManifestHead(generation) + Zeros(4)))
  {
    hide Store, CrcBytes, Crc, Zeros, ManifestHead;
    var h := ManifestHead(generation);
    HeadParts(generation);
    ManifestSlices(h, CrcBytes(Crc(0, h + Zeros(4))));
  }

  lemma ManifestSlices(h: Bytes, crc: Bytes)
    requires |h| == 28 && |crc| == 4
    ensures var d := h + crc;
      d[0..28] == h && d[28..32] == crc && d[0..8] == h[0..8] && d[8..12] == h[8..12] && d[16..24] == h[16..24]
  {
  }

  // ------------------------------------------------------------------ snapshot

  const MAX_ITEMS: nat := OFFSET_LIMIT - 1

  function ItemHead(item: Item): (s: Bytes)
    ensures |s| == 8
  {
    Store(|item.key|, 4) + Store(|item.value|, 4)
  }

  function ItemCrc(head: Bytes, key: Key, value: Bytes): bv32 {
    Crc(Crc(Crc(0, head), key), value)
  }

  function EncodeItem(item: Item): (s: Bytes)
    ensures |s| == 12 + |item.key| + |item.value|
  {
    ItemHead(item) + CrcBytes(ItemCrc(ItemHead(item), item.key, item.value)) + item.key + item.value
  }

  function EncodeItems(items: seq<Item>): Bytes {
    if items == [] then [] else EncodeItem(items[0]) + EncodeItems(items[1..])
  }

  /** WriteSnapshot: what the file holds when it is renamed into place. */
  function EncodeSnapshot(generation: nat, items: seq<Item>): Bytes {
    SnapshotHead(generation, |items|) + EncodeItems(items)
  }

  function SnapshotHead(generation: nat, count: nat): (s: Bytes)
    ensures |s| == 32
  {
    SNAPSHOT_MAGIC + Store(FILE_VERSION, 4) + Zeros(4) + (Store(count, 8) + Store(generation, 8))
  }

  /** One item at the front of the rest of the file. */
  function DecodeItem(data: Bytes): (r: Result<Item>)
    ensures r.Ok? ==> 12 + |r.value.key| + |r.value.value| <= |data| && |r.value.key| <= MAX_KEY_SIZE
  {
    if |data| < 12 then Err(CorruptSnapshot)
    else
      var keyLen, valueLen := Load(data[0..4]), Load(data[4..8]);
      if keyLen > MAX_KEY_SIZE || 12 + keyLen + valueLen > |data| then Err(CorruptSnapshot)
      else
        var key, value := data[12..12 + keyLen], data[12 + keyLen..12 + keyLen + valueLen];
        if ItemCrc(data[0..8], key, value) != LoadCrc(data[8..12]) then Err(CorruptSnapshot)
        else Ok(Item(key, value))
  }

  function DecodeItems(data: Bytes, count: nat): (r: Result<seq<Item>>)
    ensures r.Ok? ==> |r.value| == count
    decreases count
  {
    if count == 0 then Ok([])
    else
      var first := DecodeItem(data);
      if first.Err? then Err(first.error)
      else
        var rest := DecodeItems(data[12 + |first.value.key| + |first.value.value|..], count - 1);
        if rest.Err? then Err(rest.error) else Ok([first.value] + rest.value)
  }

  /** ReadSnapshot, over an existing file. */
  function DecodeSnapshot(data: Bytes, generation: nat): (r: Result<seq<Item>>)
  {
    if generation == 0 || |data| < 32 || data[0..8] != SNAPSHOT_MAGIC || Load(data[8..12]) != FILE_VERSION
    then Err(CorruptSnapshot)
    else
      var count := Load(data[16..24]);
      if Load(data[24..32]) != generation || count > MAX_ITEMS then Err(CorruptSnapshot)
      else DecodeItems(data[32..], count)
  }

  /** Items that can be written and read again. */
  ghost predicate Storable(items: seq<Item>) {
    forall i :: 0 <= i < |items| ==> |items[i].key| <= MAX_KEY_SIZE && |items[i].value| < U32
  }

  lemma ItemRoundTrip(item: Item, rest: Bytes)
    requires |item.key| <= MAX_KEY_SIZE && |item.value| < U32
    ensures DecodeItem(EncodeItem(item) + rest) == Ok(item)
    ensures (EncodeItem(item) + rest)[12 + |item.key| + |item.value|..] == rest
  {
    hide Store, Load, CrcBytes, LoadCrc, Crc;
    var data := EncodeItem(item) + rest;
    var head := ItemHead(item);
    var crc := ItemCrc(head, item.key, item.value);
    WordRange();
    LoadStore(|item.key|, 4);
    LoadStore(|item.value|, 4);
    CrcRoundTrip(crc, CrcBytes(0));
    FourParts(head, CrcBytes(crc), item.key, item.value + rest);
    assert data == head + CrcBytes(crc) + item.key + (item.value + rest);
    assert data[12 + |item.key|..] == item.value + rest;
    assert data[0..4] == data[0..8][0..4] == Store(|item.key|, 4);
    assert data[4..8] == data[0..8][4..8] == Store(|item.value|, 4);
  }

  lemma {:induction false} ItemsRoundTrip(items: seq<Item>)
    requires Storable(items)
    ensures DecodeItems(EncodeItems(items), |items|) == Ok(items)
  {
    hide *;
    if items == [] {
      NothingDecoded();
    } else {
      var data := EncodeItem(items[0]) + EncodeItems(items[1..]);
      EncodeStep(items);
      ItemRoundTrip(items[0], EncodeItems(items[1..]));
      ItemsRoundTrip(items[1..]);
      DecodeStep(data, |items|, items[0], items[1..]);
      assert items == [items[0]] + items[1..];
    }
  }

  lemma NothingDecoded()
    ensures DecodeItems(EncodeItems([]), 0) == Ok([])
  {
  }

  lemma EncodeStep(items: seq<Item>)
    requires items != [] && Storable(items)
    ensures EncodeItems(items) == EncodeItem(items[0]) + EncodeItems(items[1..])
    ensures Storable(items[1..]) && |items[0].key| <= MAX_KEY_SIZE && |items[0].value| < U32
    ensures |EncodeItem(items[0])| == 12 + |items[0].key| + |items[0].value|
  {
    hide EncodeItem;
  }

  lemma DecodeStep(data: Bytes, count: nat, first: Item, rest: seq<Item>)
    requires count > 0 && DecodeItem(data) == Ok(first) && 12 + |first.key| + |first.value| <= |data|
    requires DecodeItems(data[12 + |first.key| + |first.value|..], count - 1) == Ok(rest)
    ensures DecodeItems(data, count) == Ok([first] + rest)
  {
    hide DecodeItem;
  }

  /** A finished snapshot is read back item by item. */
  lemma SnapshotRoundTrip(generation: nat, items: seq<Item>)
    requires 0 < generation < U64 && |items| <= MAX_ITEMS && Storable(items)
    ensures DecodeSnapshot(EncodeSnapshot(generation, items), generation) == Ok(items)
  {
    hide Store, Load, EncodeItems, DecodeItems;
    WordRange();
    LoadStore(FILE_VERSION, 4);
    LoadStore(|items|, 8);
    LoadStore(generation, 8);
    ItemsRoundTrip(items);
    SnapshotParts(generation, items);
  }

  lemma SnapshotParts(generation: nat, items: seq<Item>)
    ensures var d := EncodeSnapshot(generation, items);
      && |d| >= 32 && d[0..8] == SNAPSHOT_MAGIC && d[8..12] == Store(FILE_VERSION, 4)
      && d[16..24] == Store(|items|, 8) && d[24..32] == Store(generation, 8) && d[32..] == EncodeItems(items)
  {
    hide Store, EncodeItems, Zeros;
    var d, h := EncodeSnapshot(generation, items), SnapshotHead(generation, |items|);
    FourParts(SNAPSHOT_MAGIC, Store(FILE_VERSION, 4), Zeros(4), Store(|items|, 8) + Store(generation, 8));
    assert h[16..32][0..8] == Store(|items|, 8) && h[16..32][8..16] == Store(generation, 8);
    assert h[16..24] == h[16..32][0..8] && h[24..32] == h[16..32][8..16];
    assert d[0..32] == h && d[0..8] == h[0..8] && d[8..12] == h[8..12] && d[16..24] == h[16..24]
      && d[24..32] == h[24..32];
  }

  /** A snapshot can be read back exactly when it does not hold too many items. */
  lemma SnapshotReadable(generation: nat, items: seq<Item>)
    requires 0 < generation < U64 && |items| < U64 && Storable(items)
    ensures DecodeSnapshot(EncodeSnapshot(generation, items), generation) == Ok(items) <==> |items| < 0x4000_0000
  {
    if |items| <= MAX_ITEMS {
      SnapshotRoundTrip(generation, items);
    } else {
      hide Store, Load, EncodeItems, DecodeItems;
      WordRange();
      LoadStore(|items|, 8);
      SnapshotParts(generation, items);
    }
  }
}
