/** Fixed-width numbers in files (Load32, Load64, Store32, Store64 of store.cc) and record
    positions. */
module Codec {
  import opened Wrappers
  import NodeStore
  import Patricia

  type Position = Patricia.Position

  type Bytes = seq<bv8>

  function Flag(b: bv8, m: bv8): (n: nat)
    ensures n <= 1
  {
    if b & m != 0 then 1 else 0
  }

  function Mask(n: nat, m: bv8): bv8 { if n == 1 then m else 0 }

  /** The number a byte stands for. */
  function Value(b: bv8): (n: nat)
    ensures n < 256
  {
    var g := Flag(b, 64) + 2 * Flag(b, 128);
    var f := Flag(b, 32) + 2 * g;
    var e := Flag(b, 16) + 2 * f;
    var d := Flag(b, 8) + 2 * e;
    var c := Flag(b, 4) + 2 * d;
    Flag(b, 1) + 2 * (Flag(b, 2) + 2 * c)
  }

  function Byte(n: nat): bv8
    requires n < 256
  {
    var b := n / 2;
    var c := b / 2;
    var d := c / 2;
    var e := d / 2;
    var f := e / 2;
    var g := f / 2;
    FromFlags(n % 2, b % 2, c % 2, d % 2, e % 2, f % 2, g % 2, g / 2)
  }

  function FromFlags(a: nat, b: nat, c: nat, d: nat, e: nat, f: nat, g: nat, h: nat): bv8 {
    Mask(a, 1) | Mask(b, 2) | Mask(c, 4) | Mask(d, 8) | Mask(e, 16) | Mask(f, 32) | Mask(g, 64) | Mask(h, 128)
  }

  lemma FlagsBack(a: nat, b: nat, c: nat, d: nat, e: nat, f: nat, g: nat, h: nat)
    requires a <= 1 && b <= 1 && c <= 1 && d <= 1 && e <= 1 && f <= 1 && g <= 1 && h <= 1
    ensures var x := FromFlags(a, b, c, d, e, f, g, h);
      && Flag(x, 1) == a && Flag(x, 2) == b && Flag(x, 4) == c && Flag(x, 8) == d
      && Flag(x, 16) == e && Flag(x, 32) == f && Flag(x, 64) == g && Flag(x, 128) == h
  {
  }

  lemma ByteFlags(x: bv8)
    ensures FromFlags(Flag(x, 1), Flag(x, 2), Flag(x, 4), Flag(x, 8),
                      Flag(x, 16), Flag(x, 32), Flag(x, 64), Flag(x, 128)) == x
  {
  }

  lemma ValueOfByte(n: nat)
    requires n < 256
    ensures Value(Byte(n)) == n
  {
    hide Flag, Mask, FromFlags;
    var b := n / 2;
    var c := b / 2;
    var d := c / 2;
    var e := d / 2;
    var f := e / 2;
    var g := f / 2;
    FlagsBack(n % 2, b % 2, c % 2, d % 2, e % 2, f % 2, g % 2, g / 2);
  }

  lemma Halve(a: nat, x: nat)
    requires a <= 1
    ensures (a + 2 * x) % 2 == a && (a + 2 * x) / 2 == x
  {
  }

  lemma ByteOfValue(x: bv8)
    ensures Byte(Value(x)) == x
  {
    hide Flag, Mask, FromFlags;
    var g := Flag(x, 64) + 2 * Flag(x, 128);
    var f := Flag(x, 32) + 2 * g;
    var e := Flag(x, 16) + 2 * f;
    var d := Flag(x, 8) + 2 * e;
    var c := Flag(x, 4) + 2 * d;
    var b := Flag(x, 2) + 2 * c;
    Halve(Flag(x, 1), b);
    Halve(Flag(x, 2), c);
    Halve(Flag(x, 4), d);
    Halve(Flag(x, 8), e);
    Halve(Flag(x, 16), f);
    Halve(Flag(x, 32), g);
    Halve(Flag(x, 64), Flag(x, 128));
    ByteFlags(x);
  }

  function Pow256(n: nat): (p: nat)
    ensures p > 0
  {
    if n == 0 then 1 else 256 * Pow256(n - 1)
  }

  /** Store32 and Store64: the lowest byte first. */
  function Store(x: nat, n: nat): (s: Bytes)
    ensures |s| == n
  {
    if n == 0 then [] else [Byte(x % 256)] + Store(x / 256, n - 1)
  }

  /** Load32 and Load64 */
  function Load(s: Bytes): nat
  {
    if s == [] then 0 else Value(s[0]) + 256 * Load(s[1..])
  }

  lemma {:induction false} LoadStore(x: nat, n: nat)
    requires x < Pow256(n)
    ensures Load(Store(x, n)) == x
  {
    hide Byte, Value;
    if n > 0 {
      ValueOfByte(x % 256);
      LoadStore(x / 256, n - 1);
      assert Store(x, n)[1..] == Store(x / 256, n - 1);
    }
  }

  lemma DigitApart(low: nat, high: nat)
    requires low < 256
    ensures (low + 256 * high) % 256 == low && (low + 256 * high) / 256 == high
  {
  }

  lemma {:induction false} StoreLoad(s: Bytes)
    ensures Load(s) < Pow256(|s|) && Store(Load(s), |s|) == s
  {
    hide Byte, Value;
    if s != [] {
      var low, high := Value(s[0]), Load(s[1..]);
      StoreLoad(s[1..]);
      ByteOfValue(s[0]);
      DigitApart(low, high);
      assert Load(s) == low + 256 * high;
      assert s == [s[0]] + s[1..];
    }
  }

  /** Read bit by bit, a byte is the number it is. */
  lemma ValueIs(b: bv8)
    ensures Value(b) == b as nat
  {
    if b < 128 {
      assert b & 128 == 0;
    } else {
      var c := b - 128;
      assert b & 128 != 0 && c as nat == b as nat - 128;
    }
  }

  /** Byte i of a stored number is its digit i to the base 256. */
  lemma {:induction false} LowestFirst(x: nat, n: nat, i: nat)
    requires i < n
    ensures Store(x, n)[i] as nat == x / Pow256(i) % 256
  {
    hide Byte, Value;
    ValueOfByte(x % 256);
    ValueIs(Byte(x % 256));
    assert Pow256(0) == 1 && x / 1 == x;
    if i > 0 {
      LowestFirst(x / 256, n - 1, i - 1);
      DivideTwice(x, Pow256(i - 1));
    }
  }

  lemma DivideTwice(x: nat, p: nat)
    requires p > 0
    ensures x / 256 / p == x / (256 * p)
  {
    var q, s := x / 256, x / 256 / p;
    var rest := 256 * (q - p * s) + x % 256;
    assert 0 <= q - p * s <= p - 1;
    assert x == (256 * p) * s + rest && 0 <= rest < 256 * p;
    Quotient(x, 256 * p, s, rest);
  }

  lemma Quotient(x: nat, d: nat, s: nat, rest: nat)
    requires x == d * s + rest && rest < d
    ensures x / d == s
  {
    Multiples(d, x / d, s);
    Multiples(d, s, x / d);
  }

  lemma Multiples(d: nat, a: nat, b: nat)
    ensures a < b ==> d * a + d <= d * b
  {
    if a < b {
      assert d * b == d * a + d * (b - a) && d * (b - a) == d + d * (b - a - 1);
    }
  }

  const U32: nat := 0x1_0000_0000
  const U64: nat := 0x1_0000_0000_0000_0000

  lemma WordRange()
    ensures Pow256(4) == U32 && Pow256(8) == U64
  {
    assert Pow256(1) == 256 && Pow256(2) == 65536;
    assert Pow256(4) == 256 * (256 * Pow256(2));
    assert Pow256(6) == 256 * (256 * Pow256(4));
    assert Pow256(8) == 256 * (256 * Pow256(6));
  }

  // A CRC register and its four bytes, the lowest first.

  function Part0(c: bv32): bv8 { (c & 0xff) as bv8 }
  function Part1(c: bv32): bv8 { ((c >> 8) & 0xff) as bv8 }
  function Part2(c: bv32): bv8 { ((c >> 16) & 0xff) as bv8 }
  function Part3(c: bv32): bv8 { ((c >> 24) & 0xff) as bv8 }

  function Join(a: bv8, b: bv8, c: bv8, d: bv8): bv32 {
    (a as bv32) | ((b as bv32) << 8) | ((c as bv32) << 16) | ((d as bv32) << 24)
  }

  lemma JoinParts(c: bv32)
    ensures Join(Part0(c), Part1(c), Part2(c), Part3(c)) == c
  {
  }

  lemma PartsOfJoin(a: bv8, b: bv8, c: bv8, d: bv8)
    ensures Part0(Join(a, b, c, d)) == a && Part1(Join(a, b, c, d)) == b
    ensures Part2(Join(a, b, c, d)) == c && Part3(Join(a, b, c, d)) == d
  {
  }

  function CrcBytes(c: bv32): (s: Bytes)
    ensures |s| == 4
  {
    [Part0(c), Part1(c), Part2(c), Part3(c)]
  }

  function LoadCrc(s: Bytes): bv32
    requires |s| == 4
  {
    Join(s[0], s[1], s[2], s[3])
  }

  /** Registers and their bytes determine each other. */
  lemma CrcRoundTrip(c: bv32, s: Bytes)
    requires |s| == 4
    ensures LoadCrc(CrcBytes(c)) == c && CrcBytes(LoadCrc(s)) == s
  {
    hide Part0, Part1, Part2, Part3, Join;
    JoinParts(c);
    PartsOfJoin(s[0], s[1], s[2], s[3]);
  }

  /** One changed byte of a stored CRC is another CRC. */
  lemma FieldDiffers(field: Bytes, j: nat, b: bv8)
    requires |field| == 4 && j < 4 && b != field[j]
    ensures LoadCrc(field[j := b]) != LoadCrc(field)
  {
    hide LoadCrc, CrcBytes;
    CrcRoundTrip(0, field);
    CrcRoundTrip(0, field[j := b]);
    assert field[j := b][j] != field[j];
  }

  // ------------------------------------------------------------------ positions

  const OFFSET_LIMIT: nat := 0x4000_0000
  const FILE_LIMIT: nat := 0x2_0000_0000

  /** MakeRecordPosition: file number and offset in one word below the child tag; no
      position when one of them is out of range. */
  function MakeRecordPosition(fileNo: nat, offset: nat): Option<Position> {
    if fileNo == 0 || fileNo >= FILE_LIMIT || offset >= OFFSET_LIMIT then None
    else Some(fileNo * OFFSET_LIMIT + offset)
  }

  function FileNo(pos: Position): nat { pos / OFFSET_LIMIT }

  function Offset(pos: Position): nat { pos % OFFSET_LIMIT }

  /** IsSnapshotPosition: a plain index into the snapshot records. */
  predicate IsSnapshotPosition(pos: Position) { 0 < pos < OFFSET_LIMIT }

  /** A position gives back its parts, stays below the child tag, and is never the position
      of a snapshot record. */
  lemma PositionParts(fileNo: nat, offset: nat)
    ensures MakeRecordPosition(fileNo, offset).Some? <==> 0 < fileNo < FILE_LIMIT && offset < OFFSET_LIMIT
    ensures MakeRecordPosition(fileNo, offset).Some? ==>
      var pos := MakeRecordPosition(fileNo, offset).value;
      && FileNo(pos) == fileNo && Offset(pos) == offset && pos < NodeStore.CHILD_TAG && !IsSnapshotPosition(pos)
      && pos == fileNo * 0x4000_0000 + offset
    ensures MakeRecordPosition(fileNo, offset).Some? <==> 0 < fileNo < 0x2_0000_0000 && offset < 0x4000_0000
  {
  }

  /** Positions of WAL records order like (file, offset). */
  lemma PositionsOrdered(f1: nat, o1: nat, f2: nat, o2: nat)
    requires MakeRecordPosition(f1, o1).Some? && MakeRecordPosition(f2, o2).Some?
    ensures MakeRecordPosition(f1, o1).value < MakeRecordPosition(f2, o2).value <==> f1 < f2 || (f1 == f2 && o1 < o2)
  {
  }
}
