/** CRC-32 as store.cc computes it, against the bit-by-bit definition of section 8 of
    RFC 1952. */
module Crc32 {
  import opened Codec

  function Xor(a: bv32, b: bv32): bv32 { a ^ b }

  /** One step of the division: the low bit leaves, and if it was set the polynomial goes in. */
  function BitStep(c: bv32): bv32 {
    if c & 1 != 0 then (c >> 1) ^ 0xedb88320 else c >> 1
  }

  function Steps(c: bv32, n: nat): bv32
    decreases n
  {
    if n == 0 then c else Steps(BitStep(c), n - 1)
  }

  /** A byte enters the register. */
  function Enter(c: bv32, b: bv8): bv32 { c ^ (b as bv32) }

  /** The register after a run of bytes, bit by bit. */
  function Register(c: bv32, data: seq<bv8>): bv32
    decreases |data|
  {
    if data == [] then c else Register(Steps(Enter(c, data[0]), 8), data[1..])
  }

  function Complement(c: bv32): bv32 { !c }

  /** update_crc of RFC 1952: the register is complemented before and after. */
  function Crc(c: bv32, data: seq<bv8>): bv32 {
    Complement(Register(Complement(c), data))
  }

  // ---------------------------------------------------------------- the table

  lemma BothOdd(x: bv32, y: bv32)
    requires x & 1 != 0 && y & 1 != 0
    ensures BitStep(x ^ y) == BitStep(x) ^ BitStep(y)
  {
  }

  lemma OneOdd(x: bv32, y: bv32)
    requires x & 1 != 0 && y & 1 == 0
    ensures BitStep(x ^ y) == BitStep(x) ^ BitStep(y) == BitStep(y) ^ BitStep(x)
    ensures x ^ y == y ^ x
  {
  }

  lemma BothEven(x: bv32, y: bv32)
    requires x & 1 == 0 && y & 1 == 0
    ensures BitStep(x ^ y) == BitStep(x) ^ BitStep(y)
  {
  }

  lemma BitStepXor(x: bv32, y: bv32)
    ensures BitStep(Xor(x, y)) == Xor(BitStep(x), BitStep(y))
  {
    hide BitStep;
    if x & 1 != 0 {
      if y & 1 != 0 {
        BothOdd(x, y);
      } else {
        OneOdd(x, y);
      }
    } else if y & 1 != 0 {
      OneOdd(y, x);
    } else {
      BothEven(x, y);
    }
  }

  /** The steps of a sum are the sum of the steps. */
  lemma {:induction false} StepsXor(x: bv32, y: bv32, n: nat)
    ensures Steps(Xor(x, y), n) == Xor(Steps(x, n), Steps(y, n))
    decreases n
  {
    hide BitStep, Xor;
    if n > 0 {
      BitStepXor(x, y);
      StepsXor(BitStep(x), BitStep(y), n - 1);
    }
  }

  /** A register whose low n bits are clear is only shifted by the next n steps. */
  ghost predicate Clear(x: bv32, n: nat)
    decreases n
  {
    n == 0 || (x & 1 == 0 && Clear(x >> 1, n - 1))
  }

  function Shift(x: bv32, n: nat): bv32
    decreases n
  {
    if n == 0 then x else Shift(x >> 1, n - 1)
  }

  lemma EvenStep(x: bv32)
    requires x & 1 == 0
    ensures BitStep(x) == x >> 1
  {
  }

  lemma {:induction false} ClearSteps(x: bv32, n: nat)
    requires Clear(x, n)
    ensures Steps(x, n) == Shift(x, n)
    decreases n
  {
    hide BitStep;
    if n > 0 {
      EvenStep(x);
      ClearSteps(x >> 1, n - 1);
    }
  }

  lemma LowBits(x: bv32)
    requires x & 0xff == 0
    ensures x & 1 == 0 && (x >> 1) & 1 == 0 && (x >> 2) & 1 == 0 && (x >> 3) & 1 == 0
    ensures (x >> 4) & 1 == 0 && (x >> 5) & 1 == 0 && (x >> 6) & 1 == 0 && (x >> 7) & 1 == 0
    ensures (x >> 1) >> 1 == x >> 2 && (x >> 2) >> 1 == x >> 3 && (x >> 3) >> 1 == x >> 4
    ensures (x >> 4) >> 1 == x >> 5 && (x >> 5) >> 1 == x >> 6 && (x >> 6) >> 1 == x >> 7 && (x >> 7) >> 1 == x >> 8
  {
  }

  lemma ClearByte(x: bv32)
    requires x & 0xff == 0
    ensures Clear(x, 8) && Shift(x, 8) == x >> 8
  {
    LowBits(x);
    assert Clear(x >> 8, 0) && Clear(x >> 7, 1) && Clear(x >> 6, 2) && Clear(x >> 5, 3) && Clear(x >> 4, 4);
    assert Clear(x >> 3, 5) && Clear(x >> 2, 6) && Clear(x >> 1, 7);
    assert Shift(x >> 8, 0) == x >> 8 && Shift(x >> 7, 1) == x >> 8 && Shift(x >> 6, 2) == x >> 8;
    assert Shift(x >> 5, 3) == x >> 8 && Shift(x >> 4, 4) == x >> 8 && Shift(x >> 3, 5) == x >> 8;
    assert Shift(x >> 2, 6) == x >> 8 && Shift(x >> 1, 7) == x >> 8;
  }

  function Low(x: bv32): bv32 { x & 0xff }
  function High(x: bv32): bv32 { x & 0xffffff00 }
  function Shr8(x: bv32): bv32 { x >> 8 }

  lemma Halves(x: bv32)
    ensures x == Xor(Low(x), High(x))
    ensures High(x) & 0xff == 0
    ensures High(x) >> 8 == Shr8(x)
  {
  }

  lemma EnterHigh(c: bv32, b: bv8)
    ensures Shr8(Enter(c, b)) == Shr8(c)
  {
  }

  /** Eight steps: those of the low byte, and a shift of the rest. */
  lemma ByteSteps(x: bv32)
    ensures Steps(x, 8) == Xor(Steps(Low(x), 8), Shr8(x))
  {
    hide BitStep, Xor, Shift, Low, High, Shr8, Steps, Clear;
    Halves(x);
    StepsXor(Low(x), High(x), 8);
    ClearByte(High(x));
    ClearSteps(High(x), 8);
  }

  function LowByte(x: bv32): bv8 { (x & 0xff) as bv8 }

  function Wide(b: bv8): bv32 { b as bv32 }

  lemma LowByteWide(x: bv32)
    ensures Wide(LowByte(x)) == Low(x)
  {
  }

  function ByteOf(i: nat): bv8
    requires i < 256
  {
    i as bv8
  }

  lemma ByteIndex(b: bv8)
    ensures b as nat < 256 && ByteOf(b as nat) == b
  {
  }

  /** MakeCRC32Table: entry i is what eight steps make of the byte i. */
  method MakeCRC32Table() returns (table: array<bv32>)
    ensures fresh(table) && table.Length == 256
    ensures forall i :: 0 <= i < 256 ==> table[i] == Steps(Wide(ByteOf(i)), 8)
  {
    table := new bv32[256];
    var i := 0;
    while i < 256
      invariant 0 <= i <= 256
      invariant forall m :: 0 <= m < i ==> table[m] == Steps(Wide(ByteOf(m)), 8)
    {
      var crc := TableEntry(ByteOf(i));
      table[i] := crc;
      i := i + 1;
    }
  }

  method TableEntry(b: bv8) returns (crc: bv32)
    ensures crc == Steps(Wide(b), 8)
  {
    crc := Wide(b);
    var j := 0;
    while j < 8
      invariant 0 <= j <= 8 && Steps(crc, 8 - j) == Steps(Wide(b), 8)
    {
      ghost var before := crc;
      if crc & 1 != 0 {
        crc := (crc >> 1) ^ 0xedb88320;
      } else {
        crc := crc >> 1;
      }
      assert crc == BitStep(before);
      hide BitStep, Wide;
      j := j + 1;
    }
  }

  lemma {:induction false} RegisterConcat(c: bv32, a: seq<bv8>, b: seq<bv8>)
    ensures Register(c, a + b) == Register(Register(c, a), b)
    decreases |a|
  {
    hide Steps, Enter;
    if a == [] {
      assert a + b == b;
    } else {
      assert (a + b)[1..] == a[1..] + b;
      RegisterConcat(Steps(Enter(c, a[0]), 8), a[1..], b);
    }
  }

  lemma RegisterNext(c: bv32, data: seq<bv8>, i: nat)
    requires i < |data|
    ensures Register(c, data[..i + 1]) == Steps(Enter(Register(c, data[..i]), data[i]), 8)
  {
    hide Steps, Enter;
    assert data[..i + 1] == data[..i] + [data[i]];
    RegisterConcat(c, data[..i], [data[i]]);
    assert Register(Register(c, data[..i]), [data[i]])
        == Register(Steps(Enter(Register(c, data[..i]), data[i]), 8), []);
  }

  /** CRC32Update: the table-driven loop computes the bit-by-bit CRC. */
  method CRC32Update(crc: bv32, data: seq<bv8>) returns (r: bv32)
    ensures r == Crc(crc, data)
  {
    hide *;
    var table := MakeCRC32Table();
    r := Complement(crc);
    RegisterStart(Complement(crc), data);
    var i := 0;
    while i < |data|
      invariant 0 <= i <= |data| && r == Register(Complement(crc), data[..i])
      invariant forall m :: 0 <= m < 256 ==> table[m] == Steps(Wide(ByteOf(m)), 8)
    {
      RegisterNext(Complement(crc), data, i);
      ByteSteps(Enter(r, data[i]));
      EnterHigh(r, data[i]);
      var index := LowByte(Enter(r, data[i]));
      LowByteWide(Enter(r, data[i]));
      ByteIndex(index);
      r := Xor(table[index as nat], Shr8(r));
      i := i + 1;
    }
    r := Complement(r);
    CrcIs(crc, data);
  }

  lemma RegisterStart(c: bv32, data: seq<bv8>)
    ensures Register(c, data[..0]) == c
  {
  }

  lemma CrcIs(c: bv32, data: seq<bv8>)
    ensures Crc(c, data) == Complement(Register(Complement(c), data[..|data|]))
  {
    assert data[..|data|] == data;
  }

  lemma ComplementTwice(c: bv32)
    ensures Complement(Complement(c)) == c
  {
  }

  /** Chained updates are one update over the concatenation. */
  lemma Chained(c: bv32, a: seq<bv8>, b: seq<bv8>)
    ensures Crc(Crc(c, a), b) == Crc(c, a + b)
  {
    hide Register, Complement;
    ComplementTwice(Register(Complement(c), a));
    RegisterConcat(Complement(c), a, b);
  }

  // -------------------------------------------------------- single changed bytes

  lemma BitStepInjective(x: bv32, y: bv32)
    requires BitStep(x) == BitStep(y)
    ensures x == y
  {
  }

  lemma {:induction false} StepsInjective(x: bv32, y: bv32, n: nat)
    requires Steps(x, n) == Steps(y, n)
    ensures x == y
    decreases n
  {
    hide BitStep;
    if n > 0 {
      StepsInjective(BitStep(x), BitStep(y), n - 1);
      BitStepInjective(x, y);
    }
  }

  lemma EnterInjective(x: bv32, y: bv32, b: bv8, c: bv8)
    ensures Enter(x, b) == Enter(y, b) ==> x == y
    ensures Enter(x, b) == Enter(x, c) ==> b == c
  {
  }

  /** Each byte step loses nothing: different registers stay different. */
  lemma {:induction false} RegisterInjective(x: bv32, y: bv32, data: seq<bv8>)
    requires Register(x, data) == Register(y, data)
    ensures x == y
    decreases |data|
  {
    hide Steps, Enter;
    if data != [] {
      RegisterInjective(Steps(Enter(x, data[0]), 8), Steps(Enter(y, data[0]), 8), data[1..]);
      StepsInjective(Enter(x, data[0]), Enter(y, data[0]), 8);
      EnterInjective(x, y, data[0], data[0]);
    }
  }

  /** Changing any one byte of data of any length changes its CRC. */
  lemma ByteChanged(c: bv32, data: seq<bv8>, i: nat, b: bv8)
    requires i < |data| && b != data[i]
    ensures Crc(c, data[i := b]) != Crc(c, data)
  {
    hide Steps, Enter, Complement, Register;
    var r := Register(Complement(c), data[..i]);
    assert data == data[..i] + ([data[i]] + data[i + 1..]);
    assert data[i := b] == data[..i] + ([b] + data[i + 1..]);
    RegisterConcat(Complement(c), data[..i], [data[i]] + data[i + 1..]);
    RegisterConcat(Complement(c), data[..i], [b] + data[i + 1..]);
    FirstByte(r, data[i], data[i + 1..]);
    FirstByte(r, b, data[i + 1..]);
    ComplementTwice(Register(Complement(c), data));
    ComplementTwice(Register(Complement(c), data[i := b]));
    if Crc(c, data[i := b]) == Crc(c, data) {
      RegisterInjective(Steps(Enter(r, data[i]), 8), Steps(Enter(r, b), 8), data[i + 1..]);
      StepsInjective(Enter(r, data[i]), Enter(r, b), 8);
      EnterInjective(r, r, data[i], b);
    }
  }

  lemma FirstByte(c: bv32, b: bv8, rest: seq<bv8>)
    ensures Register(c, [b] + rest) == Register(Steps(Enter(c, b), 8), rest)
  {
    hide Steps, Enter;
    assert ([b] + rest)[1..] == rest;
  }

  // ---------------------------------------------------------- which CRC it is

  /** A byte step without recursion. */
  function Fed(c: bv32, b: bv8): bv32 {
    BitStep(BitStep(BitStep(BitStep(BitStep(BitStep(BitStep(BitStep(Enter(c, b)))))))))
  }

  lemma FedIs(c: bv32, b: bv8)
    ensures Steps(Enter(c, b), 8) == Fed(c, b)
  {
    hide BitStep, Enter;
    var x := Enter(c, b);
    var y := BitStep(BitStep(BitStep(BitStep(x))));
    assert Steps(x, 8) == Steps(BitStep(x), 7) == Steps(BitStep(BitStep(x)), 6);
    assert Steps(BitStep(BitStep(x)), 6) == Steps(BitStep(BitStep(BitStep(x))), 5) == Steps(y, 4);
    assert Steps(y, 4) == Steps(BitStep(y), 3) == Steps(BitStep(BitStep(y)), 2);
    assert Steps(BitStep(BitStep(y)), 2) == Steps(BitStep(BitStep(BitStep(y))), 1);
    assert Steps(BitStep(BitStep(BitStep(y))), 1) == Steps(BitStep(BitStep(BitStep(BitStep(y)))), 0);
  }

  lemma RegisterFed(c: bv32, data: seq<bv8>)
    requires data != []
    ensures Register(c, data) == Register(Fed(c, data[0]), data[1..])
  {
    hide Fed, Steps, Enter;
    FedIs(c, data[0]);
  }

  /** The check value of CRC-32: that of the nine digits "123456789". */
  lemma CheckValue()
    ensures Crc(0, [0x31, 0x32, 0x33, 0x34, 0x35, 0x36, 0x37, 0x38, 0x39]) == 0xcbf4_3926
  {
    var d: seq<bv8> := [0x31, 0x32, 0x33, 0x34, 0x35, 0x36, 0x37, 0x38, 0x39];
    FirstDigits();
    LastDigits();
    hide Register, Fed;
    assert Complement(0) == 0xffff_ffff && Complement(0x340b_c6d9) == 0xcbf4_3926;
    RegisterFed(0xffff_ffff, d);
    assert d[1..] == [0x32, 0x33, 0x34, 0x35, 0x36, 0x37, 0x38, 0x39];
    RegisterFed(0x7c23_1048, d[1..]);
    assert d[1..][1..] == d[2..];
    RegisterFed(0xb0ac_bb32, d[2..]);
    assert d[2..][1..] == d[3..];
    RegisterFed(0x77b7_9c2d, d[3..]);
    assert d[3..][1..] == d[4..];
    RegisterFed(0x641c_1f5c, d[4..]);
    assert d[4..][1..] == d[5..];
    RegisterFed(0x340a_c5e3, d[5..]);
    assert d[5..][1..] == d[6..];
    RegisterFed(0xf68d_2c9e, d[6..]);
    assert d[6..][1..] == d[7..];
    RegisterFed(0xaffc_9660, d[7..]);
    assert d[7..][1..] == d[8..];
    RegisterFed(0x651f_2550, d[8..]);
    assert d[8..][1..] == [];
    RegisterNone(0x340b_c6d9);
  }

  lemma RegisterNone(c: bv32)
    ensures Register(c, []) == c
  {
  }

  lemma FirstDigits()
    ensures Fed(0xffff_ffff, 0x31) == 0x7c23_1048 && Fed(0x7c23_1048, 0x32) == 0xb0ac_bb32
    ensures Fed(0xb0ac_bb32, 0x33) == 0x77b7_9c2d && Fed(0x77b7_9c2d, 0x34) == 0x641c_1f5c
    ensures Fed(0x641c_1f5c, 0x35) == 0x340a_c5e3
  {
  }

  lemma LastDigits()
    ensures Fed(0x340a_c5e3, 0x36) == 0xf68d_2c9e && Fed(0xf68d_2c9e, 0x37) == 0xaffc_9660
    ensures Fed(0xaffc_9660, 0x38) == 0x651f_2550 && Fed(0x651f_2550, 0x39) == 0x340b_c6d9
  {
  }

  function Shl8(x: bv32): bv32 { x << 8 }

  lemma HighClear(b: bv32)
    requires b & 0xff00_0000 == 0
    ensures Shl8(b) & 0xff == 0 && Shl8(b) >> 8 == b
  {
  }

  /** What enters behind eight steps may as well enter before them, eight bits higher. */
  lemma EnterEarlier(c: bv32, w: bv32)
    requires w & 0xff00_0000 == 0
    ensures Xor(Steps(c, 8), w) == Steps(Xor(c, Shl8(w)), 8)
  {
    hide BitStep, Xor, Shift, Steps, Clear, Shl8;
    HighClear(w);
    StepsXor(c, Shl8(w), 8);
    ClearByte(Shl8(w));
    ClearSteps(Shl8(w), 8);
  }

  function Eight(c: bv32): bv32 { Steps(c, 8) }

  lemma Earlier(c: bv32, w: bv32)
    requires w & 0xff00_0000 == 0
    ensures Xor(Eight(c), w) == Eight(Xor(c, Shl8(w)))
  {
    hide Xor, Steps, Shl8;
    EnterEarlier(c, w);
  }

  lemma EnterByte(c: bv32, b: bv8)
    ensures Steps(Enter(c, b), 8) == Eight(Xor(c, Wide(b)))
  {
  }

  lemma FourBytes(r: bv32, a: bv8, b: bv8, c: bv8, d: bv8)
    ensures Register(r, [a, b, c, d])
      == Eight(Xor(Eight(Xor(Eight(Xor(Eight(Xor(r, Wide(a))), Wide(b))), Wide(c))), Wide(d)))
  {
    hide Eight, Xor, Wide, Steps, Enter, Register;
    var r1 := Steps(Enter(r, a), 8);
    var r2 := Steps(Enter(r1, b), 8);
    var r3 := Steps(Enter(r2, c), 8);
    EnterByte(r, a);
    EnterByte(r1, b);
    EnterByte(r2, c);
    EnterByte(r3, d);
    assert [a, b, c, d] == [a] + [b, c, d] && [b, c, d] == [b] + [c, d] && [c, d] == [c] + [d] && [d] == [d] + [];
    FirstByte(r, a, [b, c, d]);
    FirstByte(r1, b, [c, d]);
    FirstByte(r2, c, [d]);
    FirstByte(r3, d, []);
    RegisterNone(Steps(Enter(r3, d), 8));
  }

  /** Four bytes are one word that enters at once. */
  lemma WordEnters(r: bv32, a: bv32, b: bv32, c: bv32, d: bv32)
    requires a & 0xffff_ff00 == b & 0xffff_ff00 == c & 0xffff_ff00 == d & 0xffff_ff00 == 0
    ensures Eight(Xor(Eight(Xor(Eight(Xor(Eight(Xor(r, a)), b)), c)), d))
      == Eight(Eight(Eight(Eight(Xor(Xor(Xor(Xor(r, a), Shl8(b)), Shl8(Shl8(c))), Shl8(Shl8(Shl8(d))))))))
  {
    NarrowShifts(b);
    NarrowShifts(c);
    NarrowShifts(d);
    hide Eight, Xor, Shl8;
    var x1 := Xor(r, a);
    var x2 := Xor(x1, Shl8(b));
    var x3 := Xor(x2, Shl8(Shl8(c)));
    Earlier(x1, b);
    Earlier(Eight(x2), c);
    Earlier(x2, Shl8(c));
    Earlier(Eight(Eight(x3)), d);
    Earlier(Eight(x3), Shl8(d));
    Earlier(x3, Shl8(Shl8(d)));
  }

  lemma NarrowShifts(b: bv32)
    requires b & 0xffff_ff00 == 0
    ensures b & 0xff00_0000 == 0 && Shl8(b) & 0xff00_0000 == 0 && Shl8(Shl8(b)) & 0xff00_0000 == 0
  {
  }

  lemma WordParts(r: bv32)
    ensures var w := Complement(r);
      var a, b, c, d := Wide(Part0(w)), Wide(Part1(w)), Wide(Part2(w)), Wide(Part3(w));
      && a & 0xffff_ff00 == b & 0xffff_ff00 == c & 0xffff_ff00 == d & 0xffff_ff00 == 0
      && Xor(Xor(Xor(Xor(r, a), Shl8(b)), Shl8(Shl8(c))), Shl8(Shl8(Shl8(d)))) == 0xffff_ffff
  {
  }

  lemma OnesOut()
    ensures Fed(0xffff_ffff, 0) == 0x2dfd_1072 && Fed(0x2dfd_1072, 0) == 0xbe26_ed00
    ensures Fed(0xbe26_ed00, 0) == 0xbe_26ed && Fed(0xbe_26ed, 0) == 0xdebb_20e3
  {
  }

  lemma EightFed(c: bv32)
    ensures Eight(c) == Fed(c, 0)
  {
    hide BitStep;
    FedIs(c, 0);
    assert Enter(c, 0) == c;
  }

  /** Whatever the data, the CRC over them and their own CRC, lowest byte first, is the residue
      of CRC-32. */
  lemma Residue(data: seq<bv8>)
    ensures Crc(0, data + CrcBytes(Crc(0, data))) == 0x2144_df1c
  {
    var r := Register(0xffff_ffff, data);
    var w := Complement(r);
    WordParts(r);
    OnesOut();
    hide Register, Fed, Eight, Part0, Part1, Part2, Part3, Wide, Xor, Shl8;
    assert Complement(0) == 0xffff_ffff && Complement(0xdebb_20e3) == 0x2144_df1c;
    RegisterConcat(0xffff_ffff, data, CrcBytes(w));
    FourBytes(r, Part0(w), Part1(w), Part2(w), Part3(w));
    WordEnters(r, Wide(Part0(w)), Wide(Part1(w)), Wide(Part2(w)), Wide(Part3(w)));
    EightFed(0xffff_ffff);
    EightFed(0x2dfd_1072);
    EightFed(0xbe26_ed00);
    EightFed(0xbe_26ed);
  }
}
