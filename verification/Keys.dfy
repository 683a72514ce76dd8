/** Keys as bit strings (diff.h).

    A key of n bytes is read as an infinite bit string with nine bits a byte: a
    presence bit that is 1 while the byte exists, then the eight bits of the byte,
    most significant first; after the last byte every bit is 0. Two keys are
    compared by the first index at which these strings differ. */
module Keys {
  import opened Wrappers

  type Key = seq<bv8>

  const MAX_DIFF: nat := 65535
  const MAX_KEY_SIZE: nat := MAX_DIFF / 9

  datatype CompareDiff = CompareDiff(compare: int, diff: nat)

  /** The low bit of b shifted right by n. */
  function ShiftedBit(b: bv8, n: nat): bool
    requires n < 8
  {
    if n == 0 then b & 1 == 1
    else if n == 1 then (b >> 1) & 1 == 1
    else if n == 2 then (b >> 2) & 1 == 1
    else if n == 3 then (b >> 3) & 1 == 1
    else if n == 4 then (b >> 4) & 1 == 1
    else if n == 5 then (b >> 5) & 1 == 1
    else if n == 6 then (b >> 6) & 1 == 1
    else (b >> 7) & 1 == 1
  }

  /** GetDiffBit of node_page.h. */
  function GetDiffBit(key: Key, diff: nat): bool {
    var byteIdx := diff / 9;
    var bitIdx := diff % 9;
    if bitIdx == 0 then
      byteIdx < |key|
    else if byteIdx >= |key| then
      false
    else
      ShiftedBit(key[byteIdx], 8 - bitIdx)
  }

  /** The same bit string, read off the key byte by byte. */
  function Bit(key: Key, i: nat): bool
    decreases |key|
  {
    if key == [] then false
    else if i == 0 then true
    else if i < 9 then ShiftedBit(key[0], 8 - i)
    else Bit(key[1..], i - 9)
  }

  lemma {:induction false} GetDiffBitIsBit(key: Key, i: nat)
    ensures GetDiffBit(key, i) == Bit(key, i)
    decreases |key|
  {
    if key != [] && i >= 9 {
      GetDiffBitIsBit(key[1..], i - 9);
      assert (i - 9) / 9 == i / 9 - 1 && (i - 9) % 9 == i % 9;
    }
  }

  /** The two encodings agree on every bit below n. */
  ghost predicate Agree(a: Key, b: Key, n: nat) {
    forall i: nat :: i < n ==> Bit(a, i) == Bit(b, i)
  }

  /** n is the first index at which the encodings differ. */
  ghost predicate FirstDiff(a: Key, b: Key, n: nat) {
    Agree(a, b, n) && Bit(a, n) != Bit(b, n)
  }

  /** Byte-wise lexicographic order, a proper prefix first. */
  predicate Less(a: Key, b: Key) {
    if b == [] then false
    else if a == [] then true
    else if a[0] == b[0] then Less(a[1..], b[1..])
    else a[0] < b[0]
  }

  /** Leading zero bits of a byte. */
  function LeadingZeros(v: bv8): (n: nat)
    ensures n <= 8 && (v != 0 ==> n < 8)
  {
    if v & 0x80 != 0 then 0
    else if v & 0x40 != 0 then 1
    else if v & 0x20 != 0 then 2
    else if v & 0x10 != 0 then 3
    else if v & 0x08 != 0 then 4
    else if v & 0x04 != 0 then 5
    else if v & 0x02 != 0 then 6
    else if v & 0x01 != 0 then 7
    else 8
  }

  /** The first differing index, found byte by byte. */
  function Diff(a: Key, b: Key): nat
    requires a != b
  {
    if a == [] || b == [] then 0
    else if a[0] == b[0] then 9 + Diff(a[1..], b[1..])
    else 1 + LeadingZeros(a[0] ^ b[0])
  }

  /** Two different bytes: the bit after the common leading bits decides the order. */
  lemma ByteDiff(x: bv8, y: bv8)
    requires x != y
    ensures x ^ y != 0 && LeadingZeros(x ^ y) < 8
    ensures var n := LeadingZeros(x ^ y);
      && (forall s: nat :: 7 - n < s < 8 ==> ShiftedBit(x, s) == ShiftedBit(y, s))
      && ShiftedBit(x, 7 - n) != ShiftedBit(y, 7 - n)
      && (x < y <==> ShiftedBit(y, 7 - n))
  {
    assert x ^ y != 0;
    var n := LeadingZeros(x ^ y);
    forall s: nat | 7 - n < s < 8 ensures ShiftedBit(x, s) == ShiftedBit(y, s) {
    }
  }

  /** Diff is the first index where the encodings differ, and the bit there orders the keys. */
  lemma {:induction false} DiffIsFirst(a: Key, b: Key)
    requires a != b
    ensures FirstDiff(a, b, Diff(a, b))
    ensures Less(a, b) <==> Bit(b, Diff(a, b))
    decreases |a|
  {
    if a != [] && b != [] {
      if a[0] == b[0] {
        TailsDiffer(a, b);
        DiffIsFirst(a[1..], b[1..]);
        BitOfTail(a, b, Diff(a[1..], b[1..]));
      } else {
        DiffInFirstByte(a, b);
      }
    }
  }

  lemma TailsDiffer(a: Key, b: Key)
    requires a != b && a != [] && b != [] && a[0] == b[0]
    ensures a[1..] != b[1..]
  {
    assert a == [a[0]] + a[1..] && b == [b[0]] + b[1..];
  }

  lemma DiffInFirstByte(a: Key, b: Key)
    requires a != [] && b != [] && a[0] != b[0]
    ensures FirstDiff(a, b, Diff(a, b)) && (Less(a, b) <==> Bit(b, Diff(a, b)))
  {
    hide *;
    ByteDiff(a[0], b[0]);
    HeadDecides(a, b);
    BitsOfFirstByte(a, b, LeadingZeros(a[0] ^ b[0]));
  }

  lemma HeadDecides(a: Key, b: Key)
    requires a != [] && b != [] && a[0] != b[0]
    ensures Diff(a, b) == LeadingZeros(a[0] ^ b[0]) + 1 && (Less(a, b) <==> a[0] < b[0])
  {
    hide LeadingZeros;
  }

  lemma BitsOfFirstByte(a: Key, b: Key, n: nat)
    requires a != [] && b != [] && n < 8
    requires forall s: nat :: 7 - n < s < 8 ==> ShiftedBit(a[0], s) == ShiftedBit(b[0], s)
    requires ShiftedBit(a[0], 7 - n) != ShiftedBit(b[0], 7 - n)
    ensures FirstDiff(a, b, n + 1) && Bit(b, n + 1) == ShiftedBit(b[0], 7 - n)
  {
    hide ShiftedBit;
    forall i: nat | i < n + 1 ensures Bit(a, i) == Bit(b, i) {
    }
  }

  lemma BitOfTail(a: Key, b: Key, n: nat)
    requires a != [] && b != [] && a[0] == b[0]
    requires FirstDiff(a[1..], b[1..], n)
    ensures FirstDiff(a, b, n + 9)
    ensures Bit(b, n + 9) == Bit(b[1..], n)
  {
    forall i: nat | i < n + 9 ensures Bit(a, i) == Bit(b, i) {
      if i >= 9 {
        assert Bit(a[1..], i - 9) == Bit(b[1..], i - 9);
      }
    }
    assert Bit(a, n + 9) == Bit(a[1..], n) && Bit(b, n + 9) == Bit(b[1..], n);
  }

  lemma {:induction false} DiffBound(a: Key, b: Key)
    requires a != b
    ensures Diff(a, b) < 9 * |a| || Diff(a, b) < 9 * |b|
    decreases |a|
  {
    if a != [] && b != [] {
      if a[0] == b[0] {
        assert a == [a[0]] + a[1..] && b == [b[0]] + b[1..];
        DiffBound(a[1..], b[1..]);
      } else {
        ByteDiff(a[0], b[0]);
      }
    }
  }

  /** A first difference is unique, symmetric, and separates different keys. */
  lemma FirstDiffUnique(a: Key, b: Key, n: nat)
    requires FirstDiff(a, b, n)
    ensures a != b && Diff(a, b) == n
    ensures FirstDiff(b, a, n)
  {
    DiffIsFirst(a, b);
  }

  predicate CheckKeySize(key: Key): (ok: bool)
    ensures ok <==> |key| <= 7281
  {
    |key| <= MAX_KEY_SIZE
  }

  /** memcmp over two runs of bytes of the same length. */
  function Memcmp(a: Key, b: Key): (r: int)
    requires |a| == |b|
    ensures r == 0 <==> a == b
    ensures r < 0 <==> Less(a, b)
    ensures r > 0 <==> Less(b, a)
  {
    if a == [] then 0
    else if a[0] < b[0] then -1
    else if a[0] > b[0] then 1
    else
      assert a == [a[0]] + a[1..] && b == [b[0]] + b[1..];
      Memcmp(a[1..], b[1..])
  }

  /** CompareKeys: -1, 0 or 1 as a sorts before, at or after b. */
  function CompareKeys(a: Key, b: Key): (r: int)
    ensures r == 0 <==> a == b
    ensures r < 0 <==> Less(a, b)
    ensures r > 0 <==> Less(b, a)
  {
    var n := if |a| < |b| then |a| else |b|;
    var cmp := Memcmp(a[..n], b[..n]);
    PrefixDecides(a, b, n);
    if cmp < 0 then -1
    else if cmp > 0 then 1
    else if |a| < |b| then -1
    else if |a| > |b| then 1
    else 0
  }

  lemma {:induction false} PrefixDecides(a: Key, b: Key, n: nat)
    requires n <= |a| && n <= |b|
    ensures a[..n] == b[..n] ==> Less(a, b) == Less(a[n..], b[n..]) && Less(b, a) == Less(b[n..], a[n..])
    ensures a[..n] != b[..n] ==> Less(a, b) == Less(a[..n], b[..n]) && Less(b, a) == Less(b[..n], a[..n])
    ensures a == b <==> a[..n] == b[..n] && a[n..] == b[n..]
  {
    assert a == a[..n] + a[n..] && b == b[..n] + b[n..];
    if n > 0 {
      PrefixDecides(a[1..], b[1..], n - 1);
      assert a[..n] == [a[0]] + a[1..][..n-1] && b[..n] == [b[0]] + b[1..][..n-1];
      assert a[1..][n-1..] == a[n..] && b[1..][n-1..] == b[n..];
    } else {
      assert a[0..] == a && b[0..] == b;
    }
  }

  lemma {:induction false} LessTotal(a: Key, b: Key)
    ensures !(Less(a, b) && Less(b, a))
    ensures a == b <==> !Less(a, b) && !Less(b, a)
    decreases |a|
  {
    if a != [] && b != [] && a[0] == b[0] {
      assert a == [a[0]] + a[1..] && b == [b[0]] + b[1..];
      LessTotal(a[1..], b[1..]);
    }
  }

  lemma {:induction false} LessTransitive(a: Key, b: Key, c: Key)
    requires Less(a, b) && Less(b, c)
    ensures Less(a, c)
    decreases |a|
  {
    if a != [] && a[0] == b[0] == c[0] {
      LessTransitive(a[1..], b[1..], c[1..]);
    }
  }

  method CountLeadingZeroBits8(value: bv8) returns (leading: nat)
    requires value != 0
    ensures leading == LeadingZeros(value)
  {
    leading := 0;
    var mask: bv8 := 0x80;
    while value & mask == 0
      invariant leading < 8 && leading <= LeadingZeros(value)
      invariant leading == 0 ==> mask == 0x80
      invariant leading == 1 ==> mask == 0x40
      invariant leading == 2 ==> mask == 0x20
      invariant leading == 3 ==> mask == 0x10
      invariant leading == 4 ==> mask == 0x08
      invariant leading == 5 ==> mask == 0x04
      invariant leading == 6 ==> mask == 0x02
      invariant leading == 7 ==> mask == 0x01
      decreases 8 - leading
    {
      leading := leading + 1;
      mask := mask >> 1;
    }
  }

  /** CompareAndDiffBit: the error cases, and otherwise the sign of the comparison with
      the first differing bit of the two encodings. */
  method CompareAndDiffBit(a: Key, b: Key) returns (r: Result<CompareDiff>)
    ensures r == Err(KeyTooLarge) <==> |a| > MAX_KEY_SIZE || |b| > MAX_KEY_SIZE
    ensures r == Err(EqualKeys) <==> |a| <= MAX_KEY_SIZE && |b| <= MAX_KEY_SIZE && a == b
    ensures r.Ok? <==> |a| <= MAX_KEY_SIZE && |b| <= MAX_KEY_SIZE && a != b
    ensures r.Ok? ==> FirstDiff(a, b, r.value.diff) && r.value.diff <= 65528
    ensures r.Ok? ==> r.value.compare == (if Less(a, b) then -1 else 1)
  {
    if !CheckKeySize(a) {
      return Err(KeyTooLarge);
    }
    if !CheckKeySize(b) {
      return Err(KeyTooLarge);
    }
    hide *;
    var n := if |a| < |b| then |a| else |b|;
    var i := 0;
    while i < n && a[i] == b[i]
      invariant 0 <= i <= n
      invariant a[..i] == b[..i]
    {
      i := i + 1;
    }
    if i == n && |a| == |b| {
      return Err(EqualKeys);
    }
    AfterCommonPrefix(a, b, i);
    if i == n {
      if |a| < |b| {
        return Ok(CompareDiff(-1, i * 9));
      }
      return Ok(CompareDiff(1, i * 9));
    }
    var leading := CountLeadingZeroBits8(a[i] ^ b[i]);
    if a[i] < b[i] {
      return Ok(CompareDiff(-1, i * 9 + leading + 1));
    }
    return Ok(CompareDiff(1, i * 9 + leading + 1));
  }

  /** At the end of the common prefix the comparison is decided. */
  lemma AfterCommonPrefix(a: Key, b: Key, i: nat)
    requires i <= |a| <= MAX_KEY_SIZE && i <= |b| <= MAX_KEY_SIZE && a[..i] == b[..i]
    requires i == |a| || i == |b| || a[i] != b[i]
    requires !(i == |a| && i == |b|)
    ensures a != b
    ensures var d := if i == |a| || i == |b| then i * 9 else i * 9 + LeadingZeros(a[i] ^ b[i]) + 1;
      FirstDiff(a, b, d) && d <= 65528
    ensures Less(a, b) <==> i == |a| || (i < |b| && a[i] < b[i])
    ensures i < |a| && i < |b| ==> a[i] ^ b[i] != 0
  {
    var x, y := a[i..], b[i..];
    assert x != y by {
      if i < |a| && i < |b| {
        assert x[0] != y[0];
      } else {
        assert |x| != |y|;
      }
    }
    SkipCommonPrefix(a, b, i);
    DiffIsFirst(a, b);
    DiffSmall(a, b);
    hide FirstDiff, Bit, ShiftedBit, LeadingZeros;
    if i < |a| && i < |b| {
      assert a[i] ^ b[i] != 0 by { ByteDiff(a[i], b[i]); }
    }
  }

  /** Diffs of keys of legal size fit in 16 bits. */
  lemma DiffSmall(a: Key, b: Key)
    requires a != b && |a| <= MAX_KEY_SIZE && |b| <= MAX_KEY_SIZE
    ensures Diff(a, b) <= 65528
  {
    DiffBound(a, b);
  }

  /** Comparison and difference look only past a common prefix. */
  lemma {:induction false} SkipCommonPrefix(a: Key, b: Key, i: nat)
    requires i <= |a| && i <= |b| && a[..i] == b[..i]
    ensures Less(a, b) == Less(a[i..], b[i..]) && Less(b, a) == Less(b[i..], a[i..])
    ensures a[i..] != b[i..] ==> a != b && Diff(a, b) == 9 * i + Diff(a[i..], b[i..])
    decreases i
  {
    PrefixDecides(a, b, i);
    if i == 0 {
      assert a[0..] == a && b[0..] == b;
    } else {
      assert a[0] == a[..i][0] == b[..i][0] == b[0];
      assert a[1..][..i-1] == a[..i][1..] == b[..i][1..] == b[1..][..i-1];
      SkipCommonPrefix(a[1..], b[1..], i - 1);
      assert a[1..][i-1..] == a[i..] && b[1..][i-1..] == b[i..];
    }
  }
}
