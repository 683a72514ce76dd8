/** The machine words behind routes and reps (Route and Rep of node_page.h): a 32-bit route
    word holds a byte index (13 bits), a bit operation (4 bits) and a left count (15 bits);
    a 64-bit rep word holds a position or a tagged page id. */
module Words {
  import opened Wrappers
  import opened Keys
  import opened Patricia
  import opened PageTree
  import opened NodePages
  import opened NodeStore
  import opened PageBuilder

  const BIT_OP: nat := 0x2000
  const LEFT_COUNT: nat := 0x20000
  const WORD: nat := 0x1_0000_0000
  const TERM_BIT_OP: nat := 8

  type Word = w: nat | w < WORD

  /** The three fields do not overlap, so or-ing them together is adding them, and masks and
      shifts take them apart again. */
  lemma FieldsApart(b: bv32, o: bv32, l: bv32)
    requires b < 0x2000 && o < 16 && l < 0x8000
    ensures var w := b | (o << 13) | (l << 17);
      && w == b + (o << 13) + (l << 17)
      && w & 0x1FFF == b && (w >> 13) & 0xF == o && w >> 17 == l
  {
  }

  /** Route::Make */
  function Make(diff: nat, leftCount: nat): Word
    requires diff <= MAX_DIFF && leftCount < 0x8000
  {
    diff / 9 + (if diff % 9 == 0 then TERM_BIT_OP else 8 - diff % 9) * BIT_OP + leftCount * LEFT_COUNT
  }

  function ByteIndex(w: Word): nat { w % BIT_OP }

  function BitOp(w: Word): (op: nat)
    ensures op < 16
  {
    w / BIT_OP % 16
  }

  function LeftCount(w: Word): nat { w / LEFT_COUNT }

  /** Route::diff */
  function DiffOf(w: Word): int {
    if BitOp(w) == TERM_BIT_OP then ByteIndex(w) * 9 else ByteIndex(w) * 9 + 8 - BitOp(w)
  }

  /** Route::bit: a set high bit of the operation means the presence bit. */
  function BitOf(w: Word, key: Key): bool {
    if ByteIndex(w) >= |key| then false
    else BitOp(w) / 8 == 1 || ShiftedBit(key[ByteIndex(w)], BitOp(w) % 8)
  }

  /** inc_left_count and dec_left_count, with 32-bit wrap-around. */
  function IncLeftCount(w: Word): Word { (w + LEFT_COUNT) % WORD }
  function DecLeftCount(w: Word): Word { (w + WORD - LEFT_COUNT) % WORD }

  lemma Fields(b: nat, o: nat, l: nat)
    requires b < BIT_OP && o < 16 && l < 0x8000
    ensures var w := b + o * BIT_OP + l * LEFT_COUNT;
      w < WORD && ByteIndex(w) == b && BitOp(w) == o && LeftCount(w) == l
  {
  }

  /** A packed route gives back what it was made of, and tests the very bit of its diff. */
  lemma MadeOf(diff: nat, leftCount: nat, key: Key)
    requires diff <= MAX_DIFF && leftCount < 0x8000
    ensures DiffOf(Make(diff, leftCount)) == diff && LeftCount(Make(diff, leftCount)) == leftCount
    ensures BitOf(Make(diff, leftCount), key) == GetDiffBit(key, diff) == Bit(key, diff)
  {
    hide ShiftedBit, Bit, ByteIndex, BitOp, LeftCount;
    Fields(diff / 9, if diff % 9 == 0 then TERM_BIT_OP else 8 - diff % 9, leftCount);
    GetDiffBitIsBit(key, diff);
  }

  /** Counting in place touches no other field. */
  lemma CountInPlace(diff: nat, leftCount: nat)
    requires diff <= MAX_DIFF && leftCount < 0x8000
    ensures leftCount + 1 < 0x8000 ==> IncLeftCount(Make(diff, leftCount)) == Make(diff, leftCount + 1)
    ensures leftCount > 0 ==> DecLeftCount(Make(diff, leftCount)) == Make(diff, leftCount - 1)
  {
  }

  /** Every route of every page fits into its word: diffs stay below 2^16 and left counts
      below the page size. */
  lemma {:induction false} RoutesFit(t: Tree, k: Records, j: nat)
    requires Readable(t, k) && j < Count(t) - 1
    ensures Routes(t)[j].diff <= 65528 && 0 < Routes(t)[j].leftCount < Count(t)
  {
    NodeRoute(t, j);
    if j == 0 {
      DiffFits(t, k);
    } else if j < Count(t.left) {
      RoutesFit(t.left, k, j - 1);
    } else {
      RoutesFit(t.right, k, j - Count(t.left));
    }
  }

  lemma DiffFits(t: Tree, k: Records)
    requires Readable(t, k) && t.Node?
    ensures t.diff <= 65528
  {
    var p, q := First(t.left), First(t.right);
    assert p in All(t) && q in All(t);
    PartedLess(All(t.left), All(t.right), t.diff, k, p, q);
    FirstDiffUnique(k[p], k[q], t.diff);
    DiffSmall(k[p], k[q]);
  }

  /** Packing loses nothing on the pages of a readable tree. */
  lemma RoutesPack(t: Tree, k: Records, j: nat)
    requires Readable(t, k) && Count(t) <= MAX_NODE_REPS && j < Count(t) - 1
    ensures var r := Routes(t)[j];
      && r.diff <= MAX_DIFF && r.leftCount < 0x8000
      && DiffOf(Make(r.diff, r.leftCount)) == r.diff && LeftCount(Make(r.diff, r.leftCount)) == r.leftCount
  {
    hide Make, DiffOf, LeftCount;
    RoutesFit(t, k, j);
    MadeOf(Routes(t)[j].diff, Routes(t)[j].leftCount, []);
  }

  // -------------------------------------------------------------------------- reps

  const REP_WORD: nat := 0x1_0000_0000_0000_0000

  type RepWord = w: nat | w < REP_WORD

  /** MakeRecord and MakeChild: the top bit is the child tag, so neither takes a value that
      has it set. */
  function MakeRep(rep: Rep): (r: Result<RepWord>)
    ensures r.Err? <==> (match rep case Record(p) => p >= CHILD_TAG case Child(id) => id >= CHILD_TAG)
  {
    match rep
    case Record(p) => if p >= CHILD_TAG then Err(PositionTag) else Ok(p)
    case Child(id) => if id >= CHILD_TAG then Err(PositionTag) else Ok(CHILD_TAG + id)
  }

  function RepOfWord(w: RepWord): Rep {
    if w >= CHILD_TAG then Child(w - CHILD_TAG) else Record(w)
  }

  lemma RepRoundTrip(rep: Rep, w: RepWord)
    ensures MakeRep(rep).Ok? ==> RepOfWord(MakeRep(rep).value) == rep
    ensures MakeRep(RepOfWord(w)) == Ok(w)
  {
  }
}
