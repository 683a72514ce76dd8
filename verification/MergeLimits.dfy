/** A child page that a deletion left small is joined with a neighbour once, and not again: when
    the joined page is still small beside a page it fits with. */
module MergeLimits {
  import opened Wrappers
  import opened Keys
  import opened Patricia
  import opened PageTree
  import opened NodePages
  import opened Paging
  import opened Shrinking

  // ------------------------------------------------------------ exactly when

  /** Where the child in this slot is after the page above was settled without absorbing it. */
  ghost function SettledSlot(s: Tree, slot: nat): nat {
    if s.Sub? && slot < Count(s.body) && LeafAt(s.body, slot).Sub?
      && Count(LeafAt(s.body, slot).body) < SMALL_PAGE && CanMerge(s, slot) && !MergesRight(s, slot)
    then slot - 1 else slot
  }

  /** A small child page beside a page that it could be joined with. */
  ghost predicate SmallAndJoinable(s: Tree, slot: nat) {
    && s.Sub? && slot < Count(s.body) && LeafAt(s.body, slot).Sub?
    && Count(LeafAt(s.body, slot).body) < SMALL_PAGE && CanMerge(s, slot)
  }

  /** The slots p and p + 1 with the one at q on either side are one part of the page, all three
      hold child pages, and these have at most as many slots as fit into one. */
  ghost predicate ThreeFit(s: Tree, p: nat, q: int) {
    && s.Sub? && (q == p + 2 || q == p - 1) && 0 <= q < Count(s.body) && p + 1 < Count(s.body)
    && LeafAt(s.body, p).Sub? && LeafAt(s.body, p + 1).Sub? && LeafAt(s.body, q).Sub?
    && IsPart(s.body, if q < p then q else p, 3)
    && PairSize(s, p) + Count(LeafAt(s.body, q).body) <= MAX_NODE_REPS
  }

  ghost function PairSize(s: Tree, p: nat): nat
    requires s.Sub? && p + 1 < Count(s.body) && LeafAt(s.body, p).Sub? && LeafAt(s.body, p + 1).Sub?
  {
    Count(LeafAt(s.body, p).body) + Count(LeafAt(s.body, p + 1).body)
  }

  /** A deletion leaves a small page beside one that it fits with exactly when it just joined two
      pages with fewer than ten slots in all, and the three pages are a part of the page above
      and fit into one. */
  lemma SmallAgain(s: Tree, slot: nat)
    requires s.Sub? && slot < Count(s.body) && LeafAt(s.body, slot).Sub?
    requires Count(s.body) - 1 + Count(LeafAt(s.body, slot).body) > MAX_NODE_REPS
    ensures var p := SettledSlot(s, slot);
      SmallAndJoinable(Settled(s, slot), p) <==>
      SmallAndJoinable(s, slot) && PairSize(s, p) < 10 && (ThreeFit(s, p, p + 2) || ThreeFit(s, p, p - 1))
  {
    hide Settled, Joinable, JoinedPair, MergesRight, ThreeFit;
    SettledIs(s, slot);
    MergedIs(s, slot);
    if SmallAndJoinable(s, slot) {
      var p := SettledSlot(s, slot);
      JoinedSlots(s, p);
      JoinableAgain(s, p);
    }
  }

  lemma JoinedSlots(s: Tree, p: nat)
    requires Joinable(s, p)
    ensures s.Sub? && p + 1 < Count(s.body) && LeafAt(s.body, p).Sub? && LeafAt(s.body, p + 1).Sub?
    ensures var t := JoinedPair(s, p);
      t.Sub? && p < Count(t.body) && LeafAt(t.body, p).Sub? && Count(LeafAt(t.body, p).body) == PairSize(s, p)
  {
    JoinedLeaf(s, p);
  }

  lemma JoinableAgain(s: Tree, p: nat)
    requires Joinable(s, p)
    ensures Joinable(JoinedPair(s, p), p) <==> ThreeFit(s, p, p + 2)
    ensures p > 0 && Joinable(JoinedPair(s, p), p - 1) <==> ThreeFit(s, p, p - 1)
  {
    hide IsPart, DirectPair;
    JoinedPairIs(s, p);
    JoinedLeaf(s, p);
    var b, joined := s.body, Sub(LeafAt(s.body, p).id, Joined(s.body, p));
    SwapBeside(b, p, joined);
    PairAgain(b, p, joined);
    if IsPart(b, p, 3) {
      PartBounds(b, p, 3);
    }
  }

  /** The slots beside an exchanged pair. */
  lemma {:induction false} SwapBeside(t: Tree, p: nat, s: Tree)
    requires IsPart(t, p, 2) && !s.Node?
    ensures p + 2 <= Count(t)
    ensures p + 2 < Count(t) ==> LeafAt(Swap(t, p, 2, s), p + 1) == LeafAt(t, p + 2)
    ensures p > 0 ==> LeafAt(Swap(t, p, 2, s), p - 1) == LeafAt(t, p - 1)
  {
    hide IsPart, Swap, Rest, Part, Views, Fits, Reps, Diffs;
    PartBounds(t, p, 2);
    if !(p == 0 && Count(t) == 2) {
      var left := PartStep(t, p, 2);
      var t2 := Swap(t, p, 2, s);
      if left {
        assert t2 == Node(t.diff, Swap(t.left, p, 2, s), t.right);
        SwapBeside(t.left, p, s);
      } else {
        var at := p - Count(t.left);
        assert t2 == Node(t.diff, t.left, Swap(t.right, at, 2, s));
        SwapBeside(t.right, at, s);
      }
    }
  }

  /** A slot in place of a direct pair is in a direct pair itself exactly when the pair and the
      slot beside it are a part. */
  lemma {:induction false} PairAgain(t: Tree, p: nat, s: Tree)
    requires IsPart(t, p, 2) && !s.Node?
    ensures p + 2 <= Count(t)
    ensures p + 2 < Count(t) && DirectPair(Swap(t, p, 2, s), p) <==> IsPart(t, p, 3)
    ensures p > 0 && DirectPair(Swap(t, p, 2, s), p - 1) <==> p > 0 && IsPart(t, p - 1, 3)
  {
    hide Swap, Rest, Part, Views, Fits, Reps, Diffs;
    PartBounds(t, p, 2);
    if !(p == 0 && Count(t) == 2) {
      var left := PartStep(t, p, 2);
      var t2 := Swap(t, p, 2, s);
      if left {
        assert t2 == Node(t.diff, Swap(t.left, p, 2, s), t.right);
        PairAgain(t.left, p, s);
      } else {
        var at := p - Count(t.left);
        assert t2 == Node(t.diff, t.left, Swap(t.right, at, 2, s));
        PairAgain(t.right, at, s);
      }
    }
  }

  // --------------------------------------------------------------- an index

  const STEPS: nat := 336

  function ZeroBytes(n: nat): (key: Key)
    ensures |key| == n
  {
    if n == 0 then [] else [0] + ZeroBytes(n - 1)
  }

  lemma {:induction false} BitBehind(n: nat, a: Key, i: nat)
    ensures Bit(ZeroBytes(n) + a, 9 * n + i) == Bit(a, i)
  {
    if n > 0 {
      BitBehind(n - 1, a, i);
      assert (ZeroBytes(n) + a)[1..] == ZeroBytes(n - 1) + a;
    } else {
      assert ZeroBytes(0) + a == a;
    }
  }

  lemma {:induction false} BitBefore(n: nat, a: Key, b: Key, i: nat)
    requires i < 9 * n
    ensures Bit(ZeroBytes(n) + a, i) == Bit(ZeroBytes(n) + b, i)
  {
    assert (ZeroBytes(n) + a)[1..] == ZeroBytes(n - 1) + a;
    assert (ZeroBytes(n) + b)[1..] == ZeroBytes(n - 1) + b;
    if i >= 9 {
      BitBefore(n - 1, a, b, i - 9);
    }
  }

  lemma {:induction false} ZerosOnZeros(m: nat, n: nat)
    ensures ZeroBytes(m) + ZeroBytes(n) == ZeroBytes(m + n)
  {
    if m > 0 {
      ZerosOnZeros(m - 1, n);
    }
  }

  /** A key of n zeros parts from every longer key that starts with them at bit 9 * n. */
  lemma LongerParts(n: nat, a: Key)
    requires a != []
    ensures FirstDiff(ZeroBytes(n), ZeroBytes(n) + a, 9 * n) && !Bit(ZeroBytes(n), 9 * n)
  {
    var key, longer := ZeroBytes(n), ZeroBytes(n) + a;
    assert key + [] == key;
    BitBehind(n, [], 0);
    BitBehind(n, a, 0);
    forall i: nat | i < 9 * n ensures Bit(key, i) == Bit(longer, i) {
      BitBefore(n, [], a, i);
    }
  }

  /** The last bytes of the keys in the three child pages. */
  const TAILS: seq<bv8> := [0, 1, 4, 5, 6, 8, 9]

  /** Position p holds p zeros, and the seven behind hold 336 zeros and one more byte. */
  function StepKey(p: nat): Key
    requires p < STEPS + 7
  {
    if p < STEPS then ZeroBytes(p) else ZeroBytes(STEPS) + [TAILS[p - STEPS]]
  }

  function StepKeys(n: nat): (k: Records)
    requires n <= STEPS + 7
    ensures forall p: nat :: p in k <==> p < n
    ensures forall p :: p in k ==> k[p] == StepKey(p)
  {
    if n == 0 then map[] else StepKeys(n - 1)[n - 1 := StepKey(n - 1)]
  }

  lemma StepParts(n: nat, q: nat)
    requires n < STEPS && n < q < STEPS + 7
    ensures FirstDiff(StepKey(n), StepKey(q), 9 * n) && !Bit(StepKey(n), 9 * n) && Bit(StepKey(q), 9 * n)
  {
    if q < STEPS {
      ZerosOnZeros(n, q - n);
      LongerParts(n, ZeroBytes(q - n));
    } else {
      ZerosOnZeros(n, STEPS - n);
      var rest := ZeroBytes(STEPS - n) + [TAILS[q - STEPS]];
      assert StepKey(q) == ZeroBytes(n) + rest;
      LongerParts(n, rest);
    }
  }

  const BITS: nat := 9 * STEPS

  lemma TailBits(i: nat)
    requires i < 7
    ensures var key := [TAILS[i]];
      && Bit(key, 0) && !Bit(key, 1) && !Bit(key, 2) && !Bit(key, 3) && !Bit(key, 4)
      && Bit(key, 5) == (i >= 5) && Bit(key, 6) == (2 <= i <= 4) && Bit(key, 7) == (i == 4)
      && Bit(key, 8) == (i == 1 || i == 3 || i == 6)
  {
    var b := TAILS[i];
    assert b == 0 || b == 1 || b == 4 || b == 5 || b == 6 || b == 8 || b == 9;
  }

  /** Two of the last keys that have the same bits up to d in their last byte. */
  lemma TailsPart(i: nat, j: nat, d: nat)
    requires i < 7 && j < 7 && d < 9 && Bit([TAILS[j]], d) && !Bit([TAILS[i]], d)
    requires forall n: nat :: n < d ==> Bit([TAILS[i]], n) == Bit([TAILS[j]], n)
    ensures FirstDiff(StepKey(STEPS + i), StepKey(STEPS + j), BITS + d)
    ensures !Bit(StepKey(STEPS + i), BITS + d)
  {
    hide Bit;
    var a, b := [TAILS[i]], [TAILS[j]];
    var key, key2 := StepKey(STEPS + i), StepKey(STEPS + j);
    forall n: nat | n < BITS + d ensures Bit(key, n) == Bit(key2, n) {
      if n < BITS {
        BitBefore(STEPS, a, b, n);
      } else {
        BitBehind(STEPS, a, n - BITS);
        BitBehind(STEPS, b, n - BITS);
      }
    }
    BitBehind(STEPS, a, d);
    BitBehind(STEPS, b, d);
  }

  /** Two of the last records. */
  function Two(i: nat): (t: Tree)
    ensures t.Node? && Count(t) == 2 && All(t) == {STEPS + i, STEPS + i + 1}
  {
    Node(BITS + 8, Rec(STEPS + i), Rec(STEPS + i + 1))
  }

  /** The page that a record is deleted from. */
  function Middle(): (t: Tree)
    ensures t.Node? && Count(t) == 3 && All(t) == {STEPS + 2, STEPS + 3, STEPS + 4}
  {
    Node(BITS + 7, Two(2), Rec(STEPS + 4))
  }

  /** Three slots: the first two are a direct pair, and this is one with the third. */
  function Three(a: Tree, b: Tree, c: Tree): Tree {
    Node(BITS + 5, Node(BITS + 6, a, b), c)
  }

  /** One record for each number of zeros from n up to 335, above t. */
  function Ladder(n: nat, t: Tree): (r: Tree)
    requires n <= STEPS
    ensures Count(r) == STEPS - n + Count(t)
    decreases STEPS - n
  {
    if n == STEPS then t else Node(9 * n, Rec(n), Ladder(n + 1, t))
  }

  // ------------------------------------------------------------ its contents

  lemma {:induction false} LadderValid(n: nat, t: Tree, k: Records)
    requires n <= STEPS && k == StepKeys(STEPS + 7) && Valid(t, k)
    requires forall p :: p in All(t) ==> STEPS <= p < STEPS + 7
    ensures Valid(Ladder(n, t), k)
    ensures forall p :: p in All(Ladder(n, t)) ==> n <= p < STEPS + 7
    decreases STEPS - n
  {
    hide Bit, StepKey, StepKeys, FirstDiff, Parted;
    if n < STEPS {
      LadderValid(n + 1, t, k);
      StepParted(n, All(Ladder(n + 1, t)), k);
    }
  }

  lemma StepParted(n: nat, rest: set<Position>, k: Records)
    requires n < STEPS && k == StepKeys(STEPS + 7)
    requires forall q :: q in rest ==> n < q < STEPS + 7
    ensures Parted({n}, rest, 9 * n, k) && n in k
  {
    hide Bit, StepKey;
    forall q | q in rest ensures Agree(k[n], k[q], 9 * n) && !Bit(k[n], 9 * n) && Bit(k[q], 9 * n) {
      StepParts(n, q);
    }
    StepParts(n, STEPS);
  }

  lemma {:induction false} LadderPaged(n: nat, t: Tree)
    requires n <= STEPS && WellPaged(t)
    ensures WellPaged(Ladder(n, t)) && Views(Ladder(n, t)) == Views(t)
    decreases STEPS - n
  {
    if n < STEPS {
      LadderPaged(n + 1, t);
    }
  }

  lemma {:induction false} LadderSlot(n: nat, t: Tree, j: nat, s: Tree)
    requires n <= STEPS && j < Count(t)
    ensures LeafAt(Ladder(n, t), STEPS - n + j) == LeafAt(t, j)
    ensures SetLeaf(Ladder(n, t), STEPS - n + j, s) == Ladder(n, SetLeaf(t, j, s))
    decreases STEPS - n
  {
    if n < STEPS {
      LadderSlot(n + 1, t, j, s);
    }
  }

  /** Where a key leads that starts with 336 zeros. */
  lemma {:induction false} LadderFind(n: nat, t: Tree, key: Key)
    requires n <= STEPS && forall m :: n <= m < STEPS ==> Bit(key, 9 * m)
    ensures Find(Ladder(n, t), key) == STEPS - n + Find(t, key) && Best(Ladder(n, t), key) == Best(t, key)
    decreases STEPS - n
  {
    hide Bit;
    if n < STEPS {
      LadderFind(n + 1, t, key);
    }
  }

  lemma {:induction false} LadderPair(n: nat, t: Tree, j: nat, s: Tree)
    requires n <= STEPS && j + 1 < Count(t)
    ensures DirectPair(Ladder(n, t), STEPS - n + j) == DirectPair(t, j)
    ensures Diffs(Ladder(n, t))[STEPS - n + j] == Diffs(t)[j]
    ensures IsPart(t, j, 2) ==> IsPart(Ladder(n, t), STEPS - n + j, 2)
    ensures IsPart(t, j, 2) ==> Swap(Ladder(n, t), STEPS - n + j, 2, s) == Ladder(n, Swap(t, j, 2, s))
    decreases STEPS - n
  {
    hide Bit, Diffs, LeafAt;
    if n < STEPS {
      var rest, at := Ladder(n + 1, t), STEPS - n - 1 + j;
      LadderPair(n + 1, t, j, s);
      NodeDiff(Ladder(n, t), at + 1);
      if IsPart(t, j, 2) {
        assert IsPart(rest, at, 2) && IsPart(Ladder(n, t), at + 1, 2);
      }
    }
  }

  /** Bit d parts the last keys from lo up to mid from those up to hi. */
  predicate Parting(lo: nat, mid: nat, hi: nat, d: nat) {
    (lo, mid, hi, d) in {(0, 5, 7, 5), (0, 2, 5, 6), (2, 4, 5, 7), (0, 1, 2, 8), (2, 3, 4, 8), (5, 6, 7, 8)}
  }

  lemma TailPair(lo: nat, mid: nat, hi: nat, d: nat, p: nat, q: nat)
    requires Parting(lo, mid, hi, d) && STEPS + lo <= p < STEPS + mid && STEPS + mid <= q < STEPS + hi
    ensures Agree(StepKey(p), StepKey(q), BITS + d)
    ensures !Bit(StepKey(p), BITS + d) && Bit(StepKey(q), BITS + d)
  {
    hide Bit, StepKey;
    var i, j := p - STEPS, q - STEPS;
    var a, b := [TAILS[i]], [TAILS[j]];
    TailBits(i);
    TailBits(j);
    assert forall n: nat :: n < d ==> Bit(a, n) == Bit(b, n);
    TailsPart(i, j, d);
  }

  lemma TailsParted(lo: nat, mid: nat, hi: nat, d: nat, a: set<Position>, b: set<Position>, k: Records)
    requires Parting(lo, mid, hi, d) && k == StepKeys(STEPS + 7)
    requires forall p :: p in a ==> STEPS + lo <= p < STEPS + mid
    requires forall q :: q in b ==> STEPS + mid <= q < STEPS + hi
    ensures Parted(a, b, BITS + d, k)
  {
    hide Bit, StepKey, Agree, StepKeys;
    forall p | p in a ensures p in k && !Bit(k[p], BITS + d) {
      TailPair(lo, mid, hi, d, p, STEPS + mid);
    }
    forall q | q in b ensures q in k && Bit(k[q], BITS + d) {
      TailPair(lo, mid, hi, d, STEPS + lo, q);
    }
    forall p, q | p in a && q in b ensures p in k && q in k && Agree(k[p], k[q], BITS + d) {
      TailPair(lo, mid, hi, d, p, q);
    }
  }

  lemma TwoValid(i: nat, k: Records)
    requires i in {0, 2, 5} && k == StepKeys(STEPS + 7)
    ensures Valid(Two(i), k) && WellPaged(Two(i)) && Views(Two(i)) == map[]
  {
    hide Parted, StepKeys, StepKey;
    var one := Rec(STEPS + i);
    TailsParted(i, i + 1, if i == 0 then 2 else i + 2, 8, {STEPS + i}, {STEPS + i + 1}, k);
    assert All(one) == {STEPS + i} && WellPaged(one) && Views(one) == map[];
    OneMore(BITS + 8, one, STEPS + i + 1, k);
  }

  lemma MiddleValid(k: Records)
    requires k == StepKeys(STEPS + 7)
    ensures Valid(Middle(), k) && WellPaged(Middle()) && Views(Middle()) == map[]
  {
    hide *;
    MiddleIs();
    TwoValid(2, k);
    TailsParted(2, 4, 5, 7, All(Two(2)), {STEPS + 4}, k);
    OneMore(BITS + 7, Two(2), STEPS + 4, k);
  }

  lemma MiddleIs()
    ensures Middle() == Node(BITS + 7, Two(2), Rec(STEPS + 4)) && Parting(2, 4, 5, 7)
  {
  }

  lemma OneMore(d: nat, t: Tree, p: Position, k: Records)
    requires Valid(t, k) && WellPaged(t) && Views(t) == map[] && Parted(All(t), {p}, d, k) && p in k
    ensures Valid(Node(d, t, Rec(p)), k) && WellPaged(Node(d, t, Rec(p))) && Views(Node(d, t, Rec(p))) == map[]
  {
  }

  /** The slots of the three child pages. */
  function ChildPages(middle: Tree): Tree {
    Three(Sub(1, Two(0)), Sub(2, middle), Sub(3, Two(5)))
  }

  lemma ThreeValid(a: Tree, b: Tree, c: Tree, k: Records)
    requires k == StepKeys(STEPS + 7) && Valid(a, k) && Valid(b, k) && Valid(c, k)
    requires All(a) == All(Two(0)) && All(b) == All(Middle()) && All(c) == All(Two(5))
    ensures Valid(Three(a, b, c), k)
    ensures forall p :: p in All(Three(a, b, c)) ==> STEPS <= p < STEPS + 7
  {
    hide *;
    var l := Node(BITS + 6, a, b);
    PartingOuter();
    TailsParted(0, 2, 5, 6, All(a), All(b), k);
    TwoSides(BITS + 6, a, b, k);
    TailsParted(0, 5, 7, 5, All(l), All(c), k);
    TwoSides(BITS + 5, l, c, k);
    ThreeIs(a, b, c);
  }

  lemma TwoSides(d: nat, l: Tree, r: Tree, k: Records)
    ensures All(Node(d, l, r)) == All(l) + All(r)
    ensures Valid(l, k) && Valid(r, k) && Parted(All(l), All(r), d, k) ==> Valid(Node(d, l, r), k)
  {
  }

  lemma ThreeIs(a: Tree, b: Tree, c: Tree)
    ensures Three(a, b, c) == Node(BITS + 5, Node(BITS + 6, a, b), c)
  {
  }

  lemma PartingOuter()
    ensures Parting(0, 2, 5, 6) && Parting(0, 5, 7, 5)
  {
  }

  lemma ThreePaged(a: Tree, b: Tree, c: Tree)
    requires WellPaged(a) && WellPaged(b) && WellPaged(c)
    requires Views(a).Keys == {1} && Views(b).Keys == {2} && Views(c).Keys == {3}
    ensures WellPaged(Three(a, b, c)) && 0 !in Views(Three(a, b, c))
  {
    var l := Node(BITS + 6, a, b);
    assert Views(l).Keys == {1, 2} && Distinct(l) && Fits(l);
  }

  lemma OnePaged(id: nat, b: Tree)
    requires WellPaged(b) && Views(b) == map[] && Count(b) <= MAX_NODE_REPS
    ensures WellPaged(Sub(id, b)) && Views(Sub(id, b)).Keys == {id}
  {
  }

  lemma ThreeSlots(a: Tree, b: Tree, c: Tree)
    requires !a.Node? && !b.Node? && !c.Node?
    ensures var t := Three(a, b, c);
      && Count(t) == 3 && LeafAt(t, 0) == a && LeafAt(t, 1) == b && LeafAt(t, 2) == c
      && DirectPair(t, 0) && !DirectPair(t, 1) && IsPart(t, 0, 2) && Diffs(t)[0] == BITS + 6
  {
    var l := Node(BITS + 6, a, b);
    assert Count(l) == 2 && LeafAt(l, 0) == a && LeafAt(l, 1) == b && DirectPair(l, 0) && IsPart(l, 0, 2);
    assert Diffs(a) == [] && Diffs(b) == [];
    assert Diffs(l) == [BITS + 6];
  }

  lemma ThreeChanged(a: Tree, b: Tree, c: Tree, s: Tree)
    requires !a.Node? && !b.Node? && !c.Node? && !s.Node?
    ensures Count(Three(a, b, c)) == 3 && SetLeaf(Three(a, b, c), 1, s) == Three(a, s, c)
    ensures IsPart(Three(a, b, c), 0, 2) && Swap(Three(a, b, c), 0, 2, s) == Node(BITS + 5, s, c)
  {
    var l := Node(BITS + 6, a, b);
    assert Count(l) == 2 && IsPart(l, 0, 2) && SetLeaf(l, 1, s) == Node(BITS + 6, a, s) && Swap(l, 0, 2, s) == s;
  }

  /** The root page: 336 records and the three child pages. */
  function StepIndex(middle: Tree): Tree {
    Sub(0, Ladder(0, ChildPages(middle)))
  }

  lemma StepSlots(middle: Tree)
    ensures var b := Ladder(0, ChildPages(middle));
      && Count(b) == STEPS + 3 && LeafAt(b, STEPS) == Sub(1, Two(0)) && LeafAt(b, STEPS + 1) == Sub(2, middle)
      && LeafAt(b, STEPS + 2) == Sub(3, Two(5)) && DirectPair(b, STEPS) && !DirectPair(b, STEPS + 1)
      && Diffs(b)[STEPS] == BITS + 6
  {
    hide Ladder, Two, LeafAt, DirectPair, Diffs, Count, SetLeaf, Swap, IsPart, Three;
    var t := ChildPages(middle);
    ThreeSlots(Sub(1, Two(0)), Sub(2, middle), Sub(3, Two(5)));
    LadderSlot(0, t, 0, t);
    LadderSlot(0, t, 1, t);
    LadderSlot(0, t, 2, t);
    LadderPair(0, t, 0, t);
    LadderPair(0, t, 1, t);
  }

  lemma StepIndexValid(k: Records)
    requires k == StepKeys(STEPS + 7)
    ensures Valid(StepIndex(Middle()), k) && WellPaged(StepIndex(Middle()))
  {
    hide StepKeys, StepKey, Ladder, Middle, Two, Three, Valid, WellPaged, Views, All, Count;
    var t := ChildPages(Middle());
    InPage(1, Two(0), k);
    InPage(2, Middle(), k);
    InPage(3, Two(5), k);
    InPage(0, Ladder(0, t), k);
    TwoValid(0, k);
    MiddleValid(k);
    TwoValid(5, k);
    ThreeValid(Sub(1, Two(0)), Sub(2, Middle()), Sub(3, Two(5)), k);
    OnePaged(1, Two(0));
    OnePaged(2, Middle());
    OnePaged(3, Two(5));
    ThreePaged(Sub(1, Two(0)), Sub(2, Middle()), Sub(3, Two(5)));
    LadderValid(0, t, k);
    LadderPaged(0, t);
    StepSlots(Middle());
  }

  lemma InPage(id: nat, b: Tree, k: Records)
    ensures Valid(Sub(id, b), k) == Valid(b, k) && All(Sub(id, b)) == All(b)
    ensures WellPaged(b) && id !in Views(b) && Count(b) <= MAX_NODE_REPS ==> WellPaged(Sub(id, b))
  {
  }

  /** The bits of the key to be deleted. */
  lemma MiddleBits(key: Key)
    requires key == StepKey(STEPS + 4)
    ensures !Bit(key, BITS + 5) && Bit(key, BITS + 6) && Bit(key, BITS + 7)
    ensures forall m :: 0 <= m < STEPS ==> Bit(key, 9 * m)
  {
    hide Bit;
    var a := [TAILS[4]];
    TailBits(4);
    BitBehind(STEPS, a, 5);
    BitBehind(STEPS, a, 6);
    BitBehind(STEPS, a, 7);
    forall m | 0 <= m < STEPS ensures Bit(key, 9 * m) {
      StepParts(m, STEPS + 4);
    }
  }

  lemma ThreeFound(a: Tree, b: Tree, c: Tree, key: Key)
    requires !Bit(key, BITS + 5) && Bit(key, BITS + 6) && !a.Node? && !b.Node?
    ensures Find(Three(a, b, c), key) == 1 && Best(Three(a, b, c), key) == Best(b, key)
  {
    hide Bit;
  }

  lemma MiddleShrinks(id: nat, key: Key)
    requires Bit(key, BITS + 7)
    ensures Removed(Sub(id, Middle()), key) == Some(Sub(id, Two(2))) && Best(Middle(), key) == STEPS + 4
  {
    hide Bit, Two, Settled;
  }

  /** A record goes from the second of three child pages below a ladder. */
  lemma ThreeRemoved(id: nat, n: nat, a: Tree, b: Tree, c: Tree, below: Tree, key: Key)
    requires n <= STEPS && a.Sub? && b.Sub? && c.Sub? && Removed(b, key) == Some(below) && below.Sub?
    requires !Bit(key, BITS + 5) && Bit(key, BITS + 6) && forall m :: n <= m < STEPS ==> Bit(key, 9 * m)
    ensures var l := Ladder(n, Three(a, below, c));
      && STEPS - n + 1 < Count(l) && LeafAt(l, STEPS - n + 1).Sub?
      && Removed(Sub(id, Ladder(n, Three(a, b, c))), key) == Some(Settled(Sub(id, l), STEPS - n + 1))
  {
    hide Bit, Settled, Ladder, Three, Find, LeafAt, SetLeaf, Count, Removed;
    var t, l := Three(a, b, c), Ladder(n, Three(a, b, c));
    ThreeFound(a, b, c, key);
    ThreeSlots(a, b, c);
    ThreeChanged(a, b, c, below);
    LadderFind(n, t, key);
    LadderSlot(n, t, 1, below);
    BelowShrinks(Sub(id, l), key, STEPS - n + 1, below, Ladder(n, Three(a, below, c)));
  }

  lemma MiddleRemoved(key: Key)
    requires !Bit(key, BITS + 5) && Bit(key, BITS + 6) && Bit(key, BITS + 7)
    requires forall m :: 0 <= m < STEPS ==> Bit(key, 9 * m)
    ensures var w := StepIndex(Two(2));
      && w.Sub? && STEPS + 1 < Count(w.body) && LeafAt(w.body, STEPS + 1).Sub?
      && Removed(StepIndex(Middle()), key) == Some(Settled(w, STEPS + 1))
    ensures Best(StepIndex(Middle()), key) == STEPS + 4
  {
    hide Bit, Settled, Ladder, Two, Middle, Three, Find, LeafAt, SetLeaf, Count, Removed, Best;
    var a, b, c := Sub(1, Two(0)), Sub(2, Middle()), Sub(3, Two(5));
    MiddleShrinks(2, key);
    ThreeRemoved(0, 0, a, b, c, Sub(2, Two(2)), key);
    ThreeFound(a, b, c, key);
    LadderFind(0, Three(a, b, c), key);
    BestBelow(0, Ladder(0, Three(a, b, c)), key);
    BestBelow(2, Middle(), key);
  }

  lemma BestBelow(id: nat, b: Tree, key: Key)
    ensures Best(Sub(id, b), key) == Best(b, key)
  {
  }

  lemma BelowShrinks(s: Tree, key: Key, i: nat, below: Tree, b: Tree)
    requires s.Sub? && i < Count(s.body) && i == Find(s.body, key) && LeafAt(s.body, i).Sub?
    requires Removed(LeafAt(s.body, i), key) == Some(below) && b == SetLeaf(s.body, i, below)
    ensures i < Count(b) && LeafAt(b, i).Sub? && Removed(s, key) == Some(Settled(Sub(s.id, b), i))
  {
    hide Settled;
    LeafSet(s.body, i, below);
  }

  /** The index with the joined pages in it. */
  function Joins(): Tree {
    Sub(0, Ladder(0, Node(BITS + 5, FirstTwo(), Sub(3, Two(5)))))
  }

  function FirstTwo(): Tree {
    Sub(1, Node(BITS + 6, Two(0), Two(2)))
  }

  lemma StepsJoined()
    ensures Joinable(StepIndex(Two(2)), STEPS) && JoinedPair(StepIndex(Two(2)), STEPS) == Joins()
  {
    hide Ladder, Two, LeafAt, DirectPair, Diffs, Count, SetLeaf, Swap, IsPart, Three, JoinedPair;
    StepSlots(Two(2));
    var a, b, c := Sub(1, Two(0)), Sub(2, Two(2)), Sub(3, Two(5));
    ThreeChanged(a, b, c, FirstTwo());
    LadderPair(0, ChildPages(Two(2)), 0, FirstTwo());
    JoinedPairIs(StepIndex(Two(2)), STEPS);
  }

  lemma MiddleJoined()
    ensures var w := StepIndex(Two(2));
      && w.Sub? && STEPS + 1 < Count(w.body) && LeafAt(w.body, STEPS + 1).Sub? && Settled(w, STEPS + 1) == Joins()
  {
    hide Ladder, Two, LeafAt, DirectPair, Diffs, Count, SetLeaf, Swap, IsPart, Three, JoinedPair, Joins;
    var w := StepIndex(Two(2));
    StepSlots(Two(2));
    StepsJoined();
    assert Count(Sub(2, Two(2)).body) == 2;
  }

  lemma JoinsSmall()
    ensures SmallAndJoinable(Joins(), STEPS)
  {
    hide Ladder, Two, Count, SmallAndJoinable;
    NodeCount(FirstTwo().body);
    LadderSmall(0, 0, BITS + 5, FirstTwo(), Sub(3, Two(5)));
  }

  lemma LadderSmall(id: nat, n: nat, d: nat, a: Tree, b: Tree)
    requires n <= STEPS && a.Sub? && b.Sub? && Count(a.body) < 10 && Count(b.body) < 10
    ensures SmallAndJoinable(Sub(id, Ladder(n, Node(d, a, b))), STEPS - n)
  {
    hide Ladder, DirectPair, LeafAt, SmallAndJoinable, Count;
    var t := Node(d, a, b);
    LeafOne(a);
    LeafOne(b);
    NodeCount(t);
    NodeLeaf(t, 0);
    NodeLeaf(t, 1);
    LadderSlot(n, t, 0, t);
    LadderSlot(n, t, 1, t);
    LadderPair(n, t, 0, t);
    OnePair(d, a, b);
    SmallPair(Sub(id, Ladder(n, t)), STEPS - n, a, b);
  }

  lemma OnePair(d: nat, a: Tree, b: Tree)
    requires !a.Node? && !b.Node?
    ensures DirectPair(Node(d, a, b), 0)
  {
  }

  lemma SmallPair(s: Tree, p: nat, a: Tree, b: Tree)
    requires s.Sub? && p + 1 < Count(s.body) && LeafAt(s.body, p) == a && LeafAt(s.body, p + 1) == b
    requires a.Sub? && b.Sub? && DirectPair(s.body, p) && Count(a.body) < 10 && Count(b.body) < 10
    ensures SmallAndJoinable(s, p)
  {
  }

  /** Three child pages in a full page: of the second, one of three records is deleted. It is joined
      with the first, and the page of four slots stays beside the third, which has two. */
  lemma SmallBesideFitting()
    ensures var w, k, key := StepIndex(Middle()), StepKeys(STEPS + 7), StepKey(STEPS + 4);
      && Valid(w, k) && WellPaged(w) && key in Contents(w, k)
      && DeletePages(w, key) == Some(Joins()) && SmallAndJoinable(Joins(), STEPS)
  {
    hide Bit, Settled, Removed, SmallAndJoinable, StepKeys, StepKey, Ladder, Contents, Valid;
    var w, k, key := StepIndex(Middle()), StepKeys(STEPS + 7), StepKey(STEPS + 4);
    StepIndexValid(k);
    MiddleBits(key);
    MiddleRemoved(key);
    MiddleJoined();
    JoinsSmall();
    BestExact(w, k, key);
  }
}
