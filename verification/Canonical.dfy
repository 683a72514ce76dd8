/** The keys alone decide the tree: among sorted keys the smallest neighbouring diff is
    unique, so editing routes in place and rebuilding them from the keys must agree. */
module Canonical {
  import opened Keys
  import opened Patricia
  import opened PageTree
  import opened Cartesian
  import opened Alignment
  import opened Search
  import opened Sequences

  /** Of three keys in order, the diffs of the two neighbouring pairs differ, and the smaller
      one is the diff of the outer pair. */
  lemma MiddleKey(a: Key, b: Key, c: Key)
    requires Less(a, b) && Less(b, c)
    ensures a != b && b != c && a != c
    ensures Diff(a, b) != Diff(b, c)
    ensures Diff(a, c) == if Diff(a, b) < Diff(b, c) then Diff(a, b) else Diff(b, c)
  {
    hide Less, Diff, Bit;
    LessTotal(a, b);
    LessTotal(b, c);
    LessTransitive(a, b, c);
    LessTotal(a, c);
    DiffIsFirst(a, b);
    DiffIsFirst(b, c);
    FirstDiffUnique(a, c, if Diff(a, b) < Diff(b, c) then Diff(a, b) else Diff(b, c));
  }

  ghost predicate SortedRun(keys: seq<Key>) {
    forall i, j :: 0 <= i < j < |keys| ==> Less(keys[i], keys[j])
  }

  lemma RunDistinct(keys: seq<Key>, i: nat, j: nat)
    requires SortedRun(keys) && i < j < |keys|
    ensures keys[i] != keys[j]
  {
    LessTotal(keys[i], keys[j]);
  }

  /** The diff between neighbouring keys of a sorted run. */
  ghost function Gap(keys: seq<Key>, n: nat): nat
    requires SortedRun(keys) && n + 1 < |keys|
  {
    RunDistinct(keys, n, n + 1);
    Diff(keys[n], keys[n + 1])
  }

  /** The diff between two keys of a sorted run is the smallest of the neighbouring diffs
      between them, and only one of these is that small. */
  lemma {:induction false} UniqueMinimum(keys: seq<Key>, i: nat, j: nat) returns (m: nat)
    requires SortedRun(keys) && i < j < |keys|
    ensures i <= m < j && keys[i] != keys[j] && Diff(keys[i], keys[j]) == Gap(keys, m)
    ensures forall n: nat :: i <= n < j && n != m ==> Gap(keys, m) < Gap(keys, n)
    decreases j
  {
    hide Less, Diff, SortedRun, Gap;
    RunDistinct(keys, i, j);
    GapIs(keys, j - 1);
    if j == i + 1 {
      m := i;
    } else {
      var m0 := UniqueMinimum(keys, i, j - 1);
      InOrder(keys, i, j);
      MiddleKey(keys[i], keys[j - 1], keys[j]);
      m := if Diff(keys[i], keys[j - 1]) < Diff(keys[j - 1], keys[j]) then m0 else j - 1;
    }
  }

  lemma GapIs(keys: seq<Key>, n: nat)
    requires SortedRun(keys) && n + 1 < |keys|
    ensures keys[n] != keys[n + 1] && Gap(keys, n) == Diff(keys[n], keys[n + 1])
  {
    RunDistinct(keys, n, n + 1);
  }

  lemma InOrder(keys: seq<Key>, i: nat, j: nat)
    requires SortedRun(keys) && i + 1 < j < |keys|
    ensures Less(keys[i], keys[j - 1]) && Less(keys[j - 1], keys[j])
  {
  }

  // --------------------------------------------------------- one tree for the keys

  /** A node tests the first bit at which the first and the last key below it differ. */
  lemma NodeTests(t: Tree, k: Records)
    requires Valid(t, k) && t.Node?
    ensures First(t) in k && Last(t) in k && FirstDiff(k[First(t)], k[Last(t)], t.diff)
  {
    PartedLess(All(t.left), All(t.right), t.diff, k, First(t), Last(t));
    ValidRecords(t, k);
  }

  /** The left side is as long as the tested bit is clear. */
  lemma SideLengths(t1: Tree, t2: Tree, k: Records)
    requires Valid(t1, k) && Valid(t2, k) && t1.Node? && t2.Node? && t1.diff == t2.diff && Flat(t1) == Flat(t2)
    ensures |Flat(t1.left)| <= |Flat(t2.left)|
  {
    hide BitAt;
    SideBits(t1, k);
    SideBits(t2, k);
    var n: nat := |Flat(t2.left)|;
    var bit := BitAt(Flat(t1), k, t1.diff, n);
  }

  /** Key i of the order has the bit d set. */
  ghost predicate BitAt(order: seq<Position>, k: Records, d: nat, i: nat) {
    i < |order| && order[i] in k && Bit(k[order[i]], d)
  }

  lemma SideBits(t: Tree, k: Records)
    requires Valid(t, k) && t.Node?
    ensures forall i: nat :: i < |Flat(t)| ==> (BitAt(Flat(t), k, t.diff, i) <==> i >= |Flat(t.left)|)
    ensures |Flat(t.left)| < |Flat(t)|
  {
    FlatIsAll(t.left);
    FlatIsAll(t.right);
  }

  /** Two valid trees without page boundaries over the same records are the same tree: the
      shape of the index does not depend on how it came about. */
  lemma {:induction false} HistoryFree(t1: Tree, t2: Tree, k: Records)
    requires Valid(t1, k) && Valid(t2, k) && Flat(t1) == Flat(t2)
    ensures Erase(t1) == Erase(t2)
    decreases t1, t2
  {
    if t1.Sub? {
      HistoryFree(t1.body, t2, k);
    } else if t2.Sub? {
      HistoryFree(t1, t2.body, k);
    } else if t1.Node? && t2.Node? {
      NodeTests(t1, k);
      NodeTests(t2, k);
      FirstDiffUnique(k[First(t1)], k[Last(t1)], t1.diff);
      FirstDiffUnique(k[First(t2)], k[Last(t2)], t2.diff);
      SideLengths(t1, t2, k);
      SideLengths(t2, t1, k);
      CutConcat(Flat(t1.left), Flat(t1.right));
      CutConcat(Flat(t2.left), Flat(t2.right));
      HistoryFree(t1.left, t2.left, k);
      HistoryFree(t1.right, t2.right, k);
    } else {
      BothLeaves(t1, t2);
    }
  }

  lemma BothLeaves(t1: Tree, t2: Tree)
    requires Flat(t1) == Flat(t2) && !t1.Sub? && !t2.Sub? && (t1.Rec? || t2.Rec?)
    ensures t1 == t2
  {
    NodeLong(t1);
    NodeLong(t2);
  }

  lemma NodeLong(t: Tree)
    ensures t.Node? ==> |Flat(t)| >= 2
  {
  }

  // ---------------------------------------------------- in place against rebuilding

  /** Every page of a valid tree has the routes that rebuilding writes for its slots: the
      Cartesian tree of the first differences between the keys around each gap. */
  lemma RoutesAreRebuilt(t: Tree, k: Records)
    requires Valid(t, k)
    ensures Routes(t) == CartRoutes(Diffs(t), 0, |Diffs(t)|)
    ensures forall i :: 0 <= i < Count(t) - 1 ==> GapDiff(t, k, i)
  {
    ValidRising(t, k);
    RoutesAreCart(t);
    forall i | 0 <= i < Count(t) - 1 ensures GapDiff(t, k, i) {
      AdjacentDiff(t, k, i);
    }
  }

  /** Diff i of the page is the first difference of the keys next to the gap. */
  ghost predicate GapDiff(t: Tree, k: Records, i: nat)
    requires i < Count(t) - 1
  {
    var a, b := Last(LeafAt(t, i)), First(LeafAt(t, i + 1));
    a in k && b in k && FirstDiff(k[a], k[b], Diffs(t)[i])
  }

  /** Insertion in place refines rebuilding. */
  lemma InsertIsRebuild(t: Tree, k: Records, key: Key, diff: nat, pos: Position)
    requires Valid(t, k) && Fresh(t, k, key, diff, pos)
    requires StopsHere(t, key, diff) || LeafAt(t, Find(t, key)).Rec?
    ensures var t2 := InsertHere(t, key, diff, pos);
      && Valid(t2, k) && Routes(t2) == CartRoutes(Diffs(t2), 0, |Diffs(t2)|)
      && (forall i :: 0 <= i < Count(t2) - 1 ==> GapDiff(t2, k, i))
  {
    InsertIsHere(t, key, diff, pos);
    InsertValid(t, k, key, diff, pos);
    RoutesAreRebuilt(InsertHere(t, key, diff, pos), k);
  }

  lemma {:induction false} DeleteHereValid(t: Tree, k: Records, i: nat)
    requires Valid(t, k) && i < Count(t) && Count(t) > 1
    ensures Valid(DeleteHere(t, i), k) && All(DeleteHere(t, i)) <= All(t)
  {
    var Node(d, l, r) := t;
    if i < Count(l) {
      if Count(l) > 1 {
        DeleteHereValid(l, k, i);
      }
    } else if Count(r) > 1 {
      DeleteHereValid(r, k, i - Count(l));
    }
  }

  /** Deletion in place refines rebuilding, and takes out the larger of the two diffs that
      border the slot. */
  lemma DeleteIsRebuild(t: Tree, k: Records, i: nat)
    requires Valid(t, k) && i < Count(t) && Count(t) > 1
    ensures var t2 := DeleteHere(t, i);
      && Valid(t2, k) && Routes(t2) == CartRoutes(Diffs(t2), 0, |Diffs(t2)|)
      && (forall j :: 0 <= j < Count(t2) - 1 ==> GapDiff(t2, k, j))
      && Reps(t2) == Reps(t)[..i] + Reps(t)[i + 1..]
      && Diffs(t2) == Diffs(t)[..DeleteDiff(t, i)] + Diffs(t)[DeleteDiff(t, i) + 1..]
    ensures 0 < i < Count(t) - 1 ==>
      DeleteDiff(t, i) == if Diffs(t)[i - 1] < Diffs(t)[i] then i else i - 1
  {
    hide Diffs, Reps, Routes, Valid;
    ValidRising(t, k);
    DeleteHereValid(t, k, i);
    RoutesAreRebuilt(DeleteHere(t, i), k);
    DeleteReps(t, i);
    DeleteDiffs(t, i);
    DeleteDropsLarger(t, i);
  }
}
