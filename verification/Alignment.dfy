/** Why local page structure is right: tested bits rise downwards, and the diffs of a page
    are the first differences of the keys around them. */
module Alignment {
  import opened Keys
  import opened Patricia
  import opened PageTree
  import opened Cartesian

  /** All keys below t agree on the first n bits. */
  ghost predicate Common(t: Tree, k: Records, n: nat) {
    forall p, q :: p in All(t) && q in All(t) ==> p in k && q in k && Agree(k[p], k[q], n)
  }

  lemma {:induction false} DiffsAbove(t: Tree, k: Records, n: nat)
    requires Valid(t, k) && Common(t, k, n)
    ensures forall e :: e in Diffs(t) ==> n <= e
  {
    match t
    case Node(d, l, r) =>
      DiffsAbove(l, k, n);
      DiffsAbove(r, k, n);
      var p, q := First(l), First(r);
      assert p in All(t) && q in All(t);
      assert !Bit(k[p], d) && Bit(k[q], d);
      assert n <= d;
    case _ =>
  }

  lemma SidesCommon(t: Tree, k: Records)
    requires Valid(t, k) && t.Node?
    ensures Valid(t.left, k) && Valid(t.right, k)
    ensures Common(t.left, k, t.diff + 1) && Common(t.right, k, t.diff + 1)
  {
    ValidRecords(t, k);
    forall p, q | p in All(t.left) && q in All(t.left) ensures Agree(k[p], k[q], t.diff + 1) {
      AgreeWithin(t, k, p, q);
    }
    forall p, q | p in All(t.right) && q in All(t.right) ensures Agree(k[p], k[q], t.diff + 1) {
      AgreeWithin(t, k, p, q);
    }
  }

  /** Tested bits strictly increase on the way down: the minimum of every range is unique. */
  lemma {:induction false} ValidRising(t: Tree, k: Records)
    requires Valid(t, k)
    ensures Rising(t)
  {
    match t
    case Node(d, l, r) =>
      ValidRising(l, k);
      ValidRising(r, k);
      SidesCommon(t, k);
      DiffsAbove(l, k, d + 1);
      DiffsAbove(r, k, d + 1);
    case _ =>
  }

  /** The diffs that border slot i are below e. */
  ghost predicate Bordered(t: Tree, i: nat, e: nat)
    requires i < Count(t)
  {
    (i > 0 ==> Diffs(t)[i - 1] < e) && (i < Count(t) - 1 ==> Diffs(t)[i] < e)
  }

  lemma BorderedUp(t: Tree, i: nat, e: nat)
    requires t.Node? && i < Count(t) && t.diff < e
    requires if i < Count(t.left) then Bordered(t.left, i, e) else Bordered(t.right, i - Count(t.left), e)
    ensures Bordered(t, i, e)
  {
    hide Diffs;
    if i > 0 {
      NodeDiff(t, i - 1);
    }
    if i < Count(t) - 1 {
      NodeDiff(t, i);
    }
  }

  lemma LeafSide(t: Tree, i: nat)
    requires t.Node? && i < Count(t)
    ensures LeafAt(t, i) == if i < Count(t.left) then LeafAt(t.left, i) else LeafAt(t.right, i - Count(t.left))
  {
  }

  /** Alignment: every diff inside a child page, however deep, is greater than the diffs
      that border its slot in the parent page. */
  lemma {:induction false} ChildAligned(t: Tree, k: Records, i: nat, e: nat)
    requires Valid(t, k) && i < Count(t) && e in Diffs(Erase(LeafAt(t, i)))
    ensures Bordered(t, i, e)
  {
    match t
    case Node(d, l, r) =>
      hide Valid, Common, Diffs, Erase, LeafAt, Bordered;
      SidesCommon(t, k);
      LeafSide(t, i);
      var side := if i < Count(l) then l else r;
      var j := if i < Count(l) then i else i - Count(l);
      LeafCommon(side, k, j, d + 1);
      ErasedCommon(LeafAt(side, j), k, d + 1);
      DiffsAbove(Erase(LeafAt(side, j)), k, d + 1);
      ChildAligned(side, k, j, e);
      BorderedUp(t, i, e);
    case _ =>
  }

  lemma ErasedCommon(t: Tree, k: Records, n: nat)
    requires Valid(t, k) && Common(t, k, n)
    ensures Valid(Erase(t), k) && Common(Erase(t), k, n)
  {
    EraseKeeps(t, k);
  }

  lemma {:induction false} LeafCommon(t: Tree, k: Records, i: nat, n: nat)
    requires Valid(t, k) && Common(t, k, n) && i < Count(t)
    ensures Valid(LeafAt(t, i), k) && Common(LeafAt(t, i), k, n) && All(LeafAt(t, i)) <= All(t)
  {
    match t
    case Node(_, l, r) =>
      if i < Count(l) {
        LeafCommon(l, k, i, n);
      } else {
        LeafCommon(r, k, i - Count(l), n);
      }
    case _ =>
  }

  lemma {:induction false} LeafValid(t: Tree, k: Records, i: nat)
    requires Valid(t, k) && i < Count(t)
    ensures Valid(LeafAt(t, i), k) && All(LeafAt(t, i)) <= All(t)
  {
    match t
    case Node(_, l, r) =>
      if i < Count(l) {
        LeafValid(l, k, i);
      } else {
        LeafValid(r, k, i - Count(l));
      }
    case _ =>
  }

  lemma {:induction false} EndLeaves(t: Tree)
    ensures First(LeafAt(t, 0)) == First(t) && Last(LeafAt(t, Count(t) - 1)) == Last(t)
  {
    match t
    case Node(_, l, r) => EndLeaves(l); EndLeaves(r);
    case _ =>
  }

  /** Diff i of a page is where the last key before slot boundary i and the first key after
      it part; both lie on the boundary caches of child pages. */
  lemma {:induction false} AdjacentDiff(t: Tree, k: Records, i: nat)
    requires Valid(t, k) && i < Count(t) - 1
    ensures var a, b := Last(LeafAt(t, i)), First(LeafAt(t, i + 1));
      a in k && b in k && FirstDiff(k[a], k[b], Diffs(t)[i]) && Less(k[a], k[b])
  {
    hide FirstDiff, Less, Agree;
    var Node(d, l, r) := t;
    NodeDiff(t, i);
    if i < Count(l) - 1 {
      AdjacentDiff(l, k, i);
    } else if i == Count(l) - 1 {
      EndLeaves(l);
      EndLeaves(r);
      PartedLess(All(l), All(r), d, k, Last(l), First(r));
      ValidRecords(t, k);
    } else {
      AdjacentDiff(r, k, i - Count(l));
    }
  }

  /** Deleting a slot of a page removes the larger of its two neighbouring diffs. */
  lemma {:induction false} DeleteDropsLarger(t: Tree, i: nat)
    requires Rising(t) && i < Count(t) && Count(t) > 1
    ensures 0 < i < Count(t) - 1 ==>
      (DeleteDiff(t, i) == i <==> Diffs(t)[i - 1] < Diffs(t)[i])
      && (DeleteDiff(t, i) == i - 1 <==> Diffs(t)[i] < Diffs(t)[i - 1])
  {
    hide Diffs;
    var Node(d, l, r) := t;
    if 0 < i < Count(t) - 1 {
      NodeDiff(t, i - 1);
      NodeDiff(t, i);
      if i < Count(l) {
        assert Diffs(l)[i - 1] in Diffs(l);
        if i < Count(l) - 1 {
          DeleteDropsLarger(l, i);
        }
      } else {
        assert Diffs(r)[i - Count(l)] in Diffs(r);
        if i > Count(l) {
          DeleteDropsLarger(r, i - Count(l));
        }
      }
    }
  }
}
