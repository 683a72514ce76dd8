/** Writing pages from their slots (RebuildNode, BuildDiffs, WriteNode, SplitAndWriteNodeAt
    of index.h). */
module PageBuilder {
  import opened Keys
  import opened Patricia
  import opened PageTree
  import opened Cartesian
  import opened NodePages
  import opened NodeStore
  import opened Paging
  import opened Alignment
  import opened Split
  import opened Sequences

  /** Every record of t can be read and its key has a legal size. */
  ghost predicate Readable(t: Tree, k: Records) {
    Valid(t, k) && forall p :: p in All(t) ==> p in k && |k[p]| <= MAX_KEY_SIZE
  }

  lemma ReadableErase(s: Tree, t: Tree, k: Records)
    requires Readable(t, k) && Erase(s) == Erase(t)
    ensures Readable(s, k)
  {
    EraseKeeps(s, k);
    EraseKeeps(t, k);
  }

  method MinPos(nodes: HeapNodeStore, rep: Rep, ghost s: Tree) returns (pos: Position)
    requires nodes.Valid() && !s.Node? && rep == RepOf(s) && Within(Views(s), nodes.View())
    ensures pos == First(s)
  {
    if rep.Record? {
      return rep.pos;
    }
    assert s.id in Views(s) && Views(s)[s.id] == PageOf(s.body);
    var child := nodes.Get(rep.id);
    return child.firstPos;
  }

  method MaxPos(nodes: HeapNodeStore, rep: Rep, ghost s: Tree) returns (pos: Position)
    requires nodes.Valid() && !s.Node? && rep == RepOf(s) && Within(Views(s), nodes.View())
    ensures pos == Last(s)
  {
    if rep.Record? {
      return rep.pos;
    }
    assert s.id in Views(s) && Views(s)[s.id] == PageOf(s.body);
    var child := nodes.Get(rep.id);
    return child.lastPos;
  }

  /** DiffBetweenReps: neighbouring slots of a valid page never compare equal or unsorted. */
  method DiffBetweenReps(nodes: HeapNodeStore, k: Records, left: Rep, right: Rep,
                         ghost a: Tree, ghost b: Tree, ghost d: nat) returns (diff: nat)
    requires nodes.Valid() && Within(Views(a), nodes.View()) && Within(Views(b), nodes.View())
    requires !a.Node? && !b.Node? && left == RepOf(a) && right == RepOf(b)
    requires Last(a) in k && First(b) in k
    requires |k[Last(a)]| <= MAX_KEY_SIZE && |k[First(b)]| <= MAX_KEY_SIZE
    requires FirstDiff(k[Last(a)], k[First(b)], d) && Less(k[Last(a)], k[First(b)])
    ensures diff == d
  {
    hide *;
    var leftPos := MaxPos(nodes, left, a);
    var rightPos := MinPos(nodes, right, b);
    FirstDiffUnique(k[leftPos], k[rightPos], d);
    var r := CompareAndDiffBit(k[leftPos], k[rightPos]);
    assert r.Ok? && r.value.compare < 0;
    FirstDiffUnique(k[leftPos], k[rightPos], r.value.diff);
    return r.value.diff;
  }

  lemma LeafWithin(t: Tree, i: nat, view: map<nat, PageView>)
    requires i < Count(t) && Distinct(t) && Within(Views(t), view)
    ensures Within(Views(LeafAt(t, i)), view)
  {
    ViewsLeaf(t, i);
  }

  /** What DiffBetweenReps needs for the slots i and i + 1. */
  lemma NeighboursReady(t: Tree, k: Records, i: nat, view: map<nat, PageView>)
    requires Readable(t, k) && Distinct(t) && Within(Views(t), view) && i + 1 < Count(t)
    ensures var a, b := LeafAt(t, i), LeafAt(t, i + 1);
      && Within(Views(a), view) && Within(Views(b), view)
      && Reps(t)[i] == RepOf(a) && Reps(t)[i + 1] == RepOf(b)
      && Last(a) in k && First(b) in k
      && |k[Last(a)]| <= MAX_KEY_SIZE && |k[First(b)]| <= MAX_KEY_SIZE
      && FirstDiff(k[Last(a)], k[First(b)], Diffs(t)[i]) && Less(k[Last(a)], k[First(b)])
  {
    hide FirstDiff, Less, Views, Reps, Diffs;
    LeafWithin(t, i, view);
    LeafWithin(t, i + 1, view);
    LeafRep(t, i);
    LeafRep(t, i + 1);
    LeafValid(t, k, i);
    LeafValid(t, k, i + 1);
    AdjacentDiff(t, k, i);
  }

  /** BuildDiffs: from the boundary records of neighbouring slots, the diffs of the page. */
  method BuildDiffs(nodes: HeapNodeStore, k: Records, reps: seq<Rep>, ghost t: Tree) returns (diffs: seq<nat>)
    requires nodes.Valid() && reps == Reps(t)
    requires Readable(t, k) && Distinct(t) && Within(Views(t), nodes.View())
    ensures diffs == Diffs(t)
  {
    hide *;
    diffs := [];
    var i := 0;
    while i + 1 < |reps|
      invariant 0 <= i < |reps| && |diffs| == i
      invariant forall j :: 0 <= j < i ==> diffs[j] == Diffs(t)[j]
    {
      NeighboursReady(t, k, i, nodes.View());
      var diff := DiffBetweenReps(nodes, k, reps[i], reps[i + 1], LeafAt(t, i), LeafAt(t, i + 1), Diffs(t)[i]);
      diffs := diffs + [diff];
      i := i + 1;
    }
    assert |diffs| == |Diffs(t)|;
  }

  /** A page written from its slots and diffs represents its body. */
  lemma WrittenPage(t: Tree, k: Records)
    requires Valid(t, k)
    ensures PageView(Reps(t), CartRoutes(Diffs(t), 0, |Diffs(t)|), First(t), Last(t)) == PageOf(t)
  {
    ValidRising(t, k);
    RoutesAreCart(t);
  }

  lemma EndsReady(t: Tree, view: map<nat, PageView>)
    requires Distinct(t) && Within(Views(t), view)
    ensures var a, b := LeafAt(t, 0), LeafAt(t, Count(t) - 1);
      && Within(Views(a), view) && Within(Views(b), view)
      && Reps(t)[0] == RepOf(a) && Reps(t)[Count(t) - 1] == RepOf(b)
      && First(a) == First(t) && Last(b) == Last(t)
  {
    hide Views, Reps;
    LeafWithin(t, 0, view);
    LeafWithin(t, Count(t) - 1, view);
    LeafRep(t, 0);
    LeafRep(t, Count(t) - 1);
    EndLeaves(t);
  }

  /** WriteNodeWithDiffs and RebuildNodeWithDiffs: the page gets the slots, the boundaries of
      its end slots and routes rebuilt from the diffs. */
  method WriteNodeWithDiffs(nodes: HeapNodeStore, k: Records, id: nat, reps: seq<Rep>, diffs: seq<nat>, ghost t: Tree)
    requires nodes.Valid() && id in nodes.View()
    requires reps == Reps(t) && diffs == Diffs(t) && Count(t) <= MAX_NODE_REPS
    requires Valid(t, k) && Distinct(t) && Within(Views(t), nodes.View())
    modifies nodes.Repr
    ensures nodes.Valid() && unchanged(nodes)
    ensures nodes.View() == old(nodes.View())[id := PageOf(t)]
  {
    hide *;
    EndsReady(t, nodes.View());
    var first := MinPos(nodes, reps[0], LeafAt(t, 0));
    var last := MaxPos(nodes, reps[|reps| - 1], LeafAt(t, Count(t) - 1));
    nodes.WriteIn(id, reps, diffs, first, last);
    WrittenPage(t, k);
  }

  // --------------------------------------------------------------- overfull pages

  /** A range that the Cartesian tree of the diffs offers is a part of the page. */
  lemma {:induction false} RangeIsPart(t: Tree, ds: seq<nat>, lo: nat, r: SplitRange)
    requires Rising(t) && Spells(ds, lo, t)
    requires r in Ranges(ds, lo, lo + Count(t) - 1)
    ensures r.start >= lo && IsPart(t, r.start - lo, r.count)
    decreases t
  {
    if t.Node? {
      RootIsLastMin(t, ds, lo);
      var m := lo + Count(t.left) - 1;
      hide LastMin, Rising;
      assert Rising(t.left) && Rising(t.right) by { RisingParts(t); }
      if r in Ranges(ds, lo, m) {
        RangeIsPart(t.left, ds, lo, r);
        PartBounds(t.left, r.start - lo, r.count);
      } else if r in Ranges(ds, m + 1, lo + Count(t) - 1) {
        RangeIsPart(t.right, ds, m + 1, r);
      }
    }
  }

  lemma ChosenPart(t: Tree, k: Records, r: SplitRange)
    requires Valid(t, k) && r in Ranges(Diffs(t), 0, |Diffs(t)|)
    ensures IsPart(t, r.start, r.count) && r.start + r.count <= Count(t)
  {
    hide Ranges, IsPart;
    ValidRising(t, k);
    WholeSlice(Diffs(t));
    SpellsDiffs(Diffs(t), 0, t);
    RangeIsPart(t, Diffs(t), 0, r);
    PartBounds(t, r.start, r.count);
  }

  function RemapInsertSlotAfterSplit(slot: int, start: int, end: int, count: int): int {
    if slot < 0 then slot
    else if slot < start then slot
    else if slot < end then start
    else slot - count + 1
  }

  /** view grew by the pages of t, a rearrangement of t0: no key moved, all pages fit, the
      pages below t0 stay as they are, and only unused ids were taken. */
  ghost predicate Regrown(view0: map<nat, PageView>, view: map<nat, PageView>, id: nat, t0: Tree, t: Tree) {
    && Erase(t) == Erase(t0) && WellPaged(t) && id !in Views(t)
    && Within(Views(t0), Views(t))
    && (forall c :: c in Views(t) ==> c in Views(t0) || c !in view0)
    && view == view0 + Views(t)
  }

  lemma RegrownStart(view: map<nat, PageView>, id: nat, t: Tree)
    requires WellPaged(t) && Within(Views(t), view) && id !in Views(t)
    ensures Regrown(view, view, id, t, t)
  {
    assert view == view + Views(t);
  }

  lemma RegrownWithin(view0: map<nat, PageView>, view: map<nat, PageView>, id: nat, t0: Tree, t: Tree)
    requires Within(Views(t0), view0) && Regrown(view0, view, id, t0, t)
    ensures Within(Views(t), view) && Within(view0, view)
  {
  }

  /** A part moved out into the new page child. */
  lemma RegrownStep(view0: map<nat, PageView>, view: map<nat, PageView>, id: nat, t0: Tree, t: Tree,
                    range: SplitRange, child: nat, s: Tree, view2: map<nat, PageView>)
    requires id in view0 && Within(Views(t0), view0) && Regrown(view0, view, id, t0, t)
    requires IsPart(t, range.start, range.count) && child !in view
    requires Regrown(view[child := EMPTY_PAGE], view2, child, Part(t, range.start, range.count), s)
    requires Count(s) <= MAX_NODE_REPS
    ensures var t2 := Swap(t, range.start, range.count, Sub(child, s));
      Regrown(view0, view2[child := PageOf(s)], id, t0, t2) && id in view2[child := PageOf(s)] && child in Views(t2)
  {
    hide IsPart, Part, Swap, Rest, Erase, Views, PageOf;
    var start, count := range.start, range.count;
    var part, sub := Part(t, start, count), Sub(child, s);
    var t2 := Swap(t, start, count, sub);
    ViewsPart(t, start, count);
    PageViews(sub);
    var rest := Rest(t, start, count);
    assert Views(t) == rest + Views(part);
    RegrownMaps(view0, view, id, Views(t0), rest, Views(part), Views(s), child, PageOf(s), view2);
    ViewsSwap(t, start, count, sub);
    SwapItself(t, start, count);
    assert Erase(sub) == Erase(part) by { EraseSub(sub); }
    SwapErase(t, start, count, sub, part);
  }

  lemma RegrownMaps(view0: map<nat, PageView>, view: map<nat, PageView>, id: nat, old0: map<nat, PageView>,
                    rest: map<nat, PageView>, part: map<nat, PageView>, s: map<nat, PageView>,
                    child: nat, page: PageView, view2: map<nat, PageView>)
    requires id in view0 && Within(old0, view0) && Within(old0, rest + part) && rest.Keys !! part.Keys
    requires view == view0 + (rest + part) && id !in rest && id !in part
    requires forall c :: c in rest + part ==> c in old0 || c !in view0
    requires child !in view && Within(part, s) && child !in s
    requires forall c :: c in s ==> c in part || c !in view[child := EMPTY_PAGE]
    requires view2 == view[child := EMPTY_PAGE] + s
    ensures s[child := page].Keys !! rest.Keys && id !in rest + s[child := page] && child !in s
    ensures Within(old0, rest + s[child := page])
    ensures forall c :: c in rest + s[child := page] ==> c in old0 || c !in view0
    ensures view2[child := page] == view0 + (rest + s[child := page])
    ensures id in view2[child := page]
  {
    RegrownApart(view0, view, id, rest, part, s, child, page);
    RegrownOld(old0, rest, part, s, child, page, view0, view);
    RegrownWhole(view0, view, rest, part, s, child, page, view2);
  }

  lemma RegrownApart(view0: map<nat, PageView>, view: map<nat, PageView>, id: nat, rest: map<nat, PageView>,
                     part: map<nat, PageView>, s: map<nat, PageView>, child: nat, page: PageView)
    requires id in view0 && view == view0 + (rest + part) && id !in rest && id !in part && rest.Keys !! part.Keys
    requires child !in view && child !in s && forall c :: c in s ==> c in part || c !in view[child := EMPTY_PAGE]
    ensures s[child := page].Keys !! rest.Keys && id !in rest + s[child := page] && child !in s && id != child
  {
  }

  lemma RegrownOld(old0: map<nat, PageView>, rest: map<nat, PageView>, part: map<nat, PageView>,
                   s: map<nat, PageView>, child: nat, page: PageView, view0: map<nat, PageView>,
                   view: map<nat, PageView>)
    requires Within(old0, view0) && Within(old0, rest + part) && rest.Keys !! part.Keys
    requires view == view0 + (rest + part) && child !in view && Within(part, s) && child !in s
    requires forall c :: c in rest + part ==> c in old0 || c !in view0
    requires forall c :: c in s ==> c in part || c !in view[child := EMPTY_PAGE]
    requires s[child := page].Keys !! rest.Keys
    ensures Within(old0, rest + s[child := page])
    ensures forall c :: c in rest + s[child := page] ==> c in old0 || c !in view0
  {
  }

  lemma RegrownWhole(view0: map<nat, PageView>, view: map<nat, PageView>, rest: map<nat, PageView>,
                     part: map<nat, PageView>, s: map<nat, PageView>, child: nat, page: PageView,
                     view2: map<nat, PageView>)
    requires view == view0 + (rest + part) && child !in view && Within(part, s) && child !in s
    requires rest.Keys !! part.Keys && s[child := page].Keys !! rest.Keys
    requires view2 == view[child := EMPTY_PAGE] + s
    ensures view2[child := page] == view0 + (rest + s[child := page])
  {
    forall c: nat
      ensures c in view2[child := page] <==> c in view0 || c in rest || c in s || c == child
      ensures c in view2[child := page] ==> view2[child := page][c] == (view0 + (rest + s[child := page]))[c]
    {
    }
  }

  /** How a page with these slots is stored: as it is if it fits; else the chosen part goes to a new
      child page, itself stored in the same way, and what is left follows. */
  ghost predicate SplitsInto(t: Tree, slot: int, t2: Tree)
    decreases Count(t), 1
  {
    if Count(t) <= MAX_NODE_REPS then t2 == t
    else exists r: SplitRange, child: nat, s: Tree :: SplitsOff(t, slot, t2, r, child, s)
  }

  ghost predicate SplitsOff(t: Tree, slot: int, t2: Tree, r: SplitRange, child: nat, s: Tree)
    decreases Count(t), 0
  {
    && Candidate(r, Count(t)) && IsPart(t, r.start, r.count)
    && Chooses(Ranges(Diffs(t), 0, |Diffs(t)|), Count(t), slot, r)
    && SplitsInto(Part(t, r.start, r.count), -1, s)
    && SplitsInto(Swap(t, r.start, r.count, Sub(child, s)),
                  RemapInsertSlotAfterSplit(slot, r.start, r.start + r.count, r.count), t2)
  }

  lemma RepsCount(t: Tree)
    ensures |Reps(t)| == Count(t) == |Diffs(t)| + 1
  {
  }

  lemma SplitsNot(t: Tree, slot: int)
    requires Count(t) <= MAX_NODE_REPS
    ensures SplitsInto(t, slot, t)
  {
  }

  /** What the rest splits into, the whole splits into. */
  lemma SplitsOn(t: Tree, slot: int, r: SplitRange, child: nat, s: Tree)
    requires Count(t) > MAX_NODE_REPS && Candidate(r, Count(t)) && IsPart(t, r.start, r.count)
    requires Chooses(Ranges(Diffs(t), 0, |Diffs(t)|), Count(t), slot, r)
    requires SplitsInto(Part(t, r.start, r.count), -1, s)
    ensures SplitsLike(t, slot, Swap(t, r.start, r.count, Sub(child, s)),
                       RemapInsertSlotAfterSplit(slot, r.start, r.start + r.count, r.count))
  {
    hide Chooses, Ranges, IsPart, Part, Swap, RemapInsertSlotAfterSplit;
    var t1, slot1 := Swap(t, r.start, r.count, Sub(child, s)),
                     RemapInsertSlotAfterSplit(slot, r.start, r.start + r.count, r.count);
    forall t2 | SplitsInto(t1, slot1, t2) ensures SplitsInto(t, slot, t2) {
      assert SplitsOff(t, slot, t2, r, child, s);
    }
  }

  ghost predicate SplitsLike(t: Tree, slot: int, t1: Tree, slot1: int) {
    forall t2 :: SplitsInto(t1, slot1, t2) ==> SplitsInto(t, slot, t2)
  }

  lemma SplitsAlike(t: Tree, slot: int, t1: Tree, slot1: int, t2: Tree, slot2: int)
    requires SplitsLike(t, slot, t1, slot1) && SplitsLike(t1, slot1, t2, slot2)
    ensures SplitsLike(t, slot, t2, slot2)
  {
    hide SplitsInto;
  }

  lemma SplitsFurther(t: Tree, slot: int, t1: Tree, slot1: int, r: SplitRange, child: nat, s: Tree)
    requires SplitsLike(t, slot, t1, slot1) && Count(t1) > MAX_NODE_REPS
    requires Candidate(r, Count(t1)) && IsPart(t1, r.start, r.count) && r.start + r.count <= Count(t1)
    requires Chooses(Ranges(Diffs(t1), 0, |Diffs(t1)|), Count(t1), slot1, r)
    requires SplitsInto(Part(t1, r.start, r.count), -1, s)
    ensures var t2 := Swap(t1, r.start, r.count, Sub(child, s));
      && SplitsLike(t, slot, t2, RemapInsertSlotAfterSplit(slot1, r.start, r.start + r.count, r.count))
      && Reps(t2) == Exchange(Reps(t1), r.start, r.start + r.count, [Child(child)])
      && |Reps(t2)| == Count(t2) == Count(t1) - r.count + 1 < Count(t1)
  {
    hide *;
    SplitsOn(t1, slot1, r, child, s);
    SplitsAlike(t, slot, t1, slot1, Swap(t1, r.start, r.count, Sub(child, s)),
                RemapInsertSlotAfterSplit(slot1, r.start, r.start + r.count, r.count));
    SwapReps(t1, r.start, r.count, Sub(child, s));
    SubReps(child, s);
    CandidateCount(r, Count(t1));
  }

  lemma SplitsSame(t: Tree, slot: int)
    ensures SplitsLike(t, slot, t, slot)
  {
  }

  /** A page with a slot too many is split once: the chosen part becomes a child page. */
  lemma SplitOnce(t: Tree, slot: int, t2: Tree) returns (r: SplitRange, child: nat)
    requires Count(t) == MAX_NODE_REPS + 1 && SplitsInto(t, slot, t2)
    ensures Candidate(r, Count(t)) && IsPart(t, r.start, r.count)
    ensures Chooses(Ranges(Diffs(t), 0, |Diffs(t)|), Count(t), slot, r)
    ensures t2 == Swap(t, r.start, r.count, Sub(child, Part(t, r.start, r.count)))
  {
    hide Chooses, Ranges, IsPart, Part, Swap, RemapInsertSlotAfterSplit;
    var s: Tree;
    r, child, s :| SplitsOff(t, slot, t2, r, child, s);
    SplitsIs(Part(t, r.start, r.count), -1, s);
    SplitsIs(Swap(t, r.start, r.count, Sub(child, s)),
             RemapInsertSlotAfterSplit(slot, r.start, r.start + r.count, r.count), t2);
  }

  lemma SplitsIs(t: Tree, slot: int, t2: Tree)
    requires Count(t) <= MAX_NODE_REPS && SplitsInto(t, slot, t2)
    ensures t2 == t
  {
  }

  /** When the rest fits, it is done. */
  lemma SplitsEnd(t: Tree, slot: int, t2: Tree, slot2: int)
    requires SplitsLike(t, slot, t2, slot2) && Count(t2) <= MAX_NODE_REPS
    ensures SplitsInto(t, slot, t2)
  {
    SplitsNot(t2, slot2);
  }

  lemma EraseSub(s: Tree)
    requires s.Sub?
    ensures Erase(s) == Erase(s.body)
  {
  }

  lemma PartReadable(t: Tree, k: Records, start: nat, count: nat)
    requires Readable(t, k) && IsPart(t, start, count)
    ensures Readable(Part(t, start, count), k)
  {
    hide Valid;
    PartValid(t, k, start, count);
  }

  lemma {:induction false} PartValid(t: Tree, k: Records, start: nat, count: nat)
    requires Valid(t, k) && IsPart(t, start, count)
    ensures Valid(Part(t, start, count), k) && All(Part(t, start, count)) <= All(t)
  {
    if !(start == 0 && count == Count(t)) {
      if start + count <= Count(t.left) && IsPart(t.left, start, count) {
        PartValid(t.left, k, start, count);
      } else {
        PartValid(t.right, k, start - Count(t.left), count);
      }
    }
  }

  /** WriteNode: a page written from slots that may be too many for it. Parts are moved out
      into new child pages until the page fits; t2 is what is finally stored. It fails only
      when page ids run out, and then every page is as it was. */
  method WriteNode(nodes: HeapNodeStore, k: Records, id: nat, reps: seq<Rep>, ghost t: Tree)
    returns (ok: bool, ghost t2: Tree)
    requires nodes.Valid() && id in nodes.View() && reps == Reps(t)
    requires Readable(t, k) && WellPaged(t) && Within(Views(t), nodes.View()) && id !in Views(t)
    modifies nodes, nodes.Repr
    ensures nodes.Valid() && fresh(nodes.Repr - old(nodes.Repr))
    ensures ok ==> Count(t2) <= MAX_NODE_REPS
    ensures ok ==> exists view ::
      Regrown(old(nodes.View()), view, id, t, t2) && nodes.View() == view[id := PageOf(t2)]
    ensures !ok ==> Within(old(nodes.View()), nodes.View()) && |nodes.nodes| >= CHILD_TAG
    ensures |reps| <= MAX_NODE_REPS ==> ok && t2 == t
    ensures ok ==> SplitsInto(t, -1, t2)
    decreases |reps|, if |reps| > MAX_NODE_REPS then 2 else 0
  {
    hide *;
    if |reps| > MAX_NODE_REPS {
      ok, t2 := SplitAndWriteNodeAt(nodes, k, id, reps, -1, t);
    } else {
      RegrownStart(nodes.View(), id, t);
      SplitsNot(t, -1);
      ReadableParts(t, k);
      var diffs := BuildDiffs(nodes, k, reps, t);
      WriteNodeWithDiffs(nodes, k, id, reps, diffs, t);
      ok, t2 := true, t;
    }
  }

  lemma ReadableParts(t: Tree, k: Records)
    requires Readable(t, k) && WellPaged(t)
    ensures Valid(t, k) && Distinct(t)
  {
  }

  lemma PageCapacity()
    ensures MAX_NODE_REPS == 339
  {
  }

  lemma RegrownReady(view0: map<nat, PageView>, view: map<nat, PageView>, id: nat, t0: Tree, t: Tree, k: Records)
    requires Within(Views(t0), view0) && Regrown(view0, view, id, t0, t) && Readable(t0, k)
    ensures Readable(t, k) && Valid(t, k) && WellPaged(t) && Distinct(t)
    ensures Within(Views(t), view) && Within(view0, view) && id !in Views(t)
  {
    ReadableErase(t, t0, k);
    RegrownWithin(view0, view, id, t0, t);
  }

  lemma RegrownNothing(view: map<nat, PageView>, view2: map<nat, PageView>, id: nat, t: Tree)
    requires Within(Views(t), view) && Regrown(view, view2, id, t, t)
    ensures view2 == view
  {
  }

  lemma CandidateCount(r: SplitRange, n: nat)
    requires Candidate(r, n)
    ensures 2 <= r.count <= n - 2
  {
  }

  lemma PartStored(t: Tree, start: nat, count: nat, view: map<nat, PageView>, view2: map<nat, PageView>, child: nat)
    requires IsPart(t, start, count) && WellPaged(t) && Within(Views(t), view)
    requires child !in view && view2 == view[child := EMPTY_PAGE]
    ensures var part := Part(t, start, count);
      WellPaged(part) && Within(Views(part), view2) && child !in Views(part)
  {
    ViewsPart(t, start, count);
  }

  lemma WithinTrans(a: map<nat, PageView>, b: map<nat, PageView>, c: map<nat, PageView>, child: nat)
    requires Within(a, b) && child !in b && Within(b[child := EMPTY_PAGE], c)
    ensures Within(a, c)
  {
  }

  lemma SubReps(id: nat, s: Tree)
    ensures Reps(Sub(id, s)) == [Child(id)]
  {
  }

  /** SplitAndWriteNodeAt: parts of the page are moved out while it has too many slots. */
  method SplitAndWriteNodeAt(nodes: HeapNodeStore, k: Records, id: nat, reps0: seq<Rep>, slot0: int, ghost t: Tree)
    returns (ok: bool, ghost t2: Tree)
    requires nodes.Valid() && id in nodes.View() && reps0 == Reps(t)
    requires Readable(t, k) && WellPaged(t) && Within(Views(t), nodes.View()) && id !in Views(t)
    modifies nodes, nodes.Repr
    ensures nodes.Valid() && fresh(nodes.Repr - old(nodes.Repr))
    ensures ok ==> Count(t2) <= MAX_NODE_REPS
    ensures ok ==> exists view ::
      Regrown(old(nodes.View()), view, id, t, t2) && nodes.View() == view[id := PageOf(t2)]
    ensures !ok ==> Within(old(nodes.View()), nodes.View()) && |nodes.nodes| >= CHILD_TAG
    ensures !ok && |reps0| <= MAX_NODE_REPS + 1 ==> nodes.View() == old(nodes.View())
    ensures ok ==> SplitsInto(t, slot0, t2)
    ensures ok && |reps0| > MAX_NODE_REPS >= |reps0| - 1 ==> old(nodes.NextId()) in Views(t2)
    decreases |reps0|, 1
  {
    hide *;
    ghost var view0 := nodes.View();
    var reps, insertSlot := reps0, slot0;
    t2 := t;
    RegrownStart(view0, id, t);
    SplitsSame(t, slot0);
    while |reps| > MAX_NODE_REPS
      invariant nodes.Valid() && fresh(nodes.Repr - old(nodes.Repr)) && id in nodes.View()
      invariant reps == Reps(t2) && |reps| <= |reps0|
      invariant Regrown(view0, nodes.View(), id, t, t2) && SplitsLike(t, slot0, t2, insertSlot)
      invariant |reps| == |reps0| ==> nodes.View() == view0 && nodes.NextId() == old(nodes.NextId())
      invariant |reps| < |reps0| == MAX_NODE_REPS + 1 ==> old(nodes.NextId()) in Views(t2)
      decreases |reps|
    {
      PageCapacity();
      ghost var view := nodes.View();
      RegrownReady(view0, view, id, t, t2, k);
      var moved;
      moved, reps, insertSlot, t2 := MoveOut(nodes, k, id, reps, insertSlot, t2, view0, t, slot0);
      if !moved {
        WithinBoth(view0, view, nodes.View());
        return false, t;
      }
    }
    RegrownReady(view0, nodes.View(), id, t, t2, k);
    ghost var view := nodes.View();
    var written; ghost var t3;
    written, t3 := WriteNode(nodes, k, id, reps, t2);
    ghost var view2 :| Regrown(view, view2, id, t2, t2) && nodes.View() == view2[id := PageOf(t2)];
    RegrownNothing(view, view2, id, t2);
    SplitsEnd(t, slot0, t2, insertSlot);
    return true, t2;
  }

  lemma WithinBoth(a: map<nat, PageView>, b: map<nat, PageView>, c: map<nat, PageView>)
    requires Within(a, b) && Within(b, c)
    ensures Within(a, c)
  {
  }

  /** One turn of the loop: a part of the page becomes a child page. */
  method MoveOut(nodes: HeapNodeStore, k: Records, id: nat, reps: seq<Rep>, slot: int, ghost t: Tree,
                 ghost view0: map<nat, PageView>, ghost t0: Tree, ghost slot0: int)
    returns (ok: bool, reps2: seq<Rep>, slot2: int, ghost t2: Tree)
    requires nodes.Valid() && id in view0 && id in nodes.View() && reps == Reps(t) && |reps| > MAX_NODE_REPS
    requires Readable(t0, k) && Within(Views(t0), view0)
    requires Regrown(view0, nodes.View(), id, t0, t) && SplitsLike(t0, slot0, t, slot)
    modifies nodes, nodes.Repr
    ensures nodes.Valid() && fresh(nodes.Repr - old(nodes.Repr))
    ensures ok ==> id in nodes.View() && reps2 == Reps(t2) && |reps2| < |reps|
    ensures ok ==> Regrown(view0, nodes.View(), id, t0, t2) && SplitsLike(t0, slot0, t2, slot2)
    ensures ok ==> old(nodes.NextId()) in Views(t2)
    ensures !ok ==> Within(old(nodes.View()), nodes.View()) && |nodes.nodes| >= CHILD_TAG
    ensures !ok && |reps| == MAX_NODE_REPS + 1 ==> nodes.View() == old(nodes.View())
    decreases |reps|, 0
  {
    hide *;
    ghost var view := nodes.View();
    RegrownReady(view0, view, id, t0, t, k);
    PageCapacity();
    var diffs := BuildDiffs(nodes, k, reps, t);
    var range := ChooseSplitRange(diffs, slot);
    CandidateCount(range, |reps|);
    RepsCount(t);
    ChosenPart(t, k, range);
    var start, end := range.start, range.start + range.count;
    var child := nodes.Alloc();
    if child.Err? {
      WithinItself(view);
      return false, reps, slot, t;
    }
    ghost var part := Part(t, start, range.count);
    PartReadable(t, k, start, range.count);
    PartStored(t, start, range.count, view, nodes.View(), child.value);
    PartReps(t, start, range.count);
    var written; ghost var s;
    written, s := WriteNode(nodes, k, child.value, reps[start..end], part);
    if !written {
      WithinItself(view);
      WithinTrans(view, view, nodes.View(), child.value);
      return false, reps, slot, t;
    }
    ghost var view2 :| Regrown(view[child.value := EMPTY_PAGE], view2, child.value, part, s)
      && nodes.View() == view2[child.value := PageOf(s)];
    RegrownStep(view0, view, id, t0, t, range, child.value, s, view2);
    SplitsFurther(t0, slot0, t, slot, range, child.value, s);
    t2 := Swap(t, start, range.count, Sub(child.value, s));
    return true, Exchange(reps, start, end, [Child(child.value)]),
           RemapInsertSlotAfterSplit(slot, start, end, range.count), t2;
  }

  lemma WithinItself(v: map<nat, PageView>)
    ensures Within(v, v)
  {
  }
}
