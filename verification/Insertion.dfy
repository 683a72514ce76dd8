/** Putting a new record into the page that takes it (InsertAtPath of index.h): in place
    while there is room, else with a sibling promoted to the page above, else by splitting. */
module Insertion {
  import opened Keys
  import opened Patricia
  import opened PageTree
  import opened Cartesian
  import opened NodePages
  import opened NodeStore
  import opened Paging
  import opened Alignment
  import opened PageBuilder
  import opened Boundary
  import opened Search
  import opened Split
  import opened Growth
  import opened Sequences

  /** A record that enters a page changes no page below it. */
  lemma {:induction false} InsertHereViews(t: Tree, key: Key, diff: nat, pos: Position)
    ensures Views(InsertHere(t, key, diff, pos)) == Views(t)
    ensures WellPaged(t) ==> WellPaged(InsertHere(t, key, diff, pos))
  {
    match t
    case Node(d, l, r) =>
      if diff < d {
        JoinViews(t, key, diff, pos);
      } else {
        InsertHereViews(if !Bit(key, d) then l else r, key, diff, pos);
      }
    case _ => JoinViews(t, key, diff, pos);
  }

  lemma JoinViews(t: Tree, key: Key, diff: nat, pos: Position)
    ensures Views(Join(t, key, diff, pos)) == Views(t)
    ensures WellPaged(t) ==> WellPaged(Join(t, key, diff, pos))
  {
    var leaf := Rec(pos);
    assert Views(leaf) == map[] && WellPaged(leaf);
  }

  /** One page of the tree rewritten, the pages below it untouched. */
  lemma PageReplaced(w: Tree, path: seq<nat>, body: Tree)
    requires Leads(w, path) && WellPaged(w)
    requires WellPaged(body) && Views(body) == Views(SubAt(w, path).body) && Count(body) <= MAX_NODE_REPS
    ensures var s := Sub(SubAt(w, path).id, body);
      Fills(w, path, s) && Views(w)[s.id := PageOf(body)] == Around(w, path) + Views(s)
  {
    ViewsAt(w, path);
    var up := SubAt(w, path);
    PageViews(up);
    PageViews(Sub(up.id, body));
    PutInUnion(Around(w, path), Views(up.body), up.id, PageOf(up.body), PageOf(body));
  }

  lemma PutInUnion(a: map<nat, PageView>, b: map<nat, PageView>, id: nat, page: PageView, page2: PageView)
    ensures (a + b[id := page])[id := page2] == a + b[id := page2]
  {
  }

  lemma {:induction false} GraftWellPaged(w: Tree, path: seq<nat>, s: Tree)
    requires Fills(w, path, s)
    ensures WellPaged(Graft(w, path, s)) && Graft(w, path, s).id == w.id
    decreases |path|
  {
    hide Views, Around, Graft, Distinct, Fits, Above;
    if path == [] {
      AtRoot(w, s);
    } else {
      var n := |path| - 1;
      assert path == path[..n] + [path[n]];
      StepUp(w, path[..n], path[n], s);
      GraftWellPaged(w, path[..n], Above(w, path[..n], path[n], s));
    }
  }

  /** What an insertion has to deliver: the same tree, page boundaries aside, as the insertion
      into the one tree, stored page by page. */
  ghost predicate Delivers(w: Tree, w2: Tree, key: Key, diff: nat, pos: Position) {
    && w.Sub? && w2.Sub? && w2.id == w.id && WellPaged(w2)
    && Erase(w2) == Erase(Insert(w, key, diff, pos))
  }

  lemma Delivered(w: Tree, frames: seq<PutFrame>, key: Key, diff: nat, pos: Position, n: nat, s: Tree)
    requires w.Sub? && Reached(w, frames, key) && n < |frames|
    requires forall m: nat :: m < n ==> PassesPage(w, frames, key, diff, m)
    requires Fills(w, Slots(frames, n), s)
    requires Leads(w, Slots(frames, n)) && Erase(s) == Erase(Insert(BodyAt(w, frames, n), key, diff, pos))
    ensures Delivers(w, Graft(w, Slots(frames, n), s), key, diff, pos)
  {
    hide Views, Around, SubAt, Graft, Distinct, Fits, Erase, Insert, Reached, PassesPage;
    InsertDown(w, frames, key, diff, pos, n);
    var at := Insert(SubAt(w, Slots(frames, n)), key, diff, pos);
    EraseSub(at);
    GraftErase(w, Slots(frames, n), s, at);
    GraftWellPaged(w, Slots(frames, n), s);
  }

  /** The walk has reached the page that takes the record, and that page is stored. */
  ghost predicate AtTarget(w: Tree, frames: seq<PutFrame>, key: Key, diff: nat, target: nat, view: map<nat, PageView>) {
    && w.Sub? && WellPaged(w) && view == Views(w)
    && Reached(w, frames, key) && Target(w, frames, key, diff, target)
  }

  /** What is known about the target page and its body after the insertion. */
  lemma TargetPage(w: Tree, frames: seq<PutFrame>, key: Key, diff: nat, pos: Position, target: nat,
                   view: map<nat, PageView>)
    requires AtTarget(w, frames, key, diff, target, view)
    ensures target < |frames| && Leads(w, Slots(frames, target)) && Follows(w, frames)
    ensures var path, body := Slots(frames, target), BodyAt(w, frames, target);
      var body2 := InsertHere(body, key, diff, pos);
      && frames[target].id == SubAt(w, path).id
      && frames[target].id in view && view[frames[target].id] == PageOf(body)
      && view[frames[target].id].reps == Reps(body)
      && view[frames[target].id].first == First(SubAt(w, path)) && view[frames[target].id].last == Last(SubAt(w, path))
      && Insert(body, key, diff, pos) == body2
      && Views(body2) == Views(body) && WellPaged(body2) && Distinct(body2)
      && Count(body) <= MAX_NODE_REPS
      && Reps(body2) == Exchange(Reps(body), InsertSlot(body, key, diff), InsertSlot(body, key, diff), [Record(pos)])
  {
    hide Views, InsertHere, Insert, Reps;
    ReachedPage(w, frames, key, target, view);
    InsertAtTarget(w, frames, key, diff, pos, target);
    InsertHereViews(BodyAt(w, frames, target), key, diff, pos);
    InsertReps(BodyAt(w, frames, target), key, diff, pos);
    ViewsAt(w, Slots(frames, target));
    PageViews(SubAt(w, Slots(frames, target)));
    PageBounds(SubAt(w, Slots(frames, target)));
  }

  lemma TargetPrefix(w: Tree, frames: seq<PutFrame>, key: Key, diff: nat, target: nat, view: map<nat, PageView>)
    requires AtTarget(w, frames, key, diff, target, view)
    ensures w.Sub? && Reached(w, frames, key) && WellPaged(w) && view == Views(w) && Distinct(w)
    ensures forall m: nat :: m < target ==> PassesPage(w, frames, key, diff, m)
  {
  }

  /** InsertAtIncremental and the boundary update: the page has room. */
  method InsertWithRoom(nodes: HeapNodeStore, frames: seq<PutFrame>, target: nat, slot: nat, pos: Position,
                        key: Key, diff: nat, ghost w: Tree)
    returns (ghost w2: Tree)
    requires nodes.Valid() && AtTarget(w, frames, key, diff, target, nodes.View())
    requires target < |frames| && Leads(w, Slots(frames, target))
    requires slot == InsertSlot(BodyAt(w, frames, target), key, diff)
    requires Count(BodyAt(w, frames, target)) < MAX_NODE_REPS
    modifies nodes.Repr
    ensures nodes.Valid() && unchanged(nodes)
    ensures nodes.View() == Views(w2) && Delivers(w, w2, key, diff, pos)
    ensures Enlarged(w, Slots(frames, target), key, diff, pos, nodes.NextId(), w2)
  {
    hide *;
    TargetPage(w, frames, key, diff, pos, target, nodes.View());
    TargetPrefix(w, frames, key, diff, target, nodes.View());
    var id := frames[target].id;
    var node := nodes.Get(id);
    var oldFirst, oldLast := node.firstPos, node.lastPos;
    ghost var path, body := Slots(frames, target), BodyAt(w, frames, target);
    ghost var body2 := InsertHere(body, key, diff, pos);
    ghost var s := Sub(id, body2);
    nodes.InsertRecordIn(id, slot, pos, key, diff, body);
    BodyOf(w, frames, target);
    PageReplaced(w, path, body2);
    PropagateBoundary(nodes, frames, target, oldFirst, oldLast, w, s);
    EraseSub(s);
    Delivered(w, frames, key, diff, pos, target, s);
    w2 := Graft(w, path, s);
    EnlargedHere(w, path, key, diff, pos, nodes.NextId());
  }

  lemma EnlargedHere(w: Tree, path: seq<nat>, key: Key, diff: nat, pos: Position, child: nat)
    requires Leads(w, path) && Count(SubAt(w, path).body) < MAX_NODE_REPS
    ensures var s := SubAt(w, path);
      Enlarged(w, path, key, diff, pos, child, Graft(w, path, Sub(s.id, InsertHere(s.body, key, diff, pos))))
  {
  }

  lemma EnlargedAbove(w: Tree, frames: seq<PutFrame>, n: nat, key: Key, diff: nat, pos: Position, child: nat)
    requires n < |frames| && Leads(w, Slots(frames, n + 1)) && Leads(w, Slots(frames, n))
    requires Count(SubAt(w, Slots(frames, n + 1)).body) >= MAX_NODE_REPS
    requires Count(SubAt(w, Slots(frames, n)).body) < MAX_NODE_REPS
    requires frames[n].leaf < Count(SubAt(w, Slots(frames, n)).body)
    requires LeafAt(SubAt(w, Slots(frames, n)).body, frames[n].leaf).Sub?
    requires InsertHere(SubAt(w, Slots(frames, n + 1)).body, key, diff, pos).Node?
    ensures var up, b := SubAt(w, Slots(frames, n)), InsertHere(SubAt(w, Slots(frames, n + 1)).body, key, diff, pos);
      Enlarged(w, Slots(frames, n + 1), key, diff, pos, child,
               Graft(w, Slots(frames, n), Promoted(up, frames[n].leaf, b, child)))
  {
    hide InsertHere;
    var path := Slots(frames, n + 1);
    SlotsNext(frames, n);
    assert path[..|path| - 1] == Slots(frames, n);
  }

  lemma EnlargedBySplit(w: Tree, path: seq<nat>, key: Key, diff: nat, pos: Position, child: nat, t2: Tree)
    requires Leads(w, path) && Count(SubAt(w, path).body) == MAX_NODE_REPS
    requires path != [] ==> Count(PageAbove(w, path).body) >= MAX_NODE_REPS
    requires var s := SubAt(w, path);
      var slot := InsertSlot(s.body, key, diff);
      SplitsInto(InsertHere(s.body, key, diff, pos), if AtEnd(w, path, slot) then slot else -1, t2)
    requires child in Views(t2) && child !in Views(InsertHere(SubAt(w, path).body, key, diff, pos))
    ensures Enlarged(w, path, key, diff, pos, child, Graft(w, path, Sub(SubAt(w, path).id, t2)))
  {
    hide AtEnd, InsertHere, InsertSlot, Chooses, Ranges, IsPart, Part, Swap, Graft, SplitsInto, PageAbove;
    var s := SubAt(w, path);
    var b, slot := InsertHere(s.body, key, diff, pos), InsertSlot(s.body, key, diff);
    var at := if AtEnd(w, path, slot) then slot else -1;
    var r, id := SplitOnce(b, at, t2);
    SwapIds(b, r.start, r.count, Sub(id, Part(b, r.start, r.count)), child);
    PartIds(b, r.start, r.count, id, child);
    assert MovesOut(b, at, r) && t2 == MovedOut(b, r, child);
  }

  lemma {:induction false} SwapIds(t: Tree, start: nat, count: nat, s: Tree, id: nat)
    requires IsPart(t, start, count) && id in Views(Swap(t, start, count, s))
    ensures id in Views(t) || id in Views(s)
  {
    hide IsPart;
    if !(start == 0 && count == Count(t)) {
      var left := PartStep(t, start, count);
      NodeViews(Swap(t, start, count, s));
      if left {
        if id in Views(Swap(t.left, start, count, s)) {
          SwapIds(t.left, start, count, s, id);
        }
      } else if id in Views(Swap(t.right, start - Count(t.left), count, s)) {
        SwapIds(t.right, start - Count(t.left), count, s, id);
      }
    }
  }

  lemma PartIds(t: Tree, start: nat, count: nat, child: nat, id: nat)
    requires IsPart(t, start, count) && id in Views(Sub(child, Part(t, start, count)))
    ensures id == child || id in Views(t)
  {
    hide IsPart;
    PageViews(Sub(child, Part(t, start, count)));
    ViewsPart(t, start, count);
  }

  /** The end slot found on the frames is the one of the path. */
  lemma EdgeIsAtEnd(w: Tree, frames: seq<PutFrame>, key: Key, target: nat, slot: nat, view: map<nat, PageView>)
    requires Reached(w, frames, key) && Distinct(w) && view == Views(w) && target < |frames|
    ensures Leads(w, Slots(frames, target)) && forall i :: 0 <= i < target ==> frames[i].id in view
    ensures AtEdge(frames, view, target, slot, Count(BodyAt(w, frames, target)))
      <==> AtEnd(w, Slots(frames, target), slot)
  {
    hide Reached, Views, Distinct;
    PathStored(w, frames, key, view);
    ReachedPage(w, frames, key, target, view);
    var path := Slots(frames, target);
    forall i | 0 <= i < target
      ensures path[i] == frames[i].leaf
      ensures LastSlot(w, path, i) <==> frames[i].leaf + 1 == |view[frames[i].id].reps|
    {
      ReachedPage(w, frames, key, i, view);
      assert path[..i] == Slots(frames, i);
    }
  }

  /** The page that takes the record is the one the key's way leads to. */
  lemma {:induction false} TargetPath(w: Tree, frames: seq<PutFrame>, key: Key, diff: nat, target: nat, n: nat)
    requires Reached(w, frames, key) && Target(w, frames, key, diff, target) && n <= target && w.Sub?
    ensures Leads(w, Slots(frames, n))
    ensures PathTo(w, key, diff) == Slots(frames, n) + PathTo(SubAt(w, Slots(frames, n)), key, diff)
    ensures n == target ==> PathTo(w, key, diff) == Slots(frames, n)
    decreases n
  {
    hide StopsHere, Find, LeafAt, Leads, SubAt, Best;
    assert Chosen(w, frames, key, n);
    if n == 0 {
      SlotsEmpty(frames, 0);
      GraftRoot(w);
      assert [] + PathTo(w, key, diff) == PathTo(w, key, diff);
    } else {
      TargetPath(w, frames, key, diff, target, n - 1);
      assert PassesPage(w, frames, key, diff, n - 1) && Chosen(w, frames, key, n - 1);
      var up := SubAt(w, Slots(frames, n - 1));
      SlotsNext(frames, n - 1);
      GraftUp(w, Slots(frames, n - 1), frames[n - 1].leaf, SubAt(w, Slots(frames, n)));
      ConcatThree(Slots(frames, n - 1), [frames[n - 1].leaf], PathTo(SubAt(w, Slots(frames, n)), key, diff));
    }
    if n == target {
      assert PathTo(SubAt(w, Slots(frames, n)), key, diff) == [];
      assert Slots(frames, n) + [] == Slots(frames, n);
    }
  }

  lemma BodyOf(w: Tree, frames: seq<PutFrame>, n: nat)
    requires n <= |frames| && Leads(w, Slots(frames, n))
    ensures BodyAt(w, frames, n) == SubAt(w, Slots(frames, n)).body
  {
  }

  // -------------------------------------------------------------- full pages

  lemma {:induction false} SubAtReadable(w: Tree, k: Records, path: seq<nat>)
    requires Readable(w, k) && Leads(w, path)
    ensures Readable(SubAt(w, path), k) && Readable(SubAt(w, path).body, k)
    decreases |path|
  {
    if path != [] {
      LeafValid(w.body, k, path[0]);
      SubAtReadable(LeafAt(w.body, path[0]), k, path[1..]);
    }
  }

  /** The record is new for the tree and its key has a legal size. */
  ghost predicate Enters(w: Tree, k: Records, key: Key, diff: nat, pos: Position) {
    Readable(w, k) && Patricia.Fresh(w, k, key, diff, pos) && |key| <= MAX_KEY_SIZE
  }

  lemma EnteredReadable(t: Tree, k: Records, key: Key, diff: nat, pos: Position)
    requires Enters(t, k, key, diff, pos)
    ensures Readable(Insert(t, key, diff, pos), k)
  {
    InsertValid(t, k, key, diff, pos);
    InsertAll(t, key, diff, pos);
  }

  /** The page on the path with the record in it is valid. */
  lemma PathReadable(w: Tree, k: Records, frames: seq<PutFrame>, key: Key, diff: nat, pos: Position, n: nat)
    requires Enters(w, k, key, diff, pos) && Reached(w, frames, key) && n < |frames|
    requires forall m: nat :: m < n ==> PassesPage(w, frames, key, diff, m)
    ensures Leads(w, Slots(frames, n)) && Readable(Insert(BodyAt(w, frames, n), key, diff, pos), k)
  {
    InsertDown(w, frames, key, diff, pos, n);
    SubAtReadable(w, k, Slots(frames, n));
    EnteredReadable(BodyAt(w, frames, n), k, key, diff, pos);
  }

  /** A page split in place: new child pages took unused ids. */
  lemma SplitPlaced(w: Tree, path: seq<nat>, body2: Tree, t2: Tree, view2: map<nat, PageView>)
    requires Leads(w, path) && WellPaged(w)
    requires Views(body2) == Views(SubAt(w, path).body) && Count(t2) <= MAX_NODE_REPS
    requires Regrown(Views(w), view2, SubAt(w, path).id, body2, t2)
    ensures var s := Sub(SubAt(w, path).id, t2);
      Fills(w, path, s) && view2[s.id := PageOf(t2)] == Around(w, path) + Views(s)
  {
    hide Around, Distinct, Fits, Leads, SubAt;
    var up := SubAt(w, path);
    ViewsAt(w, path);
    PageViews(up);
    PageViews(Sub(up.id, t2));
    SplitMaps(Around(w, path), Views(up.body), up.id, PageOf(up.body), Views(t2), PageOf(t2));
  }

  lemma SplitMaps(around: map<nat, PageView>, below: map<nat, PageView>, id: nat, page: PageView,
                  grown: map<nat, PageView>, page2: PageView)
    requires around.Keys !! below[id := page].Keys && Within(below, grown)
    requires forall c :: c in grown ==> c in below || c !in around + below[id := page]
    ensures around.Keys !! grown[id := page2].Keys
    ensures ((around + below[id := page]) + grown)[id := page2] == around + grown[id := page2]
  {
  }

  /** The slot an overfull page was entered at, if that is an end of the whole index. */
  ghost predicate AtEdge(frames: seq<PutFrame>, view: map<nat, PageView>, target: nat, slot: nat, size: nat)
    requires target <= |frames| && forall i :: 0 <= i < target ==> frames[i].id in view
  {
    || (slot == 0 && forall i :: 0 <= i < target ==> frames[i].leaf == 0)
    || (slot == size && forall i :: 0 <= i < target ==> frames[i].leaf + 1 == |view[frames[i].id].reps|)
  }

  /** PathEdgeInsertSlot: the slot when the record becomes the first or the last of the
      whole index, and otherwise no slot. */
  method PathEdgeInsertSlot(nodes: HeapNodeStore, frames: seq<PutFrame>, target: nat, slot: nat, oldSize: nat)
    returns (edge: int)
    requires nodes.Valid() && target < |frames| && oldSize > 0
    requires forall i :: 0 <= i < target ==> frames[i].id in nodes.View()
    ensures edge == if AtEdge(frames, nodes.View(), target, slot, oldSize) then slot else -1
  {
    if slot != 0 && slot != oldSize {
      return -1;
    }
    ghost var view := nodes.View();
    var i := 0;
    while i < target
      invariant 0 <= i <= target
      invariant slot == 0 ==> forall j :: 0 <= j < i ==> frames[j].leaf == 0
      invariant slot != 0 ==> forall j :: 0 <= j < i ==> frames[j].leaf + 1 == |view[frames[j].id].reps|
    {
      if slot == 0 {
        if frames[i].leaf != 0 {
          return -1;
        }
      } else {
        var node := nodes.Get(frames[i].id);
        if frames[i].leaf + 1 != node.size {
          return -1;
        }
      }
      i := i + 1;
    }
    return slot;
  }

  /** InsertAtPath's last resort: the full page is split where it is. */
  method InsertSplitting(nodes: HeapNodeStore, k: Records, frames: seq<PutFrame>, target: nat, slot: nat,
                         reps: seq<Rep>,
                         key: Key, diff: nat, ghost pos: Position, ghost w: Tree)
    returns (ok: bool, ghost w2: Tree, ghost t2: Tree)
    requires nodes.Valid() && AtTarget(w, frames, key, diff, target, nodes.View()) && Enters(w, k, key, diff, pos)
    requires target < |frames| && Leads(w, Slots(frames, target))
    requires slot == InsertSlot(BodyAt(w, frames, target), key, diff)
    requires reps == Reps(InsertHere(BodyAt(w, frames, target), key, diff, pos))
    modifies nodes, nodes.Repr
    ensures nodes.Valid() && fresh(nodes.Repr - old(nodes.Repr))
    ensures ok ==> nodes.View() == Views(w2) && Delivers(w, w2, key, diff, pos)
    ensures !ok ==> nodes.View() == old(nodes.View()) && |nodes.nodes| >= CHILD_TAG
    ensures ok ==>
      && w2 == Graft(w, Slots(frames, target), Sub(SubAt(w, Slots(frames, target)).id, t2))
      && SplitsInto(InsertHere(BodyAt(w, frames, target), key, diff, pos),
                    if AtEnd(w, Slots(frames, target), slot) then slot else -1, t2)
      && (Count(BodyAt(w, frames, target)) == MAX_NODE_REPS ==> old(nodes.NextId()) in Views(t2))
  {
    hide *;
    TargetPage(w, frames, key, diff, pos, target, nodes.View());
    TargetPrefix(w, frames, key, diff, target, nodes.View());
    PathReadable(w, k, frames, key, diff, pos, target);
    PathStored(w, frames, key, nodes.View());
    ghost var path, body := Slots(frames, target), BodyAt(w, frames, target);
    ghost var body2 := InsertHere(body, key, diff, pos);
    BodyOf(w, frames, target);
    TargetApart(w, path, body2);
    var id := frames[target].id;
    var node := nodes.Get(id);
    var oldFirst, oldLast := node.firstPos, node.lastPos;
    var size := node.size;
    node.ViewHolds(body);
    var edge := PathEdgeInsertSlot(nodes, frames, target, slot, size);
    EdgeIsAtEnd(w, frames, key, target, slot, nodes.View());
    ok, t2 := SplitAndWriteNodeAt(nodes, k, id, reps, edge, body2);
    if !ok {
      PageCapacity();
      return false, w, w;
    }
    ghost var view2 :| Regrown(Views(w), view2, id, body2, t2) && nodes.View() == view2[id := PageOf(t2)];
    SplitPlaced(w, path, body2, t2, view2);
    ghost var s := Sub(id, t2);
    PropagateBoundary(nodes, frames, target, oldFirst, oldLast, w, s);
    EraseSub(s);
    RegrownErase(Views(w), view2, id, body2, t2);
    Delivered(w, frames, key, diff, pos, target, s);
    w2 := Graft(w, path, s);
  }

  lemma RegrownErase(view0: map<nat, PageView>, view: map<nat, PageView>, id: nat, t0: Tree, t: Tree)
    requires Regrown(view0, view, id, t0, t)
    ensures Erase(t) == Erase(t0)
  {
  }

  lemma PathStored(w: Tree, frames: seq<PutFrame>, key: Key, view: map<nat, PageView>)
    requires Reached(w, frames, key) && Distinct(w) && view == Views(w)
    ensures forall i :: 0 <= i < |frames| ==> frames[i].id in view
  {
    forall i | 0 <= i < |frames| ensures frames[i].id in view {
      ReachedPage(w, frames, key, i, view);
    }
  }

  lemma TargetApart(w: Tree, path: seq<nat>, body2: Tree)
    requires Leads(w, path) && WellPaged(w) && Views(body2) == Views(SubAt(w, path).body)
    ensures SubAt(w, path).id !in Views(body2) && Within(Views(body2), Views(w))
  {
    ViewsAt(w, path);
    PageViews(SubAt(w, path));
  }

  // ------------------------------------------------------- promoting a sibling

  /** Where an overfull page is cut: at the root of its tree, which the Cartesian tree of the
      diffs gives back. */
  lemma CutAtRoot(b: Tree, k: Records)
    requires Valid(b, k) && b.Node?
    ensures |Diffs(b)| > 0 && LastMin(Diffs(b), 0, |Diffs(b)|) == Count(b.left) - 1
    ensures Diffs(b)[Count(b.left) - 1] == b.diff
    ensures Diffs(b)[..Count(b.left) - 1] == Diffs(b.left) && Diffs(b)[Count(b.left)..] == Diffs(b.right)
    ensures Reps(b)[..Count(b.left)] == Reps(b.left) && Reps(b)[Count(b.left)..] == Reps(b.right)
    ensures Valid(b.left, k) && Valid(b.right, k)
  {
    hide *;
    ValidRising(b, k);
    WholeSlice(Diffs(b));
    SpellsDiffs(Diffs(b), 0, b);
    RootIsLastMin(b, Diffs(b), 0);
    NodeCuts(b);
    ValidSides(b, k);
  }

  lemma ValidSides(b: Tree, k: Records)
    requires Valid(b, k) && b.Node?
    ensures Valid(b.left, k) && Valid(b.right, k)
    ensures Count(b) == Count(b.left) + Count(b.right)
  {
  }

  lemma NodeCuts(b: Tree)
    requires b.Node?
    ensures Diffs(b)[..Count(b.left) - 1] == Diffs(b.left) && Diffs(b)[Count(b.left)..] == Diffs(b.right)
    ensures Diffs(b)[Count(b.left) - 1] == b.diff
    ensures Reps(b)[..Count(b.left)] == Reps(b.left) && Reps(b)[Count(b.left)..] == Reps(b.right)
  {
    hide Diffs, Reps;
    DiffsNode(b);
    NodeReps(b);
    CutMiddle(Diffs(b.left), b.diff, Diffs(b.right));
    CutConcat(Reps(b.left), Reps(b.right));
  }

  /** The pages around the promotion. */
  ghost predicate Promoting(w: Tree, path: seq<nat>, slot: nat, b: Tree, k: Records) {
    && WellPaged(w) && Leads(w, path)
    && slot < Count(SubAt(w, path).body) && LeafAt(SubAt(w, path).body, slot).Sub?
    && Count(SubAt(w, path).body) < MAX_NODE_REPS
    && Views(b) == Views(LeafAt(SubAt(w, path).body, slot).body)
    && WellPaged(b) && Readable(b, k) && b.Node? && Count(b) == MAX_NODE_REPS + 1
    && Valid(SetLeaf(SubAt(w, path).body, slot, Sub(LeafAt(SubAt(w, path).body, slot).id, b)), k)
  }

  /** Everything the steps of a promotion need, for a sibling id that is not in use. */
  lemma PromotedPages(w: Tree, path: seq<nat>, slot: nat, b: Tree, k: Records, sibling: nat)
    requires Promoting(w, path, slot, b, k) && sibling !in Views(w)
    ensures var up := SubAt(w, path);
      var child := LeafAt(up.body, slot).id;
      var up2 := Promoted(up, slot, b, sibling);
      && up.id in Views(w) && child in Views(w) && child != up.id
      && Distinct(b.left) && Distinct(b.right) && Count(b.left) <= MAX_NODE_REPS && Count(b.right) <= MAX_NODE_REPS
      && var v1 := Views(w)[sibling := EMPTY_PAGE];
      && Within(Views(b.left), v1)
      && var v2 := v1[child := PageOf(b.left)];
      && Within(Views(b.right), v2)
      && var v3 := v2[sibling := PageOf(b.right)];
      && Within(Views(up2.body), v3) && Distinct(up2.body) && Count(up2.body) <= MAX_NODE_REPS
      && Fills(w, path, up2)
      && v3[up.id := PageOf(up2.body)] == Around(w, path) + Views(up2)
  {
    hide Around, Distinct, Fits, Leads, SubAt, Readable, Valid, SetLeaf, Views, Others, Rest, PageOf, Halved;
    var up := SubAt(w, path);
    var leaf := LeafAt(up.body, slot);
    var up2 := Promoted(up, slot, b, sibling);
    var pair := Node(b.diff, Sub(leaf.id, b.left), Sub(sibling, b.right));
    ViewsAt(w, path);
    PageViews(up);
    ViewsLeaf(up.body, slot);
    PageViews(leaf);
    NodeViews(b);
    NodeDistinct(b);
    PageViews(pair.left);
    PageViews(pair.right);
    NodeViews(pair);
    NodeDistinct(pair);
    var a, o, l, r := Around(w, path), Others(up.body, slot), Views(b.left), Views(b.right);
    var left, right, page2 := PageOf(b.left), PageOf(b.right), PageOf(up2.body);
    HalvedMeans(a, o, l, r, up.id, leaf.id, sibling, PageOf(up.body), PageOf(leaf.body));
    HalvesApart(a, o, l, r, up.id, leaf.id, sibling, left, right, page2);
    PromotedMap(a, o, l, r, up.id, leaf.id, sibling, PageOf(up.body), PageOf(leaf.body), left, right, page2);
    WholeBelow(a, o, Halves(l, r, leaf.id, sibling, left, right), up.id, page2);
    ViewsSet(up.body, slot, pair);
    SetLeafReps(up.body, slot, pair);
    PageViews(up2);
  }

  lemma HalvedMeans(a: map<nat, PageView>, o: map<nat, PageView>, l: map<nat, PageView>, r: map<nat, PageView>,
                    pid: nat, cid: nat, sid: nat, page: PageView, child: PageView)
    requires a.Keys !! (o + (l + r)[cid := child])[pid := page].Keys && pid !in o + (l + r)[cid := child]
    requires o.Keys !! (l + r)[cid := child].Keys && cid !in l + r && l.Keys !! r.Keys
    requires sid !in Whole(a, o, (l + r)[cid := child], pid, page)
    ensures Halved(a, o, l, r, pid, cid, sid)
  {
    var m := (l + r)[cid := child];
    assert cid in m && (forall c :: c in l || c in r ==> c in m);
    assert forall c :: c in o || c in m ==> c in o + m;
    var v := (o + m)[pid := page];
    assert pid in v && forall c :: c in o || c in m ==> c in v;
    assert forall c :: c in a || c in v ==> c in a + v;
  }

  lemma HalvesApart(a: map<nat, PageView>, o: map<nat, PageView>, l: map<nat, PageView>, r: map<nat, PageView>,
                    pid: nat, cid: nat, sid: nat, left: PageView, right: PageView, page2: PageView)
    requires Halved(a, o, l, r, pid, cid, sid)
    ensures l[cid := left].Keys !! r[sid := right].Keys
    ensures Halves(l, r, cid, sid, left, right).Keys !! o.Keys
    ensures pid !in o + Halves(l, r, cid, sid, left, right)
    ensures a.Keys !! (o + Halves(l, r, cid, sid, left, right))[pid := page2].Keys
  {
  }

  lemma PromotedMap(a: map<nat, PageView>, o: map<nat, PageView>, l: map<nat, PageView>, r: map<nat, PageView>,
                    pid: nat, cid: nat, sid: nat, page: PageView, child: PageView,
                    left: PageView, right: PageView, page2: PageView)
    requires Halved(a, o, l, r, pid, cid, sid)
    ensures var before := Whole(a, o, (l + r)[cid := child], pid, page);
      var after := Whole(a, o, Halves(l, r, cid, sid, left, right), pid, page2);
      && before[sid := EMPTY_PAGE][cid := left][sid := right][pid := page2] == after
      && Within(l, before[sid := EMPTY_PAGE]) && Within(r, before[sid := EMPTY_PAGE][cid := left])
  {
    hide Whole, Halves;
    var before := Whole(a, o, (l + r)[cid := child], pid, page);
    var after := Whole(a, o, Halves(l, r, cid, sid, left, right), pid, page2);
    forall c: nat
      ensures c in after <==> c in before || c == sid
      ensures c in after ==>
        after[c] == if c == pid then page2 else if c == cid then left else if c == sid then right else before[c]
      ensures (c in l ==> c in before && before[c] == l[c]) && (c in r ==> c in before && before[c] == r[c])
      ensures pid in before && cid in before
    {
      HalvedAt(a, o, l, r, pid, cid, sid, page, child, left, right, page2, c);
    }
  }

  /** The page above, after the promotion: a new slot behind the child's, and the diff that
      the child was cut at between the two. */
  lemma PromotedAbove(up: Tree, slot: nat, b: Tree, k: Records, sibling: nat)
    requires up.Sub? && slot < Count(up.body) && LeafAt(up.body, slot).Sub? && b.Node?
    requires Valid(SetLeaf(up.body, slot, Sub(LeafAt(up.body, slot).id, b)), k)
    ensures var t := Promoted(up, slot, b, sibling).body;
      && Valid(t, k) && Count(t) == Count(up.body) + 1
      && Diffs(t) == Exchange(Diffs(up.body), slot, slot, [b.diff])
      && Reps(t) == Exchange(Reps(up.body), slot + 1, slot + 1, [Child(sibling)])
    ensures Erase(Promoted(up, slot, b, sibling)) == Erase(SetLeaf(up.body, slot, Sub(LeafAt(up.body, slot).id, b)))
  {
    hide Valid, SetLeaf, Reps, Diffs;
    var child := LeafAt(up.body, slot).id;
    var pair := Node(b.diff, Sub(child, b.left), Sub(sibling, b.right));
    SetLeafErase(up.body, slot, Sub(child, b), pair);
    EraseKeeps(SetLeaf(up.body, slot, Sub(child, b)), k);
    EraseKeeps(SetLeaf(up.body, slot, pair), k);
    PairShape(b.diff, child, b.left, sibling, b.right);
    SetLeafDiffs(up.body, slot, pair);
    SetLeafReps(up.body, slot, pair);
    LeafRep(up.body, slot);
    PairBehind(Reps(up.body), slot, Child(sibling));
  }

  lemma PairShape(d: nat, child: nat, l: Tree, sibling: nat, r: Tree)
    ensures var pair := Node(d, Sub(child, l), Sub(sibling, r));
      Diffs(pair) == [d] && Reps(pair) == [Child(child), Child(sibling)]
  {
  }

  lemma PairBehind(reps: seq<Rep>, slot: nat, rep: Rep)
    requires slot < |reps|
    ensures Exchange(reps, slot, slot + 1, [reps[slot], rep]) == Exchange(reps, slot + 1, slot + 1, [rep])
  {
  }

  /** The pages below a page of the tree are stored with it. */
  lemma StoredBelow(w: Tree, path: seq<nat>)
    requires Leads(w, path) && Distinct(w)
    ensures var up := SubAt(w, path);
      && Within(Views(up.body), Views(w)) && Distinct(up.body)
      && up.id in Views(w) && Views(w)[up.id] == PageOf(up.body)
  {
    ViewsAt(w, path);
    PageViews(SubAt(w, path));
  }

  lemma StoredInSlot(t: Tree, i: nat)
    requires i < Count(t) && Distinct(t) && LeafAt(t, i).Sub?
    ensures Within(Views(LeafAt(t, i).body), Views(t))
    ensures LeafAt(t, i).id in Views(t) && Views(t)[LeafAt(t, i).id] == PageOf(LeafAt(t, i).body)
  {
    ViewsLeaf(t, i);
    PageViews(LeafAt(t, i));
  }

  lemma PromotingMeans(w: Tree, path: seq<nat>, slot: nat, b: Tree, k: Records)
    requires Promoting(w, path, slot, b, k)
    ensures Leads(w, path) && slot < Count(SubAt(w, path).body) && LeafAt(SubAt(w, path).body, slot).Sub?
    ensures Valid(b, k) && Valid(b.left, k) && Valid(b.right, k) && b.Node? && Readable(b, k) && Distinct(b)
    ensures Count(b) == Count(b.left) + Count(b.right)
    ensures Within(Views(b), Views(w))
    ensures Valid(SetLeaf(SubAt(w, path).body, slot, Sub(LeafAt(SubAt(w, path).body, slot).id, b)), k)
    ensures SubAt(w, path).id in Views(w) && Views(w)[SubAt(w, path).id] == PageOf(SubAt(w, path).body)
  {
    hide SetLeaf, SubAt, LeafAt, Views, Leads, Fits, Distinct, Around, PageOf;
    StoredBelow(w, path);
    StoredInSlot(SubAt(w, path).body, slot);
  }

  /** PromoteSibling: the overfull child is cut at the root of its tree; the right part goes
      to a new page, which the page above takes as a slot of its own. */
  method PromoteSibling(nodes: HeapNodeStore, k: Records, parentId: nat, slot: nat, childId: nat, reps: seq<Rep>,
                        ghost w: Tree, ghost path: seq<nat>, ghost b: Tree)
    returns (ok: bool, ghost sibling: nat)
    requires nodes.Valid() && nodes.View() == Views(w) && Promoting(w, path, slot, b, k) && reps == Reps(b)
    requires Leads(w, path) && parentId == SubAt(w, path).id && slot < Count(SubAt(w, path).body)
    requires LeafAt(SubAt(w, path).body, slot).Sub? && childId == LeafAt(SubAt(w, path).body, slot).id
    modifies nodes, nodes.Repr
    ensures nodes.Valid() && fresh(nodes.Repr - old(nodes.Repr))
    ensures ok ==> b.Node? && Fills(w, path, Promoted(SubAt(w, path), slot, b, sibling))
    ensures ok ==> nodes.View() == Around(w, path) + Views(Promoted(SubAt(w, path), slot, b, sibling))
    ensures ok ==> sibling == old(nodes.NextId())
    ensures !ok ==> nodes.View() == old(nodes.View()) && |nodes.nodes| >= CHILD_TAG
  {
    hide *;
    PromotingMeans(w, path, slot, b, k);
    ghost var up := SubAt(w, path);
    var diffs := BuildDiffs(nodes, k, reps, b);
    CutAtRoot(b, k);
    var left, right, root := BuildCartesian(diffs);
    var split, splitDiff := root + 1, diffs[root];
    var alloc := nodes.Alloc();
    if alloc.Err? {
      return false, 0;
    }
    var siblingId := alloc.value;
    sibling := siblingId;
    PromotedPages(w, path, slot, b, k, sibling);
    PromotedAbove(up, slot, b, k, sibling);
    WriteNodeWithDiffs(nodes, k, childId, reps[..split], diffs[..split - 1], b.left);
    WriteNodeWithDiffs(nodes, k, siblingId, reps[split..], diffs[split..], b.right);
    var parent := nodes.Get(parentId);
    parent.StoredReps(up.body);
    parent.ViewHolds(up.body);
    var parentReps := Exchange(parent.reps[..parent.size], slot + 1, slot + 1, [Child(siblingId)]);
    var oldDiffs := parent.RouteDiffs(up.body);
    var newDiffs := Exchange(oldDiffs, slot, slot, [splitDiff]);
    WriteNodeWithDiffs(nodes, k, parentId, parentReps, newDiffs, Promoted(up, slot, b, sibling).body);
    ok := true;
  }

  /** A full target page below a page with room: what the promotion starts from. */
  lemma PromotionReady(w: Tree, k: Records, frames: seq<PutFrame>, key: Key, diff: nat, pos: Position, target: nat,
                       view: map<nat, PageView>)
    requires AtTarget(w, frames, key, diff, target, view) && Enters(w, k, key, diff, pos)
    requires 0 < target < |frames| && Leads(w, Slots(frames, target)) && Leads(w, Slots(frames, target - 1))
    requires Count(BodyAt(w, frames, target)) == MAX_NODE_REPS
    requires Count(BodyAt(w, frames, target - 1)) < MAX_NODE_REPS
    ensures var path, slot := Slots(frames, target - 1), frames[target - 1].leaf;
      var b := InsertHere(BodyAt(w, frames, target), key, diff, pos);
      && frames[target - 1].id == SubAt(w, path).id && slot < Count(SubAt(w, path).body)
      && LeafAt(SubAt(w, path).body, slot) == SubAt(w, Slots(frames, target))
      && frames[target].id == LeafAt(SubAt(w, path).body, slot).id
      && Promoting(w, path, slot, b, k)
      && Erase(SetLeaf(SubAt(w, path).body, slot, Sub(frames[target].id, b)))
        == Erase(Insert(BodyAt(w, frames, target - 1), key, diff, pos))
  {
    hide Insert, InsertHere, SetLeaf, SubAt, Leads, Graft, Views, Distinct, Fits, Valid, Erase, StopsHere, Find,
         LeafAt, BodyAt, Slots, Reached, Patricia.Fresh;
    TargetPage(w, frames, key, diff, pos, target, view);
    TargetPrefix(w, frames, key, diff, target, view);
    PathReadable(w, k, frames, key, diff, pos, target);
    PathReadable(w, k, frames, key, diff, pos, target - 1);
    ReachedPage(w, frames, key, target - 1, view);
    BodyOf(w, frames, target);
    BodyOf(w, frames, target - 1);
    SlotsNext(frames, target - 1);
    FollowsAt(w, frames, target - 1);
    var s := SubAt(w, Slots(frames, target));
    GraftUp(w, Slots(frames, target - 1), frames[target - 1].leaf, s);
    PassedBy(w, frames, key, diff, target - 1);
    InsertThrough(BodyAt(w, frames, target - 1), key, diff, pos);
    InsertSub(s, key, diff, pos);
  }

  lemma PassedBy(w: Tree, frames: seq<PutFrame>, key: Key, diff: nat, n: nat)
    requires n < |frames| && PassesPage(w, frames, key, diff, n)
    ensures Leads(w, Slots(frames, n)) && !StopsHere(BodyAt(w, frames, n), key, diff)
  {
  }

  /** InsertAtPath with room one page up: a sibling is promoted. */
  method InsertPromoting(nodes: HeapNodeStore, k: Records, frames: seq<PutFrame>, target: nat, reps: seq<Rep>,
                         key: Key, diff: nat, ghost pos: Position, ghost w: Tree)
    returns (ok: bool, ghost w2: Tree)
    requires nodes.Valid() && AtTarget(w, frames, key, diff, target, nodes.View()) && Enters(w, k, key, diff, pos)
    requires 0 < target < |frames| && Leads(w, Slots(frames, target)) && Leads(w, Slots(frames, target - 1))
    requires reps == Reps(InsertHere(BodyAt(w, frames, target), key, diff, pos)) && |reps| == MAX_NODE_REPS + 1
    requires Count(BodyAt(w, frames, target - 1)) < MAX_NODE_REPS
    modifies nodes, nodes.Repr
    ensures nodes.Valid() && fresh(nodes.Repr - old(nodes.Repr))
    ensures ok ==> nodes.View() == Views(w2) && Delivers(w, w2, key, diff, pos)
    ensures ok ==> Enlarged(w, Slots(frames, target), key, diff, pos, old(nodes.NextId()), w2)
    ensures !ok ==> nodes.View() == old(nodes.View()) && |nodes.nodes| >= CHILD_TAG
  {
    hide *;
    PageCapacity();
    TargetPrefix(w, frames, key, diff, target, nodes.View());
    PromotionReady(w, k, frames, key, diff, pos, target, nodes.View());
    ReachedPage(w, frames, key, target - 1, nodes.View());
    ghost var path, b := Slots(frames, target - 1), InsertHere(BodyAt(w, frames, target), key, diff, pos);
    ghost var up := SubAt(w, path);
    BodyOf(w, frames, target - 1);
    BodyOf(w, frames, target);
    PageBounds(up);
    PromotingMeans(w, path, frames[target - 1].leaf, b, k);
    var parent := nodes.Get(frames[target - 1].id);
    var oldFirst, oldLast := parent.firstPos, parent.lastPos;
    ghost var sibling;
    ok, sibling := PromoteSibling(nodes, k, frames[target - 1].id, frames[target - 1].leaf, frames[target].id, reps,
                                  w, path, b);
    if !ok {
      return false, w;
    }
    ghost var s := Promoted(up, frames[target - 1].leaf, b, sibling);
    PromotedAbove(up, frames[target - 1].leaf, b, k, sibling);
    PromotingBelow(w, frames, target, b, k);
    ReachedFollows(w, frames, key);
    PropagateBoundary(nodes, frames, target - 1, oldFirst, oldLast, w, s);
    Delivered(w, frames, key, diff, pos, target - 1, s);
    w2 := Graft(w, path, s);
    EnlargedAbove(w, frames, target - 1, key, diff, pos, sibling);
  }

  lemma PromotingBelow(w: Tree, frames: seq<PutFrame>, target: nat, b: Tree, k: Records)
    requires 0 < target < |frames| && Leads(w, Slots(frames, target)) && Leads(w, Slots(frames, target - 1))
    requires Promoting(w, Slots(frames, target - 1), frames[target - 1].leaf, b, k)
    requires Count(b) == Count(SubAt(w, Slots(frames, target)).body) + 1
    ensures b.Node? && Count(SubAt(w, Slots(frames, target)).body) == MAX_NODE_REPS
    ensures Count(SubAt(w, Slots(frames, target - 1)).body) < MAX_NODE_REPS
    ensures frames[target - 1].leaf < Count(SubAt(w, Slots(frames, target - 1)).body)
    ensures LeafAt(SubAt(w, Slots(frames, target - 1)).body, frames[target - 1].leaf).Sub?
  {
  }

  lemma FullAbove(w: Tree, frames: seq<PutFrame>, target: nat)
    requires target < |frames| && Leads(w, Slots(frames, target))
    requires target > 0 ==> Leads(w, Slots(frames, target - 1))
    requires target > 0 ==> Count(BodyAt(w, frames, target - 1)) >= MAX_NODE_REPS
    ensures var path := Slots(frames, target);
      path != [] ==> Count(PageAbove(w, path).body) >= MAX_NODE_REPS
  {
    if target > 0 {
      SlotsNext(frames, target - 1);
      assert Slots(frames, target)[..target - 1] == Slots(frames, target - 1);
    }
  }

  lemma ReachedFollows(w: Tree, frames: seq<PutFrame>, key: Key)
    requires Reached(w, frames, key)
    ensures Follows(w, frames)
  {
  }

  lemma NotWithin(a: map<nat, PageView>, b: map<nat, PageView>, id: nat)
    requires Within(a, b) && id !in b
    ensures id !in a
  {
  }

  /** InsertAtPath: the record enters the page in place, or a sibling is promoted, or the
      page is split. It fails only when page ids run out, and then nothing has changed. */
  method InsertAtPath(nodes: HeapNodeStore, k: Records, frames: seq<PutFrame>, target: nat, slot: nat, pos: Position,
                      key: Key, diff: nat, ghost w: Tree)
    returns (ok: bool, ghost w2: Tree)
    requires nodes.Valid() && AtTarget(w, frames, key, diff, target, nodes.View()) && Enters(w, k, key, diff, pos)
    requires target < |frames| && Leads(w, Slots(frames, target))
    requires slot == InsertSlot(BodyAt(w, frames, target), key, diff)
    modifies nodes, nodes.Repr
    ensures nodes.Valid() && fresh(nodes.Repr - old(nodes.Repr))
    ensures ok ==> nodes.View() == Views(w2) && Delivers(w, w2, key, diff, pos)
    ensures ok ==> Enlarged(w, Slots(frames, target), key, diff, pos, old(nodes.NextId()), w2)
    ensures !ok ==> nodes.View() == old(nodes.View()) && |nodes.nodes| >= CHILD_TAG
  {
    hide *;
    TargetPage(w, frames, key, diff, pos, target, nodes.View());
    TargetPrefix(w, frames, key, diff, target, nodes.View());
    ghost var body := BodyAt(w, frames, target);
    var node := nodes.Get(frames[target].id);
    node.StoredReps(body);
    var size := node.size;
    if size < MAX_NODE_REPS {
      w2 := InsertWithRoom(nodes, frames, target, slot, pos, key, diff, w);
      return true, w2;
    }
    var reps := Exchange(node.reps[..size], slot, slot, [Record(pos)]);
    if target > 0 {
      ReachedPage(w, frames, key, target - 1, nodes.View());
      var parent := nodes.Get(frames[target - 1].id);
      parent.ViewHolds(BodyAt(w, frames, target - 1));
      if parent.size < MAX_NODE_REPS {
        ok, w2 := InsertPromoting(nodes, k, frames, target, reps, key, diff, pos, w);
        return ok, w2;
      }
    }
    nodes.NextIdFree();
    BodyOf(w, frames, target);
    FullAbove(w, frames, target);
    TargetApart(w, Slots(frames, target), InsertHere(body, key, diff, pos));
    NotWithin(Views(InsertHere(body, key, diff, pos)), nodes.View(), nodes.NextId());
    ghost var t2;
    ok, w2, t2 := InsertSplitting(nodes, k, frames, target, slot, reps, key, diff, pos, w);
    if ok {
      EnlargedBySplit(w, Slots(frames, target), key, diff, pos, old(nodes.NextId()), t2);
    }
  }
}
