/** Boundary caches (PropagateBoundary of index.h): a page changed somewhere below, and the
    first and last positions kept in the pages above it follow. */
module Boundary {
  import opened Patricia
  import opened PageTree
  import opened NodePages
  import opened NodeStore
  import opened Paging
  import opened Alignment

  datatype PutFrame = PutFrame(id: nat, leaf: nat)

  /** The slots chosen in the first n pages of a path. */
  function Slots(frames: seq<PutFrame>, n: nat): (path: seq<nat>)
    requires n <= |frames|
    ensures |path| == n
  {
    seq(n, i requires 0 <= i < n => frames[i].leaf)
  }

  lemma SlotsNext(frames: seq<PutFrame>, n: nat)
    requires n < |frames|
    ensures Slots(frames, n + 1) == Slots(frames, n) + [frames[n].leaf]
  {
  }

  /** The frames name the pages of w along their own slots. */
  ghost predicate Follows(w: Tree, frames: seq<PutFrame>) {
    forall n: nat :: n < |frames| ==> FollowsTo(w, frames, n)
  }

  ghost predicate FollowsTo(w: Tree, frames: seq<PutFrame>, n: nat)
    requires n < |frames|
  {
    && Leads(w, Slots(frames, n))
    && frames[n].id == SubAt(w, Slots(frames, n)).id
    && frames[n].leaf < Count(SubAt(w, Slots(frames, n)).body)
  }

  /** s can take the place of the page at the end of path. */
  ghost predicate Fills(w: Tree, path: seq<nat>, s: Tree) {
    && Leads(w, path) && s.Sub? && s.id == SubAt(w, path).id
    && WellPaged(w) && WellPaged(s) && Around(w, path).Keys !! Views(s).Keys
  }

  /** The page above with its slot refilled. */
  ghost function Above(w: Tree, path: seq<nat>, leaf: nat, s: Tree): Tree
    requires Leads(w, path) && leaf < Count(SubAt(w, path).body)
  {
    Sub(SubAt(w, path).id, SetLeaf(SubAt(w, path).body, leaf, s))
  }

  lemma SlotRep(w: Tree, path: seq<nat>, leaf: nat)
    requires Leads(w, path + [leaf])
    ensures Leads(w, path) && leaf < Count(SubAt(w, path).body)
    ensures Reps(SubAt(w, path).body)[leaf] == Child(SubAt(w, path + [leaf]).id)
  {
    var s := SubAt(w, path + [leaf]);
    GraftUp(w, path, leaf, s);
    LeafRep(SubAt(w, path).body, leaf);
  }

  /** One page up the path. */
  lemma StepUp(w: Tree, path: seq<nat>, leaf: nat, s: Tree)
    requires Fills(w, path + [leaf], s)
    ensures Leads(w, path) && leaf < Count(SubAt(w, path).body)
    ensures var up, s2 := SubAt(w, path), Above(w, path, leaf, s);
      && Fills(w, path, s2)
      && Graft(w, path + [leaf], s) == Graft(w, path, s2)
      && up.id in Around(w, path + [leaf]) && Around(w, path + [leaf])[up.id] == PageOf(up.body)
      && PageOf(s2.body) == PageOf(up.body).(
           first := if leaf == 0 then First(s) else First(up),
           last := if leaf == Count(up.body) - 1 then Last(s) else Last(up))
      && (Around(w, path + [leaf]) + Views(s))[up.id := PageOf(s2.body)] == Around(w, path) + Views(s2)
  {
    hide Views, Others, Distinct, Fits, SetLeaf, Around, SubAt, Graft, Leads;
    GraftUp(w, path, leaf, s);
    AroundUp(w, path, leaf);
    var up := SubAt(w, path);
    var body := SetLeaf(up.body, leaf, s);
    ViewsAt(w, path);
    PageViews(up);
    SetLeafSame(up.body, leaf, s);
    SetLeafEnds(up.body, leaf, s);
    ViewsLeaf(up.body, leaf);
    ViewsSet(up.body, leaf, s);
    PageViews(Sub(up.id, body));
    StepMaps(Around(w, path), Others(up.body, leaf), Views(s), up.id, PageOf(up.body), PageOf(body));
  }

  lemma StepMaps(around: map<nat, PageView>, others: map<nat, PageView>, s: map<nat, PageView>,
                 id: nat, page: PageView, page2: PageView)
    requires (around + others[id := page]).Keys !! s.Keys
    ensures ((around + others[id := page]) + s)[id := page2] == around + (others + s)[id := page2]
    ensures id in around + others[id := page] && (around + others[id := page])[id] == page
  {
  }

  /** When the boundaries of the changed page are what they were, nothing above changes. */
  lemma {:induction false} GraftSettled(w: Tree, path: seq<nat>, s: Tree)
    requires Fills(w, path, s)
    requires First(s) == First(SubAt(w, path)) && Last(s) == Last(SubAt(w, path))
    ensures Around(w, path) + Views(s) == Views(Graft(w, path, s))
    decreases |path|
  {
    hide Views, Around, Graft, Distinct, Fits, Above;
    if path == [] {
      AtRoot(w, s);
    } else {
      var n := |path| - 1;
      var up, leaf := path[..n], path[n];
      assert path == up + [leaf];
      StepUp(w, up, leaf, s);
      var s2 := Above(w, up, leaf, s);
      SlotEnds(w, up, leaf);
      GraftSettled(w, up, s2);
    }
  }

  lemma AtRoot(w: Tree, s: Tree)
    requires Leads(w, []) && s.Sub? && s.id == SubAt(w, []).id
    ensures SubAt(w, []) == w && Graft(w, [], s) == s
    ensures Around(w, []) == map[] && Around(w, []) + Views(s) == Views(s)
  {
  }

  /** The boundaries of a page and of its end slots agree. */
  lemma SlotEnds(w: Tree, path: seq<nat>, leaf: nat)
    requires Leads(w, path + [leaf])
    ensures Leads(w, path) && leaf < Count(SubAt(w, path).body)
    ensures leaf == 0 ==> First(SubAt(w, path + [leaf])) == First(SubAt(w, path))
    ensures leaf == Count(SubAt(w, path).body) - 1 ==> Last(SubAt(w, path + [leaf])) == Last(SubAt(w, path))
  {
    var s := SubAt(w, path + [leaf]);
    GraftUp(w, path, leaf, s);
    EndLeaves(SubAt(w, path).body);
  }

  /** The walk up: the pages from the changed one to the n-th are right, those above still
      carry their old boundaries. */
  ghost predicate Climbing(w: Tree, path: seq<nat>, s: Tree, goal: Tree, view: map<nat, PageView>) {
    && Fills(w, path, s) && Graft(w, path, s) == goal && view == Around(w, path) + Views(s)
  }

  lemma ClimbingPage(w: Tree, path: seq<nat>, s: Tree, goal: Tree, view: map<nat, PageView>)
    requires Climbing(w, path, s, goal, view)
    ensures s.id in view && view[s.id].first == First(s) && view[s.id].last == Last(s)
    ensures Leads(w, path) && s.id == SubAt(w, path).id
  {
    PageViews(s);
  }

  lemma ClimbingUp(w: Tree, path: seq<nat>, leaf: nat, s: Tree, goal: Tree, view: map<nat, PageView>)
    requires Climbing(w, path + [leaf], s, goal, view)
    ensures Leads(w, path + [leaf]) && Leads(w, path) && leaf < Count(SubAt(w, path).body)
    ensures var up, s2 := SubAt(w, path), Above(w, path, leaf, s);
      && s2.Sub? && s2.id == up.id
      && up.id in view && view[up.id].first == First(up) && view[up.id].last == Last(up)
      && |view[up.id].reps| == Count(up.body) && view[up.id].reps[leaf] == Child(s.id)
      && First(s2) == (if leaf == 0 then First(s) else First(up))
      && Last(s2) == (if leaf == Count(up.body) - 1 then Last(s) else Last(up))
      && Climbing(w, path, s2, goal, view[up.id := view[up.id].(first := First(s2), last := Last(s2))])
      && (leaf == 0 ==> First(SubAt(w, path + [leaf])) == First(up))
      && (leaf == Count(up.body) - 1 ==> Last(SubAt(w, path + [leaf])) == Last(up))
  {
    hide Views, Around, SubAt, Graft, Leads;
    StepUp(w, path, leaf, s);
    SlotEnds(w, path, leaf);
    SlotRep(w, path, leaf);
    PageBounds(SubAt(w, path));
    PageBounds(Above(w, path, leaf, s));
  }

  lemma PageBounds(s: Tree)
    requires s.Sub?
    ensures PageOf(s.body) == PageView(Reps(s.body), Routes(s.body), First(s), Last(s))
  {
  }

  lemma ClimbingDone(w: Tree, path: seq<nat>, s: Tree, goal: Tree, view: map<nat, PageView>)
    requires Climbing(w, path, s, goal, view)
    requires path == [] || (First(s) == First(SubAt(w, path)) && Last(s) == Last(SubAt(w, path)))
    ensures view == Views(goal)
  {
    hide Views, Around, Graft;
    if path == [] {
      AtRoot(w, s);
    } else {
      GraftSettled(w, path, s);
    }
  }

  /** PropagateBoundary: after the page at frames[changed] became s, every page above gets
      the boundaries it must have; the walk stops as soon as nothing moves any more. */
  method PropagateBoundary(nodes: HeapNodeStore, frames: seq<PutFrame>, changed: nat,
                           oldFirst: Position, oldLast: Position, ghost w: Tree, ghost s: Tree)
    requires nodes.Valid() && changed < |frames| && Follows(w, frames)
    requires Fills(w, Slots(frames, changed), s)
    requires nodes.View() == Around(w, Slots(frames, changed)) + Views(s)
    requires oldFirst == First(SubAt(w, Slots(frames, changed)))
    requires oldLast == Last(SubAt(w, Slots(frames, changed)))
    modifies nodes.Repr
    ensures nodes.Valid() && unchanged(nodes)
    ensures nodes.View() == Views(Graft(w, Slots(frames, changed), s))
  {
    hide *;
    FillsMeans(w, Slots(frames, changed), s);
    ghost var goal := Graft(w, Slots(frames, changed), s);
    ghost var cur := s;
    assert Climbing(w, Slots(frames, changed), s, goal, nodes.View()) by {
      ClimbingStart(w, Slots(frames, changed), s);
    }
    ClimbingPage(w, Slots(frames, changed), s, goal, nodes.View());
    FollowsAt(w, frames, changed);
    var child := nodes.Get(frames[changed].id);
    var childFirst, childLast := child.firstPos, child.lastPos;
    var firstChanged := childFirst != oldFirst;
    var lastChanged := childLast != oldLast;
    var i := changed;
    while i > 0 && (firstChanged || lastChanged)
      invariant nodes.Valid() && unchanged(nodes) && i <= changed
      invariant Climbing(w, Slots(frames, i), cur, goal, nodes.View())
      invariant Leads(w, Slots(frames, i)) && cur.Sub? && cur.id == frames[i].id
      invariant childFirst == First(cur) && childLast == Last(cur)
      invariant firstChanged == (childFirst != First(SubAt(w, Slots(frames, i))))
      invariant lastChanged == (childLast != Last(SubAt(w, Slots(frames, i))))
      decreases i
    {
      i := i - 1;
      SlotsNext(frames, i);
      FollowsAt(w, frames, i);
      ClimbingUp(w, Slots(frames, i), frames[i].leaf, cur, goal, nodes.View());
      var parent := nodes.Get(frames[i].id);
      var slot, size := frames[i].leaf, parent.size;
      assert slot < size && parent.View().reps[slot] == Child(frames[i + 1].id);
      var parentFirst, parentLast := parent.firstPos, parent.lastPos;
      var first := if firstChanged && slot == 0 then childFirst else parentFirst;
      var last := if lastChanged && slot == size - 1 then childLast else parentLast;
      nodes.SetBoundsIn(frames[i].id, first, last);
      cur := Above(w, Slots(frames, i), slot, cur);
      childFirst, childLast := first, last;
      firstChanged := first != parentFirst;
      lastChanged := last != parentLast;
    }
    SlotsEmpty(frames, i);
    ClimbingDone(w, Slots(frames, i), cur, goal, nodes.View());
  }

  lemma FillsMeans(w: Tree, path: seq<nat>, s: Tree)
    requires Fills(w, path, s)
    ensures Leads(w, path) && s.Sub? && s.id == SubAt(w, path).id
  {
  }

  lemma FollowsAt(w: Tree, frames: seq<PutFrame>, n: nat)
    requires Follows(w, frames) && n < |frames|
    ensures Leads(w, Slots(frames, n)) && frames[n].id == SubAt(w, Slots(frames, n)).id
    ensures frames[n].leaf < Count(SubAt(w, Slots(frames, n)).body)
  {
    assert FollowsTo(w, frames, n);
  }

  lemma SlotsEmpty(frames: seq<PutFrame>, n: nat)
    requires n <= |frames|
    ensures n == 0 ==> Slots(frames, n) == []
  {
  }

  lemma ClimbingStart(w: Tree, path: seq<nat>, s: Tree)
    requires Fills(w, path, s)
    ensures Climbing(w, path, s, Graft(w, path, s), Around(w, path) + Views(s))
  {
  }
}
