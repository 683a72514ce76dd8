/** Giving the record that a search ends at a new position (the replacing branch of
    InsertOrReplace and Retarget of index.h). */
module Replacement {
  import opened Keys
  import opened Patricia
  import opened PageTree
  import opened NodePages
  import opened NodeStore
  import opened Paging
  import opened Boundary
  import opened Search
  import opened Insertion
  import opened Sequences

  lemma {:induction false} ReplaceThrough(t: Tree, key: Key, pos: Position)
    ensures Replace(t, key, pos) == SetLeaf(t, Find(t, key), Replace(LeafAt(t, Find(t, key)), key, pos))
  {
    match t
    case Node(d, l, r) => ReplaceThrough(if !Bit(key, d) then l else r, key, pos);
    case _ =>
  }

  /** Replacing in the whole tree is replacing in a page of the path, put back in its place. */
  lemma {:induction false} ReplaceDown(w: Tree, frames: seq<PutFrame>, key: Key, pos: Position, n: nat)
    requires Reached(w, frames, key) && n < |frames|
    ensures Leads(w, Slots(frames, n))
    ensures var s := SubAt(w, Slots(frames, n));
      && Replace(s, key, pos) == Sub(s.id, Replace(s.body, key, pos))
      && Replace(w, key, pos) == Graft(w, Slots(frames, n), Replace(s, key, pos))
  {
    hide Replace, Find, LeafAt, SetLeaf, SubAt, Leads, Graft;
    assert Chosen(w, frames, key, n);
    var s := SubAt(w, Slots(frames, n));
    ReplaceSub(s, key, pos);
    if n == 0 {
      SlotsEmpty(frames, 0);
      GraftRoot(w);
    } else {
      ReplaceDown(w, frames, key, pos, n - 1);
      assert Chosen(w, frames, key, n - 1);
      var up := SubAt(w, Slots(frames, n - 1));
      SlotsNext(frames, n - 1);
      GraftUp(w, Slots(frames, n - 1), frames[n - 1].leaf, Replace(s, key, pos));
      ReplaceThrough(up.body, key, pos);
    }
  }

  lemma ReplaceSub(s: Tree, key: Key, pos: Position)
    requires s.Sub?
    ensures Replace(s, key, pos) == Sub(s.id, Replace(s.body, key, pos))
  {
  }

  lemma ReplaceRec(s: Tree, key: Key, pos: Position)
    requires s.Rec?
    ensures Replace(s, key, pos) == Rec(pos)
  {
  }

  /** Filling one slot leaves the routes of the page alone. */
  lemma {:induction false} SetLeafRoutes(t: Tree, i: nat, s: Tree)
    requires i < Count(t) && !s.Node?
    ensures Routes(SetLeaf(t, i, s)) == Routes(t) && Count(SetLeaf(t, i, s)) == Count(t)
  {
    match t
    case Node(_, l, r) =>
      if i < Count(l) {
        SetLeafRoutes(l, i, s);
      } else {
        SetLeafRoutes(r, i - Count(l), s);
      }
    case _ =>
  }

  /** The page with the record of slot i rewritten. */
  lemma RecordSet(body: Tree, i: nat, pos: Position)
    requires i < Count(body) && LeafAt(body, i).Rec? && WellPaged(body)
    ensures var body2 := SetLeaf(body, i, Rec(pos));
      && Count(body2) == Count(body) && Views(body2) == Views(body) && WellPaged(body2)
      && PageOf(body2) == PageView(Reps(body)[i := Record(pos)], Routes(body),
                                   if i == 0 then pos else First(body),
                                   if i == Count(body) - 1 then pos else Last(body))
  {
    hide Views, LeafAt, Others, Reps, Routes, SetLeaf, First, Last;
    var s := Rec(pos);
    SetLeafRoutes(body, i, s);
    SetLeafReps(body, i, s);
    SetLeafEnds(body, i, s);
    RecShape(pos);
    var leaf := LeafAt(body, i);
    RecShape(leaf.pos);
    ViewsLeaf(body, i);
    ViewsSet(body, i, s);
    PutOne(Reps(body), i, Record(pos));
  }

  lemma RecShape(pos: Position)
    ensures Reps(Rec(pos)) == [Record(pos)] && Views(Rec(pos)) == map[] && WellPaged(Rec(pos))
    ensures First(Rec(pos)) == pos && Last(Rec(pos)) == pos
  {
  }

  lemma PutOne<T>(s: seq<T>, i: nat, x: T)
    requires i < |s|
    ensures Exchange(s, i, i + 1, [x]) == s[i := x]
  {
  }

  /** The page the search ended on, and that page with the record replaced. */
  lemma ReplacePage(w: Tree, frames: seq<PutFrame>, key: Key, pos: Position, view: map<nat, PageView>)
    requires w.Sub? && WellPaged(w) && Reached(w, frames, key) && view == Views(w)
    ensures frames != [] && Follows(w, frames)
    ensures var n := |frames| - 1;
      && Leads(w, Slots(frames, n))
      && var path, body, leaf := Slots(frames, n), BodyAt(w, frames, n), frames[n].leaf;
      && leaf < Count(body) && frames[n].id == SubAt(w, path).id
      && frames[n].id in view && view[frames[n].id] == PageOf(body)
      && view[frames[n].id].first == First(SubAt(w, path)) && view[frames[n].id].last == Last(SubAt(w, path))
      && |view[frames[n].id].reps| == Count(body)
      && var body2 := SetLeaf(body, leaf, Rec(pos));
      && PageOf(body2) == view[frames[n].id].(
           reps := view[frames[n].id].reps[leaf := Record(pos)],
           first := if leaf == 0 then pos else First(SubAt(w, path)),
           last := if leaf == Count(body) - 1 then pos else Last(SubAt(w, path)))
      && Fills(w, path, Sub(frames[n].id, body2))
      && view[frames[n].id := PageOf(body2)] == Around(w, path) + Views(Sub(frames[n].id, body2))
      && Graft(w, path, Sub(frames[n].id, body2)) == Replace(w, key, pos)
  {
    hide Views, SetLeaf, SubAt, Leads, Graft, Find, LeafAt, Replace, Around, Fits, Distinct, BodyAt;
    var n := |frames| - 1;
    ReachedPage(w, frames, key, n, view);
    BodyOf(w, frames, n);
    ReachedFollows(w, frames, key);
    var path, body, leaf := Slots(frames, n), BodyAt(w, frames, n), frames[n].leaf;
    FollowsAt(w, frames, n);
    StoredBelow(w, path);
    ViewsAt(w, path);
    PageViews(SubAt(w, path));
    PageBounds(SubAt(w, path));
    RecordSet(body, leaf, pos);
    PageReplaced(w, path, SetLeaf(body, leaf, Rec(pos)));
    ReplaceDown(w, frames, key, pos, n);
    ReplaceThrough(body, key, pos);
    ReplaceRec(LeafAt(body, leaf), key, pos);
  }

  /** The record at the end of the path gets a new position, and so do the boundaries that
      named it. */
  method ReplaceAtPath(nodes: HeapNodeStore, frames: seq<PutFrame>, pos: Position, ghost key: Key, ghost w: Tree)
    requires nodes.Valid() && w.Sub? && WellPaged(w) && nodes.View() == Views(w) && Reached(w, frames, key)
    modifies nodes.Repr
    ensures nodes.Valid() && unchanged(nodes)
    ensures nodes.View() == Views(Replace(w, key, pos)) && WellPaged(Replace(w, key, pos))
    ensures Replace(w, key, pos).Sub? && Replace(w, key, pos).id == w.id
  {
    hide *;
    ReplacePage(w, frames, key, pos, nodes.View());
    var n := |frames| - 1;
    var id, leaf := frames[n].id, frames[n].leaf;
    ghost var path, body := Slots(frames, n), BodyAt(w, frames, n);
    ghost var s := Sub(id, SetLeaf(body, leaf, Rec(pos)));
    var node := nodes.Get(id);
    var oldFirst, oldLast := node.firstPos, node.lastPos;
    var first := if leaf == 0 then pos else oldFirst;
    var last := if leaf == node.size - 1 then pos else oldLast;
    nodes.SetRepIn(id, leaf, Record(pos));
    nodes.SetBoundsIn(id, first, last);
    PropagateBoundary(nodes, frames, n, oldFirst, oldLast, w, s);
    GraftWellPaged(w, path, s);
  }
}
