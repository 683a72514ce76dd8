/** Walking down the pages (the search loop of InsertOrReplace, Retarget and the seeks, and
    InsertSlotFromPath of index.h). */
module Search {
  import opened Keys
  import opened Patricia
  import opened PageTree
  import opened NodePages
  import opened NodeStore
  import opened Paging
  import opened Boundary

  /** The frames lead from the root page to the record that the bits of key lead to. */
  ghost predicate Reached(w: Tree, frames: seq<PutFrame>, key: Key) {
    && frames != [] && Follows(w, frames)
    && (forall n: nat :: n < |frames| ==> Chosen(w, frames, key, n))
    && Chosen(w, frames, key, |frames| - 1)
    && LeafAt(SubAt(w, Slots(frames, |frames| - 1)).body, frames[|frames| - 1].leaf) == Rec(Best(w, key))
  }

  ghost predicate Chosen(w: Tree, frames: seq<PutFrame>, key: Key, n: nat)
    requires n < |frames|
  {
    && FollowsTo(w, frames, n)
    && frames[n].leaf == Find(SubAt(w, Slots(frames, n)).body, key)
  }

  /** The search stands on page cur after the given frames. */
  ghost predicate Standing(w: Tree, frames: seq<PutFrame>, key: Key, cur: Tree) {
    && Leads(w, Slots(frames, |frames|)) && cur == SubAt(w, Slots(frames, |frames|))
    && (forall n: nat :: n < |frames| ==> Chosen(w, frames, key, n))
    && Best(w, key) == Best(cur, key)
  }

  lemma StandingStart(w: Tree, key: Key)
    requires w.Sub?
    ensures Standing(w, [], key, w)
  {
    assert Slots([], 0) == [];
  }

  lemma SlotsPrefix(frames: seq<PutFrame>, f: PutFrame, n: nat)
    requires n <= |frames|
    ensures Slots(frames + [f], n) == Slots(frames, n)
  {
  }

  lemma StandingNext(w: Tree, frames: seq<PutFrame>, key: Key, cur: Tree)
    requires Standing(w, frames, key, cur)
    ensures cur.Sub?
    ensures var leaf := LeafAt(cur.body, Find(cur.body, key));
      var frames2 := frames + [PutFrame(cur.id, Find(cur.body, key))];
      && (leaf.Sub? ==> Standing(w, frames2, key, leaf) && leaf < cur)
      && (leaf.Rec? ==> Reached(w, frames2, key) && leaf.pos == Best(w, key))
  {
    hide Find, Best, LeafAt;
    var i := Find(cur.body, key);
    var leaf := LeafAt(cur.body, i);
    var f := PutFrame(cur.id, i);
    var frames2 := frames + [f];
    forall n: nat | n < |frames2| ensures Chosen(w, frames2, key, n) {
      SlotsPrefix(frames, f, n);
      assert n < |frames| ==> Chosen(w, frames, key, n);
    }
    SlotsPrefix(frames, f, |frames|);
    BestThrough(cur, key);
    if leaf.Sub? {
      SlotsNext(frames2, |frames|);
      LeadsDown(w, Slots(frames, |frames|), i);
      LeafSmaller(cur.body, i);
    } else {
      assert Best(leaf, key) == leaf.pos by { BestRec(leaf, key); }
      forall n: nat | n < |frames2| ensures FollowsTo(w, frames2, n) {
        assert Chosen(w, frames2, key, n);
      }
    }
  }

  lemma BestRec(t: Tree, key: Key)
    requires t.Rec?
    ensures Best(t, key) == t.pos
  {
  }

  lemma BestThrough(cur: Tree, key: Key)
    requires cur.Sub?
    ensures Best(cur, key) == Best(LeafAt(cur.body, Find(cur.body, key)), key)
  {
    FindLeaf(cur.body, key);
  }

  lemma {:induction false} LeafSmaller(t: Tree, i: nat)
    requires i < Count(t)
    ensures LeafAt(t, i) == t || LeafAt(t, i) < t
  {
    match t
    case Node(_, l, r) =>
      if i < Count(l) {
        LeafSmaller(l, i);
      } else {
        LeafSmaller(r, i - Count(l));
      }
    case _ =>
  }

  lemma {:induction false} LeadsDown(w: Tree, path: seq<nat>, leaf: nat)
    requires Leads(w, path) && leaf < Count(SubAt(w, path).body) && LeafAt(SubAt(w, path).body, leaf).Sub?
    ensures Leads(w, path + [leaf]) && SubAt(w, path + [leaf]) == LeafAt(SubAt(w, path).body, leaf)
    decreases |path|
  {
    if path == [] {
      assert ([] + [leaf])[1..] == [];
      assert Leads(LeafAt(w.body, leaf), []);
    } else {
      assert (path + [leaf])[1..] == path[1..] + [leaf];
      LeadsDown(LeafAt(w.body, path[0]), path[1..], leaf);
    }
  }

  /** A page of the tree is stored as it is. */
  lemma PageStored(w: Tree, path: seq<nat>, view: map<nat, PageView>)
    requires Leads(w, path) && Distinct(w) && view == Views(w)
    ensures var s := SubAt(w, path);
      s.id in view && view[s.id] == PageOf(s.body) && |view[s.id].reps| == Count(s.body)
  {
    ViewsAt(w, path);
    PageViews(SubAt(w, path));
  }

  /** The walk from the root page down to a record, choosing slots by the bits of key. */
  method Walk(nodes: HeapNodeStore, key: Key, ghost w: Tree) returns (frames: seq<PutFrame>, pos: Position)
    requires nodes.Valid() && w.Sub? && w.id == 0 && Distinct(w) && nodes.View() == Views(w)
    ensures Reached(w, frames, key) && pos == Best(w, key)
  {
    hide *;
    frames := [];
    var id := 0;
    ghost var cur := w;
    StandingStart(w, key);
    while true
      invariant Standing(w, frames, key, cur) && cur.Sub? && cur.id == id
      decreases cur
    {
      StandingPage(w, frames, key, cur, nodes.View());
      var node := nodes.Get(id);
      node.ViewHolds(cur.body);
      var leaf, ok := node.LookupRouteOnly(key, cur.body);
      StandingNext(w, frames, key, cur);
      node.RepAt(cur.body, leaf);
      frames := frames + [PutFrame(id, leaf)];
      ghost var s := LeafAt(cur.body, leaf);
      RepMeans(s);
      match node.reps[leaf]
      case Child(child) =>
        id := child;
        cur := s;
      case Record(p) =>
        return frames, p;
    }
  }

  lemma StandingPage(w: Tree, frames: seq<PutFrame>, key: Key, cur: Tree, view: map<nat, PageView>)
    requires Standing(w, frames, key, cur) && Distinct(w) && view == Views(w)
    ensures cur.Sub? && cur.id in view && view[cur.id] == PageOf(cur.body) && |view[cur.id].reps| == Count(cur.body)
  {
    PageStored(w, Slots(frames, |frames|), view);
  }

  lemma RepMeans(s: Tree)
    requires !s.Node?
    ensures RepOf(s).Record? <==> s.Rec?
    ensures s.Rec? ==> RepOf(s) == Record(s.pos)
    ensures s.Sub? ==> RepOf(s) == Child(s.id)
  {
  }

  // --------------------------------------------------------- insertion point

  /** The page that takes a record leaving the reached one at diff: the first on the path
      with a route that tests a later bit, or else the last. */
  ghost predicate Target(w: Tree, frames: seq<PutFrame>, key: Key, diff: nat, target: nat) {
    && target < |frames|
    && (forall n: nat :: n < target ==> PassesPage(w, frames, key, diff, n))
    && Leads(w, Slots(frames, target))
    && (StopsHere(SubAt(w, Slots(frames, target)).body, key, diff) || target == |frames| - 1)
  }

  ghost predicate PassesPage(w: Tree, frames: seq<PutFrame>, key: Key, diff: nat, n: nat)
    requires n < |frames|
  {
    Leads(w, Slots(frames, n)) && !StopsHere(SubAt(w, Slots(frames, n)).body, key, diff)
  }

  /** The body of the n-th page of the path. */
  ghost function BodyAt(w: Tree, frames: seq<PutFrame>, n: nat): Tree
    requires n <= |frames| && Leads(w, Slots(frames, n))
  {
    SubAt(w, Slots(frames, n)).body
  }

  lemma ReachedPage(w: Tree, frames: seq<PutFrame>, key: Key, n: nat, view: map<nat, PageView>)
    requires Reached(w, frames, key) && n < |frames| && Distinct(w) && view == Views(w)
    ensures Leads(w, Slots(frames, n)) && frames[n].id == SubAt(w, Slots(frames, n)).id
    ensures frames[n].id in view && view[frames[n].id] == PageOf(BodyAt(w, frames, n))
    ensures frames[n].leaf == Find(BodyAt(w, frames, n), key)
  {
    assert Chosen(w, frames, key, n);
    PageStored(w, Slots(frames, n), view);
  }

  lemma {:induction false} PassedSlot(t: Tree, key: Key, diff: nat)
    requires !StopsHere(t, key, diff)
    ensures InsertSlot(t, key, diff) == Find(t, key) + if Bit(key, diff) then 1 else 0
  {
    match t
    case Node(d, l, r) => PassedSlot(if !Bit(key, d) then l else r, key, diff);
    case _ =>
  }

  /** InsertSlotFromPath: the page and the slot where the new record belongs. */
  method InsertSlotFromPath(nodes: HeapNodeStore, frames: seq<PutFrame>, key: Key, cmp: int, diff: nat, ghost w: Tree)
    returns (target: nat, slot: nat)
    requires nodes.Valid() && Distinct(w) && nodes.View() == Views(w)
    requires Reached(w, frames, key) && (cmp < 0 <==> !Bit(key, diff))
    ensures Target(w, frames, key, diff, target)
    ensures Leads(w, Slots(frames, target)) && slot == InsertSlot(BodyAt(w, frames, target), key, diff)
  {
    hide *;
    ReachedSome(w, frames, key);
    var i := 0;
    while i < |frames|
      invariant i <= |frames|
      invariant forall n: nat :: n < i ==> PassesPage(w, frames, key, diff, n)
    {
      ReachedPage(w, frames, key, i, nodes.View());
      ghost var body := BodyAt(w, frames, i);
      var node := nodes.Get(frames[i].id);
      node.ViewHolds(body);
      var s, found := node.InsertSlotAbovePath(key, diff, frames[i].leaf, body);
      PageStops(w, frames, key, diff, i);
      if found {
        return i, s;
      }
      i := i + 1;
    }
    var last := |frames| - 1;
    ReachedPage(w, frames, key, last, nodes.View());
    PageStops(w, frames, key, diff, last);
    assert PassesPage(w, frames, key, diff, last);
    PassedSlot(BodyAt(w, frames, last), key, diff);
    if cmp < 0 {
      return last, frames[last].leaf;
    }
    return last, frames[last].leaf + 1;
  }

  lemma ReachedSome(w: Tree, frames: seq<PutFrame>, key: Key)
    requires Reached(w, frames, key)
    ensures frames != []
  {
  }

  lemma PageStops(w: Tree, frames: seq<PutFrame>, key: Key, diff: nat, n: nat)
    requires n < |frames| && Leads(w, Slots(frames, n))
    ensures PassesPage(w, frames, key, diff, n) <==> !StopsHere(BodyAt(w, frames, n), key, diff)
    ensures (forall m: nat :: m < n ==> PassesPage(w, frames, key, diff, m)) ==>
      StopsHere(BodyAt(w, frames, n), key, diff) || n == |frames| - 1 ==> Target(w, frames, key, diff, n)
  {
  }

  // ------------------------------------------------- insertion, page by page

  /** Passing a page, the insertion happens below the slot the key leads to. */
  lemma {:induction false} InsertThrough(t: Tree, key: Key, diff: nat, pos: Position)
    requires !StopsHere(t, key, diff)
    ensures Insert(t, key, diff, pos) == SetLeaf(t, Find(t, key), Insert(LeafAt(t, Find(t, key)), key, diff, pos))
  {
    match t
    case Node(d, l, r) => InsertThrough(if !Bit(key, d) then l else r, key, diff, pos);
    case _ =>
  }

  /** In the page that takes the record, nothing below its slots changes. */
  lemma {:induction false} InsertIsHere(t: Tree, key: Key, diff: nat, pos: Position)
    requires StopsHere(t, key, diff) || LeafAt(t, Find(t, key)).Rec?
    ensures Insert(t, key, diff, pos) == InsertHere(t, key, diff, pos)
  {
    match t
    case Node(d, l, r) =>
      if diff >= d {
        InsertIsHere(if !Bit(key, d) then l else r, key, diff, pos);
      }
    case _ =>
  }

  /** Insertion into the whole tree is insertion into the page at any point of the path not
      past the target, put back in its place. */
  lemma {:induction false} InsertDown(w: Tree, frames: seq<PutFrame>, key: Key, diff: nat, pos: Position, n: nat)
    requires Reached(w, frames, key) && n < |frames|
    requires forall m: nat :: m < n ==> PassesPage(w, frames, key, diff, m)
    ensures Leads(w, Slots(frames, n))
    ensures var s := SubAt(w, Slots(frames, n));
      && Insert(s, key, diff, pos) == Sub(s.id, Insert(s.body, key, diff, pos))
      && Insert(w, key, diff, pos) == Graft(w, Slots(frames, n), Insert(s, key, diff, pos))
      && Best(s, key) == Best(w, key)
  {
    hide Insert, Best, StopsHere, Find, LeafAt, SetLeaf, SubAt, Leads, Graft;
    assert Chosen(w, frames, key, n);
    var s := SubAt(w, Slots(frames, n));
    InsertSub(s, key, diff, pos);
    if n == 0 {
      SlotsEmpty(frames, 0);
      GraftRoot(w);
    } else {
      InsertDown(w, frames, key, diff, pos, n - 1);
      assert PassesPage(w, frames, key, diff, n - 1);
      assert Chosen(w, frames, key, n - 1);
      var up := SubAt(w, Slots(frames, n - 1));
      SlotsNext(frames, n - 1);
      GraftUp(w, Slots(frames, n - 1), frames[n - 1].leaf, Insert(s, key, diff, pos));
      InsertThrough(up.body, key, diff, pos);
      BestThrough(up, key);
    }
  }

  lemma InsertSub(s: Tree, key: Key, diff: nat, pos: Position)
    requires s.Sub?
    ensures Insert(s, key, diff, pos) == Sub(s.id, Insert(s.body, key, diff, pos))
  {
  }

  lemma GraftRoot(w: Tree)
    requires Leads(w, [])
    ensures SubAt(w, []) == w && w.Sub?
    ensures forall s: Tree :: s.Sub? && s.id == w.id ==> Graft(w, [], s) == s
  {
  }

  /** At the target, the page itself takes the record. */
  lemma InsertAtTarget(w: Tree, frames: seq<PutFrame>, key: Key, diff: nat, pos: Position, target: nat)
    requires Reached(w, frames, key) && Target(w, frames, key, diff, target)
    ensures Leads(w, Slots(frames, target))
    ensures var body := BodyAt(w, frames, target);
      Insert(body, key, diff, pos) == InsertHere(body, key, diff, pos) && Best(body, key) == Best(w, key)
  {
    InsertDown(w, frames, key, diff, pos, target);
    assert Chosen(w, frames, key, target);
    InsertIsHere(BodyAt(w, frames, target), key, diff, pos);
  }
}
