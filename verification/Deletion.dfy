/** Taking a record out (DeleteFrom, DeleteFromChild, the merges and CompressRoot of
    index.h). On the way back up, a page that became empty is freed, and a page that became
    small is merged into its parent or with a sibling. */
module Deletion {
  import opened Wrappers
  import opened Keys
  import opened Patricia
  import opened PageTree
  import opened Cartesian
  import opened NodePages
  import opened NodeStore
  import opened Paging
  import opened Alignment
  import opened PageBuilder
  import opened Boundary
  import opened Search
  import opened Shrinking
  import opened Sequences

  // ------------------------------------------------------ deletion in one page

  /** Deletion in the whole tree, seen from one page: the slot the key leads to goes, or
      what is below it changes. */
  lemma {:induction false} DeleteThrough(t: Tree, key: Key)
    ensures var i := Find(t, key);
      var below := Delete(LeafAt(t, i), key);
      Delete(t, key) ==
        match below
        case None => if Count(t) == 1 then None else Some(DeleteHere(t, i))
        case Some(s) => Some(SetLeaf(t, i, s))
  {
    match t
    case Node(d, l, r) => DeleteThrough(if !Bit(key, d) then l else r, key);
    case _ =>
  }

  lemma {:induction false} DeleteLeaf(t: Tree, i: nat, j: nat)
    requires i < Count(t) && Count(t) > 1 && j < Count(t) - 1
    ensures LeafAt(DeleteHere(t, i), j) == LeafAt(t, if j < i then j else j + 1)
  {
    var Node(d, l, r) := t;
    if i < Count(l) {
      if Count(l) > 1 && j < Count(l) - 1 {
        DeleteLeaf(l, i, j);
      }
    } else if Count(r) > 1 && j >= Count(l) {
      DeleteLeaf(r, i - Count(l), j - Count(l));
    }
  }

  /** The pages below the slots that stay are untouched. */
  lemma {:induction false} DeleteViews(t: Tree, i: nat)
    requires i < Count(t) && Count(t) > 1 && WellPaged(t)
    ensures Views(DeleteHere(t, i)) == Others(t, i)
    ensures WellPaged(DeleteHere(t, i))
  {
    hide Views, Rest, Fits, Part, Swap, IsPart;
    LeafPart(t, i);
    var left := PartStep(t, i, 1);
    if left {
      if Count(t.left) == 1 {
        PartAll(t.left);
      } else {
        LeafPart(t.left, i);
        ViewsLeaf(t.left, i);
        DeleteViews(t.left, i);
        NodeViews(DeleteHere(t, i));
      }
    } else {
      if Count(t.right) == 1 {
        PartAll(t.right);
        MapNothing(Views(t.left));
      } else {
        LeafPart(t.right, i - Count(t.left));
        ViewsLeaf(t.right, i - Count(t.left));
        DeleteViews(t.right, i - Count(t.left));
        NodeViews(DeleteHere(t, i));
      }
    }
  }

  lemma MapNothing(v: map<nat, PageView>)
    ensures v + map[] == v
  {
  }

  /** Where the boundaries of the page without slot i come from. */
  lemma DeleteEnds(t: Tree, i: nat, view: map<nat, PageView>)
    requires i < Count(t) && Count(t) > 1 && WellPaged(t) && Within(Others(t, i), view)
    ensures var t2 := DeleteHere(t, i);
      && First(t2) == (if i == 0 then First(LeafAt(t, 1)) else First(t))
      && Last(t2) == (if i == Count(t) - 1 then Last(LeafAt(t, Count(t) - 2)) else Last(t))
    ensures i == 0 ==> Within(Views(LeafAt(t, 1)), view)
    ensures i == Count(t) - 1 ==> Within(Views(LeafAt(t, Count(t) - 2)), view)
  {
    hide Views, Rest, Fits, LeafAt, First, Last, DeleteHere, Others;
    var t2 := DeleteHere(t, i);
    DeleteViews(t, i);
    EndLeaves(t);
    EndLeaves(t2);
    DeleteLeaf(t, i, 0);
    DeleteLeaf(t, i, Count(t) - 2);
    LeafWithin(t2, 0, view);
    LeafWithin(t2, Count(t) - 2, view);
  }

  /** DeleteAtIncremental: a slot leaves its page, and the boundaries follow. */
  method DeleteAtIncremental(nodes: HeapNodeStore, id: nat, slot: nat, ghost t: Tree)
    requires nodes.Valid() && id in nodes.View() && nodes.View()[id] == PageOf(t)
    requires slot < Count(t) && WellPaged(t) && Within(Others(t, slot), nodes.View())
    modifies nodes.Repr
    ensures nodes.Valid() && unchanged(nodes)
    ensures nodes.View()
      == old(nodes.View())[id := if Count(t) == 1 then EMPTY_PAGE else PageOf(DeleteHere(t, slot))]
  {
    hide *;
    var node := nodes.Get(id);
    node.StoredReps(t);
    var size := node.size;
    var first, last := node.firstPos, node.lastPos;
    PageEnds(t);
    if size > 1 {
      DeleteEnds(t, slot, nodes.View());
      if slot == 0 {
        LeafRep(t, 1);
        first := MinPos(nodes, node.reps[1], LeafAt(t, 1));
      }
      if slot == size - 1 {
        LeafRep(t, size - 2);
        last := MaxPos(nodes, node.reps[size - 2], LeafAt(t, size - 2));
      }
      PageEnds(DeleteHere(t, slot));
    }
    nodes.RemoveSlotIn(id, slot, first, last, t);
  }

  lemma PageEnds(t: Tree)
    ensures PageOf(t) == PageView(Reps(t), Routes(t), First(t), Last(t))
  {
  }

  // ------------------------------------------------- a page and its surroundings

  /** The pages of s are stored, and around them the pages of rest. */
  ghost predicate Stored(view: map<nat, PageView>, rest: map<nat, PageView>, s: Tree) {
    s.Sub? && WellPaged(s) && rest.Keys !! Views(s).Keys && view == rest + Views(s)
  }

  /** The same, but the boundaries of the topmost page are still to be brought up to date. */
  ghost predicate Loose(view: map<nat, PageView>, rest: map<nat, PageView>, s: Tree) {
    && s.Sub? && s.id in view && Stored(view[s.id := PageOf(s.body)], rest, s)
    && view[s.id].reps == Reps(s.body) && view[s.id].routes == Routes(s.body)
  }

  /** The surroundings of the page in slot i of s. */
  ghost function AroundSlot(rest: map<nat, PageView>, s: Tree, i: nat): map<nat, PageView>
    requires s.Sub? && i < Count(s.body)
  {
    rest + Others(s.body, i)[s.id := PageOf(s.body)]
  }

  lemma StoredSlot(view: map<nat, PageView>, rest: map<nat, PageView>, s: Tree, i: nat)
    requires Stored(view, rest, s) && i < Count(s.body) && LeafAt(s.body, i).Sub?
    ensures Stored(view, AroundSlot(rest, s, i), LeafAt(s.body, i))
    ensures s.id in view && view[s.id] == PageOf(s.body)
    ensures LeafAt(s.body, i).id in view && view[LeafAt(s.body, i).id] == PageOf(LeafAt(s.body, i).body)
  {
    hide Views, Fits, Distinct, Others, LeafAt;
    PageViews(s);
    ViewsLeaf(s.body, i);
    PageViews(LeafAt(s.body, i));
    SlotMaps(rest, Others(s.body, i), Views(LeafAt(s.body, i)), s.id, PageOf(s.body));
  }

  lemma SlotMaps(rest: map<nat, PageView>, o: map<nat, PageView>, v: map<nat, PageView>, id: nat, page: PageView)
    requires rest.Keys !! (o + v)[id := page].Keys && id !in o + v && o.Keys !! v.Keys
    ensures (rest + o[id := page]).Keys !! v.Keys
    ensures rest + (o + v)[id := page] == (rest + o[id := page]) + v
    ensures id in rest + (o + v)[id := page] && (rest + (o + v)[id := page])[id] == page
    ensures forall c :: c in v ==> c in rest + (o + v)[id := page] && (rest + (o + v)[id := page])[c] == v[c]
  {
  }

  /** The page in slot i was exchanged for c2; only the boundaries above it are behind. */
  lemma SlotChanged(view: map<nat, PageView>, rest: map<nat, PageView>, s: Tree, i: nat, c2: Tree)
    requires s.Sub? && WellPaged(s) && rest.Keys !! Views(s).Keys
    requires i < Count(s.body) && LeafAt(s.body, i).Sub? && c2.Sub? && c2.id == LeafAt(s.body, i).id
    requires Stored(view, AroundSlot(rest, s, i), c2)
    ensures Loose(view, rest, Sub(s.id, SetLeaf(s.body, i, c2)))
    ensures view[s.id] == PageOf(s.body)
  {
    hide Views, Fits, Distinct, Others, LeafAt, SetLeaf;
    var body := SetLeaf(s.body, i, c2);
    PageViews(s);
    ViewsLeaf(s.body, i);
    SetLeafSame(s.body, i, c2);
    PageEnds(s.body);
    ApartSlot(rest, Others(s.body, i), Views(c2), s.id, PageOf(s.body));
    ViewsSet(s.body, i, c2);
    PageViews(Sub(s.id, body));
    LooseMaps(rest, Others(s.body, i), Views(c2), s.id, PageOf(s.body), PageOf(body));
  }

  lemma ApartSlot(rest: map<nat, PageView>, o: map<nat, PageView>, v: map<nat, PageView>, id: nat, page: PageView)
    requires (rest + o[id := page]).Keys !! v.Keys
    ensures v.Keys !! o.Keys && v.Keys !! rest.Keys && id !in v
  {
    assert id in o[id := page] && forall c :: c in o ==> c in o[id := page];
    assert forall c :: c in rest || c in o[id := page] ==> c in rest + o[id := page];
  }

  lemma LooseMaps(rest: map<nat, PageView>, o: map<nat, PageView>, v: map<nat, PageView>, id: nat, page: PageView,
                  page2: PageView)
    requires v.Keys !! o.Keys && v.Keys !! rest.Keys && id !in v && id !in o && id !in rest
    ensures ((rest + o[id := page]) + v)[id := page2] == rest + (o + v)[id := page2]
    ensures id in (rest + o[id := page]) + v && ((rest + o[id := page]) + v)[id] == page
  {
  }

  // ------------------------------------------------------------------ merging

  /** What a rearrangement below one page has to deliver. */
  ghost predicate Rearranged(view: map<nat, PageView>, rest: map<nat, PageView>, s: Tree, s2: Tree) {
    Stored(view, rest, s2) && s.Sub? && s2.id == s.id && Erase(s2) == Erase(s)
  }

  /** The page above takes over the slots of the page in slot i. */
  lemma Absorbed(view: map<nat, PageView>, rest: map<nat, PageView>, s: Tree, i: nat, k: Records)
    requires Loose(view, rest, s) && Valid(s, k) && i < Count(s.body) && LeafAt(s.body, i).Sub?
    requires Count(s.body) - 1 + Count(LeafAt(s.body, i).body) <= MAX_NODE_REPS
    ensures var c := LeafAt(s.body, i);
      var t := SetLeaf(s.body, i, c.body);
      && c.id in view && view[c.id] == PageOf(c.body) && c.id != s.id
      && Valid(t, k) && Distinct(t) && Within(Views(t), view) && Count(t) <= MAX_NODE_REPS
      && Reps(t) == Exchange(Reps(s.body), i, i + 1, Reps(c.body))
      && Diffs(t) == Exchange(Diffs(s.body), i, i, Diffs(c.body))
      && Rearranged(view[s.id := PageOf(t)] - {c.id}, rest, s, Sub(s.id, t))
  {
    hide Views, Fits, Distinct, Others, LeafAt, SetLeaf, Valid, Reps, Diffs, Routes, Erase, PageOf;
    var c := LeafAt(s.body, i);
    var t := SetLeaf(s.body, i, c.body);
    var all := view[s.id := PageOf(s.body)];
    PageViews(s);
    ViewsLeaf(s.body, i);
    PageViews(c);
    AbsorbMaps(rest, Others(s.body, i), Views(c.body), s.id, c.id, PageOf(s.body), PageOf(c.body), PageOf(t), view);
    ViewsSet(s.body, i, c.body);
    PageViews(Sub(s.id, t));
    SetLeafReps(s.body, i, c.body);
    SetLeafDiffs(s.body, i, c.body);
    SetLeafItself(s.body, i);
    SetLeafErase(s.body, i, c, c.body) by { EraseSub(c); }
    SameErased(s, Sub(s.id, t), k);
  }

  lemma AbsorbMaps(rest: map<nat, PageView>, o: map<nat, PageView>, b: map<nat, PageView>, id: nat, cid: nat,
                   page: PageView, child: PageView, page2: PageView, view: map<nat, PageView>)
    requires var below := o + b[cid := child];
      && view[id := page] == rest + below[id := page] && rest.Keys !! below[id := page].Keys && id !in below
    requires id in view && o.Keys !! b[cid := child].Keys && cid !in b
    ensures cid in view && view[cid] == child && cid != id && b.Keys !! o.Keys
    ensures id !in o + b && rest.Keys !! (o + b)[id := page2].Keys
    ensures Within(o + b, view)
    ensures view[id := page2] - {cid} == rest + (o + b)[id := page2]
  {
    var below := o + b[cid := child];
    forall c: nat
      ensures c in below <==> c in o + b || c == cid
      ensures c in o + b ==> c in view && view[c] == (o + b)[c] && c != id && c != cid
      ensures c in view && c != id && c != cid ==> c in rest + (o + b) && (rest + (o + b))[c] == view[c]
      ensures c in rest ==> c !in o && c !in b && c != cid && c != id && c in view && view[c] == rest[c]
    {
      AbsorbAt(rest, o, b, id, cid, page, child, view, c);
    }
    assert cid in below && view[id := page][cid] == child;
    AbsorbResult(rest, o + b, id, cid, page2, view);
  }

  lemma AbsorbResult(rest: map<nat, PageView>, v: map<nat, PageView>, id: nat, cid: nat, page2: PageView,
                     view: map<nat, PageView>)
    requires id in view && cid != id && cid !in v && cid !in rest
    requires forall c :: c in v ==> c in view && view[c] == v[c] && c != id && c != cid
    requires forall c :: c in view && c != id && c != cid ==> c in rest + v && (rest + v)[c] == view[c]
    requires forall c :: c in rest ==> c !in v && c != id && c in view && view[c] == rest[c]
    ensures view[id := page2] - {cid} == rest + v[id := page2]
  {
  }

  lemma AbsorbAt(rest: map<nat, PageView>, o: map<nat, PageView>, b: map<nat, PageView>, id: nat, cid: nat,
                 page: PageView, child: PageView, view: map<nat, PageView>, c: nat)
    requires var below := o + b[cid := child];
      && view[id := page] == rest + below[id := page] && rest.Keys !! below[id := page].Keys && id !in below
    requires id in view && o.Keys !! b[cid := child].Keys && cid !in b
    ensures c in o + b[cid := child] <==> c in o + b || c == cid
    ensures c in o + b ==> c in view && view[c] == (o + b)[c] && c != id && c != cid
    ensures c in view && c != id && c != cid ==> c in rest + (o + b) && (rest + (o + b))[c] == view[c]
    ensures c in rest ==> c !in o && c !in b && c != cid && c != id && c in view && view[c] == rest[c]
  {
    var below := o + b[cid := child];
    var v := view[id := page];
    assert cid in b[cid := child] && cid in below && cid in below[id := page] && id in below[id := page];
    assert c in b ==> c in b[cid := child];
    assert c in o || c in b ==> c in below && c in below[id := page];
    assert c in rest ==> c in v && v[c] == (rest + below[id := page])[c];
    assert c in below ==> c in v && v[c] == below[c];
    assert c in view && c != id ==> c in v && v[c] == view[c] && (c in rest || c in below);
  }

  lemma SameErased(s: Tree, s2: Tree, k: Records)
    requires s.Sub? && s2.Sub? && Erase(s.body) == Erase(s2.body)
    ensures Erase(s) == Erase(s2)
    ensures Valid(s, k) ==> Valid(s2, k) && Valid(s2.body, k)
  {
    EraseKeeps(s, k);
    EraseKeeps(s2, k);
  }

  lemma LooseMeans(view: map<nat, PageView>, rest: map<nat, PageView>, s: Tree)
    requires Loose(view, rest, s)
    ensures s.Sub? && s.id in view && WellPaged(s) && WellPaged(s.body) && rest.Keys !! Views(s).Keys
    ensures view[s.id].reps == Reps(s.body) && view[s.id].routes == Routes(s.body)
    ensures Count(s.body) <= MAX_NODE_REPS
  {
  }

  /** The root page is s itself or lies around s, so no page below s is the root. */
  ghost predicate UnderRoot(rest: map<nat, PageView>, s: Tree) {
    s.Sub? && (s.id == 0 || 0 in rest)
  }

  lemma BelowRoot(view: map<nat, PageView>, rest: map<nat, PageView>, s: Tree, i: nat)
    requires Loose(view, rest, s) && UnderRoot(rest, s) && i < Count(s.body) && LeafAt(s.body, i).Sub?
    ensures LeafAt(s.body, i).id != 0
  {
    ViewsLeaf(s.body, i);
    assert LeafAt(s.body, i).id in Views(LeafAt(s.body, i));
    assert LeafAt(s.body, i).id in Views(s.body);
  }

  /** MergeChildIntoParent: parent and child fit into one page, the parent's. */
  method MergeChildIntoParent(nodes: HeapNodeStore, k: Records, id: nat, slot: nat, childId: nat,
                              ghost s: Tree, ghost rest: map<nat, PageView>)
    returns (ghost s2: Tree)
    requires nodes.Valid() && Loose(nodes.View(), rest, s) && UnderRoot(rest, s) && s.id == id && Valid(s, k)
    requires slot < Count(s.body) && LeafAt(s.body, slot).Sub? && LeafAt(s.body, slot).id == childId
    requires Count(s.body) - 1 + Count(LeafAt(s.body, slot).body) <= MAX_NODE_REPS
    modifies nodes, nodes.Repr
    ensures nodes.Valid() && nodes.Repr == old(nodes.Repr)
    ensures Rearranged(nodes.View(), rest, s, s2) && s.Sub? && s2 == Absorbing(s, slot)
  {
    hide *;
    LooseMeans(nodes.View(), rest, s);
    AbsorbingIs(s, slot);
    ghost var child0 := LeafAt(s.body, slot);
    BelowRoot(nodes.View(), rest, s, slot);
    Absorbed(nodes.View(), rest, s, slot, k);
    ghost var t := SetLeaf(s.body, slot, child0.body);
    var node := nodes.Get(id);
    node.SlotsHold(s.body);
    var child := nodes.Get(childId);
    child.ViewHolds(child0.body);
    child.StoredReps(child0.body);
    var parentDiffs := node.RouteDiffs(s.body);
    var childDiffs := child.RouteDiffs(child0.body);
    var newDiffs := Exchange(parentDiffs, slot, slot, childDiffs);
    var reps := Exchange(node.reps[..node.size], slot, slot + 1, child.reps[..child.size]);
    WriteNodeWithDiffs(nodes, k, id, reps, newDiffs, t);
    var freed := nodes.Free(childId);
    s2 := Sub(id, t);
  }

  lemma JoinedShape(body: Tree, p: nat)
    requires p + 1 < Count(body) && LeafAt(body, p).Sub? && LeafAt(body, p + 1).Sub? && DirectPair(body, p)
    ensures IsPart(body, p, 2)
    ensures var a, b, m, t := LeafAt(body, p), LeafAt(body, p + 1), Joined(body, p), JoinedAbove(body, p);
      && Count(t) == Count(body) - 1 && Count(m) == Count(a.body) + Count(b.body)
      && Reps(m) == Reps(a.body) + Reps(b.body)
      && Diffs(m) == Diffs(a.body) + [Diffs(body)[p]] + Diffs(b.body)
      && Reps(t) == Reps(body)[..p + 1] + Reps(body)[p + 2..]
      && Diffs(t) == Diffs(body)[..p] + Diffs(body)[p + 1..]
  {
    hide Reps, Diffs, IsPart, Part, Swap, DirectPair, LeafAt;
    DirectPart(body, p);
    var a, b, m := LeafAt(body, p), LeafAt(body, p + 1), Joined(body, p);
    var pair, joined := Node(Diffs(body)[p], a, b), Sub(a.id, m);
    NodeReps(m);
    DiffsNode(m);
    SwapReps(body, p, 2, joined);
    SwapDiffs(body, p, 2, joined);
    LeafRep(body, p);
    SubReps(a.id, m);
    SubDiffs(a.id, m);
    JoinedSlot(Reps(body), p, a.id);
    DropOne(Diffs(body), p);
  }

  lemma JoinedValid(body: Tree, p: nat, k: Records)
    requires p + 1 < Count(body) && LeafAt(body, p).Sub? && LeafAt(body, p + 1).Sub? && DirectPair(body, p)
    requires Valid(body, k)
    ensures IsPart(body, p, 2)
    ensures var m, t := Joined(body, p), JoinedAbove(body, p);
      Erase(t) == Erase(body) && Valid(m, k) && Valid(t, k)
  {
    hide Diffs, IsPart, Part, Swap, DirectPair, LeafAt, Valid;
    DirectPart(body, p);
    var a, b, m := LeafAt(body, p), LeafAt(body, p + 1), Joined(body, p);
    var pair, joined := Node(Diffs(body)[p], a, b), Sub(a.id, m);
    SwapItself(body, p, 2);
    SwapErase(body, p, 2, joined, pair);
    EraseKeeps(body, k);
    EraseKeeps(JoinedAbove(body, p), k);
    PartValid(body, k, p, 2);
    EraseKeeps(pair, k);
    EraseKeeps(m, k);
  }

  lemma SubDiffs(id: nat, s: Tree)
    ensures Diffs(Sub(id, s)) == []
  {
  }

  lemma JoinedSlot(reps: seq<Rep>, p: nat, id: nat)
    requires p + 1 < |reps| && reps[p] == Child(id)
    ensures Exchange(reps, p, p + 2, [Child(id)]) == reps[..p + 1] + reps[p + 2..]
  {
  }

  lemma DropOne(diffs: seq<nat>, p: nat)
    requires p < |diffs|
    ensures Exchange(diffs, p, p + 1, []) == diffs[..p] + diffs[p + 1..]
  {
  }

  lemma HalvesMean(rest: map<nat, PageView>, o: map<nat, PageView>, l: map<nat, PageView>, r: map<nat, PageView>,
                   id: nat, a: nat, b: nat, pa: PageView, pb: PageView, page: PageView)
    requires rest.Keys !! (o + Halves(l, r, a, b, pa, pb))[id := page].Keys && id !in o + Halves(l, r, a, b, pa, pb)
    requires o.Keys !! Halves(l, r, a, b, pa, pb).Keys && l[a := pa].Keys !! r[b := pb].Keys && a !in l && b !in r
    ensures Halved(rest, o, l, r, id, a, b)
  {
    var h := Halves(l, r, a, b, pa, pb);
    assert a in l[a := pa] && b in r[b := pb];
    assert forall c :: c in l[a := pa] || c in r[b := pb] ==> c in h;
    assert forall c :: c in o || c in h ==> c in o + h;
    assert id in (o + h)[id := page] && forall c :: c in o + h ==> c in (o + h)[id := page];
  }

  /** Joining two pages changes just these and the page above. */
  lemma JoinMaps(rest: map<nat, PageView>, o: map<nat, PageView>, l: map<nat, PageView>, r: map<nat, PageView>,
                 id: nat, a: nat, b: nat, pa: PageView, pb: PageView, page: PageView,
                 joined: PageView, above: PageView, view: map<nat, PageView>)
    requires Halved(rest, o, l, r, id, a, b) && id in view
    requires view[id := page] == Whole(rest, o, Halves(l, r, a, b, pa, pb), id, page)
    ensures a in view && view[a] == pa && b in view && view[b] == pb
    ensures Within(l + r, view) && Within(o + (l + r)[a := joined], view[a := joined])
    ensures view[a := joined][id := above] - {b} == Whole(rest, o, (l + r)[a := joined], id, above)
  {
    hide *;
    var was, now := view[id := page], Whole(rest, o, (l + r)[a := joined], id, above);
    forall c: nat ensures JoinPoint(was, now, l, r, id, a, b, page, pa, pb, joined, above, c) {
      HalvedAt(rest, o, l, r, id, a, b, above, joined, pa, pb, page, c);
      JoinedAt(rest, o, l, r, id, a, b, joined, above);
      IsJoinPoint(was, now, l, r, id, a, b, page, pa, pb, joined, above, c);
    }
    JoinedApart(rest, o, l, r, id, a, b, joined);
    WholeBelow(rest, o, (l + r)[a := joined], id, above);
    JoinEquals(view, was, now, l, r, id, a, b, page, pa, pb, joined, above);
    JoinWithin(view, now, o, l, r, id, a, b, joined, above);
  }

  /** How the pages before and after the joining agree at c. */
  ghost predicate JoinPoint(was: map<nat, PageView>, now: map<nat, PageView>, l: map<nat, PageView>,
                            r: map<nat, PageView>, id: nat, a: nat, b: nat, page: PageView, pa: PageView,
                            pb: PageView, joined: PageView, above: PageView, c: nat) {
    && (c in was <==> c in now || c == b)
    && (c in was ==> was[c] == if c == id then page else if c == a then pa else if c == b then pb else now[c])
    && (c in l ==> c in now && now[c] == l[c]) && (c in r ==> c in now && now[c] == r[c])
    && id in now && a in now && now[id] == above && now[a] == joined && b !in now
  }

  lemma IsJoinPoint(was: map<nat, PageView>, now: map<nat, PageView>, l: map<nat, PageView>, r: map<nat, PageView>,
                    id: nat, a: nat, b: nat, page: PageView, pa: PageView, pb: PageView, joined: PageView,
                    above: PageView, c: nat)
    requires c in was <==> c in now || c == b
    requires c in was ==> was[c] == if c == id then page else if c == a then pa else if c == b then pb else now[c]
    requires (c in l ==> c in now && now[c] == l[c]) && (c in r ==> c in now && now[c] == r[c])
    requires id in now && a in now && now[id] == above && now[a] == joined && b !in now
    ensures JoinPoint(was, now, l, r, id, a, b, page, pa, pb, joined, above, c)
  {
  }

  lemma JoinEquals(view: map<nat, PageView>, was: map<nat, PageView>, now: map<nat, PageView>, l: map<nat, PageView>,
                   r: map<nat, PageView>, id: nat, a: nat, b: nat, page: PageView, pa: PageView, pb: PageView,
                   joined: PageView, above: PageView)
    requires id in view && a != id && b != id && a != b && was == view[id := page]
    requires forall c: nat :: JoinPoint(was, now, l, r, id, a, b, page, pa, pb, joined, above, c)
    requires id !in l + r && b !in l + r && a !in l + r
    ensures a in view && view[a] == pa && b in view && view[b] == pb && Within(l + r, view)
    ensures view[a := joined][id := above] - {b} == now
  {
    forall c: nat
      ensures c in was <==> c in now || c == b
      ensures c in was ==> was[c] == if c == id then page else if c == a then pa else if c == b then pb else now[c]
      ensures (c in l ==> c in now && now[c] == l[c]) && (c in r ==> c in now && now[c] == r[c])
    {
      assert JoinPoint(was, now, l, r, id, a, b, page, pa, pb, joined, above, c);
    }
    assert JoinPoint(was, now, l, r, id, a, b, page, pa, pb, joined, above, id);
  }

  lemma JoinWithin(view: map<nat, PageView>, now: map<nat, PageView>, o: map<nat, PageView>, l: map<nat, PageView>,
                   r: map<nat, PageView>, id: nat, a: nat, b: nat, joined: PageView, above: PageView)
    requires Within(o + (l + r)[a := joined], now) && view[a := joined][id := above] - {b} == now
    requires id !in o + (l + r)[a := joined] && b !in o + (l + r)[a := joined]
    ensures Within(o + (l + r)[a := joined], view[a := joined])
  {
    forall c | c in o + (l + r)[a := joined] ensures c in view[a := joined] && view[a := joined][c] == now[c] {
      assert c in now && now[c] == (view[a := joined][id := above] - {b})[c];
    }
  }

  lemma JoinedAt(rest: map<nat, PageView>, o: map<nat, PageView>, l: map<nat, PageView>, r: map<nat, PageView>,
                 id: nat, a: nat, b: nat, joined: PageView, above: PageView)
    requires Halved(rest, o, l, r, id, a, b)
    ensures var now := Whole(rest, o, (l + r)[a := joined], id, above);
      id in now && a in now && now[id] == above && now[a] == joined && b !in now
  {
  }

  lemma JoinedApart(rest: map<nat, PageView>, o: map<nat, PageView>, l: map<nat, PageView>, r: map<nat, PageView>,
                    id: nat, a: nat, b: nat, joined: PageView)
    requires Halved(rest, o, l, r, id, a, b)
    ensures id !in l + r && b !in l + r && a !in l + r && id !in o + (l + r)[a := joined]
    ensures b !in o + (l + r)[a := joined] && id != a && id != b && a != b
    ensures (l + r)[a := joined].Keys !! o.Keys
  {
  }

  lemma JoinableMeans(s: Tree, p: nat)
    requires Joinable(s, p)
    ensures s.Sub? && p + 1 < Count(s.body) && LeafAt(s.body, p).Sub? && LeafAt(s.body, p + 1).Sub?
    ensures DirectPair(s.body, p) && IsPart(s.body, p, 2)
    ensures Part(s.body, p, 2) == Node(Diffs(s.body)[p], LeafAt(s.body, p), LeafAt(s.body, p + 1))
    ensures Count(LeafAt(s.body, p).body) + Count(LeafAt(s.body, p + 1).body) <= MAX_NODE_REPS
  {
    DirectPart(s.body, p);
  }

  /** The pages below s, split at the pair in the slots p and p + 1. */
  lemma JoinHalves(view: map<nat, PageView>, rest: map<nat, PageView>, s: Tree, p: nat)
    requires Loose(view, rest, s) && Joinable(s, p)
    ensures IsPart(s.body, p, 2)
    ensures var a, b := LeafAt(s.body, p), LeafAt(s.body, p + 1);
      var o := Rest(s.body, p, 2);
      && Halved(rest, o, Views(a.body), Views(b.body), s.id, a.id, b.id) && s.id in view
      && WellPaged(a.body) && WellPaged(b.body)
      && view[s.id := PageOf(s.body)]
        == Whole(rest, o, Halves(Views(a.body), Views(b.body), a.id, b.id, PageOf(a.body), PageOf(b.body)), s.id,
                 PageOf(s.body))
  {
    hide Views, Fits, Distinct, Rest, LeafAt, Part, IsPart, Swap, Halved, PageOf, Joinable;
    JoinableMeans(s, p);
    var a, b := LeafAt(s.body, p), LeafAt(s.body, p + 1);
    var pair := Node(Diffs(s.body)[p], a, b);
    PageViews(s);
    ViewsPart(s.body, p, 2);
    NodeViews(pair);
    NodeDistinct(pair);
    PageViews(a);
    PageViews(b);
    HalvesMean(rest, Rest(s.body, p, 2), Views(a.body), Views(b.body), s.id, a.id, b.id,
               PageOf(a.body), PageOf(b.body), PageOf(s.body));
  }

  /** What joining the pair delivers. */
  lemma JoinedPages(view: map<nat, PageView>, rest: map<nat, PageView>, s: Tree, p: nat)
    requires Loose(view, rest, s) && Joinable(s, p)
    ensures s.Sub? && p + 1 < Count(s.body) && LeafAt(s.body, p).Sub? && LeafAt(s.body, p + 1).Sub?
    ensures IsPart(s.body, p, 2) && DirectPair(s.body, p)
    ensures var a, b := LeafAt(s.body, p), LeafAt(s.body, p + 1);
      var m, t := Joined(s.body, p), JoinedAbove(s.body, p);
      && a.id in view && view[a.id] == PageOf(a.body) && b.id in view && view[b.id] == PageOf(b.body)
      && a.id != b.id && a.id != s.id && b.id != s.id
      && Distinct(m) && Within(Views(m), view) && Count(m) <= MAX_NODE_REPS
      && Distinct(t) && Within(Views(t), view[a.id := PageOf(m)]) && Count(t) <= MAX_NODE_REPS
      && Stored(view[a.id := PageOf(m)][s.id := PageOf(t)] - {b.id}, rest, Sub(s.id, t))
  {
    hide Views, Fits, Distinct, Rest, LeafAt, Part, IsPart, Swap, PageOf, Joinable, Diffs, Reps, DirectPair;
    JoinableMeans(s, p);
    var a, b := LeafAt(s.body, p), LeafAt(s.body, p + 1);
    var m, t := Joined(s.body, p), JoinedAbove(s.body, p);
    var o := Rest(s.body, p, 2);
    JoinHalves(view, rest, s, p);
    JoinMaps(rest, o, Views(a.body), Views(b.body), s.id, a.id, b.id, PageOf(a.body), PageOf(b.body), PageOf(s.body),
             PageOf(m), PageOf(t), view);
    JoinedApart(rest, o, Views(a.body), Views(b.body), s.id, a.id, b.id, PageOf(m));
    NodeViews(m);
    NodeDistinct(m);
    PageViews(Sub(a.id, m));
    PageViews(s);
    ViewsSwap(s.body, p, 2, Sub(a.id, m));
    PageViews(Sub(s.id, t));
    JoinedShape(s.body, p);
    JoinedRest(rest, o, Views(a.body), Views(b.body), s.id, a.id, b.id, PageOf(m), PageOf(t));
  }

  lemma JoinedRest(rest: map<nat, PageView>, o: map<nat, PageView>, l: map<nat, PageView>, r: map<nat, PageView>,
                   id: nat, a: nat, b: nat, joined: PageView, above: PageView)
    requires Halved(rest, o, l, r, id, a, b)
    ensures rest.Keys !! (o + (l + r)[a := joined])[id := above].Keys
    ensures l.Keys !! r.Keys && a != b && a != id && b != id
  {
  }

  /** MergeLeftSibling and MergeRightSibling: of two neighbouring pages the left one takes
      all slots; the right one leaves its parent (RemoveMergedParentRep) and is freed. */
  method MergeSiblings(nodes: HeapNodeStore, k: Records, id: nat, leftSlot: nat, leftId: nat, rightId: nat,
                       ghost s: Tree, ghost rest: map<nat, PageView>)
    returns (ghost s2: Tree)
    requires nodes.Valid() && Loose(nodes.View(), rest, s) && UnderRoot(rest, s) && s.id == id && Valid(s, k)
    requires Joinable(s, leftSlot) && leftSlot + 1 < Count(s.body)
    requires LeafAt(s.body, leftSlot) == Sub(leftId, LeafAt(s.body, leftSlot).body)
    requires LeafAt(s.body, leftSlot + 1) == Sub(rightId, LeafAt(s.body, leftSlot + 1).body)
    modifies nodes, nodes.Repr
    ensures nodes.Valid() && nodes.Repr == old(nodes.Repr)
    ensures Rearranged(nodes.View(), rest, s, s2) && s2 == JoinedPair(s, leftSlot)
  {
    hide *;
    JoinedPairIs(s, leftSlot);
    LooseMeans(nodes.View(), rest, s);
    JoinedPages(nodes.View(), rest, s, leftSlot);
    BelowRoot(nodes.View(), rest, s, leftSlot + 1);
    ghost var a, b := LeafAt(s.body, leftSlot), LeafAt(s.body, leftSlot + 1);
    ghost var m, t := Joined(s.body, leftSlot), JoinedAbove(s.body, leftSlot);
    JoinedShape(s.body, leftSlot);
    ValidBody(s, k);
    JoinedValid(s.body, leftSlot, k);
    var node := nodes.Get(id);
    node.SlotsHold(s.body);
    var oldDiffs := node.RouteDiffs(s.body);
    WriteJoined(nodes, k, leftId, rightId, oldDiffs[leftSlot], a.body, b.body, m);
    RemoveMergedParentRep(nodes, k, id, leftSlot + 1, leftSlot, s.body, t);
    var freed := nodes.Free(rightId);
    s2 := Sub(id, t);
    SameErased(s, s2, k);
    IsRearranged(nodes.View(), rest, s, s2);
  }

  /** The left page takes the slots of the right one behind its own. */
  method WriteJoined(nodes: HeapNodeStore, k: Records, leftId: nat, rightId: nat, diff: nat,
                     ghost a: Tree, ghost b: Tree, ghost m: Tree)
    requires nodes.Valid() && leftId in nodes.View() && rightId in nodes.View()
    requires nodes.View()[leftId] == PageOf(a) && nodes.View()[rightId] == PageOf(b)
    requires Reps(m) == Reps(a) + Reps(b) && Diffs(m) == Diffs(a) + [diff] + Diffs(b)
    requires Valid(m, k) && Distinct(m) && Within(Views(m), nodes.View()) && Count(m) <= MAX_NODE_REPS
    modifies nodes.Repr
    ensures nodes.Valid() && unchanged(nodes)
    ensures nodes.View() == old(nodes.View())[leftId := PageOf(m)]
  {
    hide *;
    var left := nodes.Get(leftId);
    var right := nodes.Get(rightId);
    left.ViewHolds(a);
    left.StoredReps(a);
    right.ViewHolds(b);
    right.StoredReps(b);
    var reps := left.reps[..left.size] + right.reps[..right.size];
    var leftDiffs := left.RouteDiffs(a);
    var rightDiffs := right.RouteDiffs(b);
    WriteNodeWithDiffs(nodes, k, leftId, reps, leftDiffs + [diff] + rightDiffs, m);
  }

  lemma IsRearranged(view: map<nat, PageView>, rest: map<nat, PageView>, s: Tree, s2: Tree)
    requires Stored(view, rest, s2) && s.Sub? && s2.Sub? && s2.id == s.id && Erase(s2) == Erase(s)
    ensures Rearranged(view, rest, s, s2)
  {
  }

  lemma ValidBody(s: Tree, k: Records)
    requires s.Sub? && Valid(s, k)
    ensures Valid(s.body, k)
  {
  }

  /** RemoveMergedParentRep: the slot and the diff beside it leave the page. */
  method RemoveMergedParentRep(nodes: HeapNodeStore, k: Records, id: nat, slot: nat, dropDiff: nat,
                               ghost body: Tree, ghost t: Tree)
    requires nodes.Valid() && id in nodes.View()
    requires nodes.View()[id].reps == Reps(body) && nodes.View()[id].routes == Routes(body)
    requires slot < Count(body) && dropDiff < Count(body) - 1 && Count(t) <= MAX_NODE_REPS
    requires Reps(t) == Reps(body)[..slot] + Reps(body)[slot + 1..]
    requires Diffs(t) == Diffs(body)[..dropDiff] + Diffs(body)[dropDiff + 1..]
    requires Valid(t, k) && Distinct(t) && Within(Views(t), nodes.View())
    modifies nodes.Repr
    ensures nodes.Valid() && unchanged(nodes)
    ensures nodes.View() == old(nodes.View())[id := PageOf(t)]
  {
    hide *;
    var node := nodes.Get(id);
    node.SlotsHold(body);
    var oldDiffs := node.RouteDiffs(body);
    var reps := node.reps[..node.size];
    WriteNodeWithDiffs(nodes, k, id, reps[..slot] + reps[slot + 1..], oldDiffs[..dropDiff] + oldDiffs[dropDiff + 1..],
                       t);
  }

  /** Whether the page in slot other and its neighbour, of the given size, can be joined:
      they are a direct pair, both child pages, and fit into one page. */
  method CanJoin(nodes: HeapNodeStore, id: nat, leftSlot: nat, other: nat, size: nat,
                 ghost s: Tree, ghost rest: map<nat, PageView>)
    returns (fits: bool, otherId: nat, otherSize: nat)
    requires nodes.Valid() && Loose(nodes.View(), rest, s) && s.id == id
    requires leftSlot + 1 < Count(s.body) && (other == leftSlot || other == leftSlot + 1)
    requires var c := LeafAt(s.body, if other == leftSlot then leftSlot + 1 else leftSlot);
      c.Sub? && Count(c.body) == size
    ensures fits <==> Joinable(s, leftSlot)
    ensures fits ==>
      LeafAt(s.body, other) == Sub(otherId, LeafAt(s.body, other).body)
      && otherSize == Count(LeafAt(s.body, other).body)
  {
    hide *;
    LooseMeans(nodes.View(), rest, s);
    JoinableIs(s, leftSlot);
    SlotStored(nodes.View(), rest, s, other);
    var node := nodes.Get(id);
    node.SlotsHold(s.body);
    match node.reps[other]
    case Record(_) =>
      return false, 0, 0;
    case Child(c) =>
      otherId := c;
      var sibling := nodes.Get(otherId);
      sibling.ViewHolds(LeafAt(s.body, other).body);
      otherSize := sibling.size;
      fits := false;
      if otherSize + size <= MAX_NODE_REPS {
        fits := node.IsDirectRoutePair(leftSlot, s.body);
      }
  }

  /** MergeChildWithSibling: a small page is joined with the neighbour that forms a direct
      pair with it and fits; with both to choose from, the right one only if it is larger. */
  method MergeChildWithSibling(nodes: HeapNodeStore, k: Records, id: nat, slot: nat, childId: nat,
                               ghost s: Tree, ghost rest: map<nat, PageView>)
    returns (merged: bool, ghost s2: Tree)
    requires nodes.Valid() && Loose(nodes.View(), rest, s) && UnderRoot(rest, s) && s.id == id && Valid(s, k)
    requires slot < Count(s.body) && LeafAt(s.body, slot).Sub? && LeafAt(s.body, slot).id == childId
    modifies nodes, nodes.Repr
    ensures nodes.Valid() && nodes.Repr == old(nodes.Repr)
    ensures merged <==> CanMerge(s, slot)
    ensures merged ==> Rearranged(nodes.View(), rest, s, s2) && s2 == Merged(s, slot)
    ensures !merged ==> nodes.View() == old(nodes.View())
  {
    hide *;
    LooseMeans(nodes.View(), rest, s);
    SlotStored(nodes.View(), rest, s, slot);
    var node := nodes.Get(id);
    node.SlotsHold(s.body);
    var child := nodes.Get(childId);
    child.ViewHolds(LeafAt(s.body, slot).body);
    MergedIs(s, slot);
    var canMergeLeft, canMergeRight := false, false;
    var leftId, rightId, leftSize, rightSize := 0, 0, 0, 0;
    if slot > 0 {
      canMergeLeft, leftId, leftSize := CanJoin(nodes, id, slot - 1, slot - 1, child.size, s, rest);
    }
    JoinableIs(s, slot);
    if slot + 1 < node.size {
      canMergeRight, rightId, rightSize := CanJoin(nodes, id, slot, slot + 1, child.size, s, rest);
    }
    if !canMergeLeft && !canMergeRight {
      return false, s;
    }
    if canMergeRight && (!canMergeLeft || rightSize > leftSize) {
      s2 := MergeSiblings(nodes, k, id, slot, childId, rightId, s, rest);
      return true, s2;
    }
    s2 := MergeSiblings(nodes, k, id, slot - 1, leftId, childId, s, rest);
    return true, s2;
  }

  lemma JoinableIs(s: Tree, p: nat)
    requires s.Sub?
    ensures Joinable(s, p) <==>
      p + 1 < Count(s.body) && LeafAt(s.body, p).Sub? && LeafAt(s.body, p + 1).Sub? && DirectPair(s.body, p)
      && Count(LeafAt(s.body, p).body) + Count(LeafAt(s.body, p + 1).body) <= MAX_NODE_REPS
  {
  }

  /** Slot i of the page s, and the page it holds, if any. */
  lemma SlotStored(view: map<nat, PageView>, rest: map<nat, PageView>, s: Tree, i: nat)
    requires Loose(view, rest, s) && i < Count(s.body)
    ensures var c := LeafAt(s.body, i);
      && Reps(s.body)[i] == RepOf(c) && (RepOf(c).Child? <==> c.Sub?)
      && (c.Sub? ==> RepOf(c) == Child(c.id) && c == Sub(c.id, c.body) && c.id in view && view[c.id] == PageOf(c.body)
                     && view[c.id].first == First(c) && view[c.id].last == Last(c) && c.id != s.id)
  {
    hide Views, Fits, Distinct, LeafAt;
    var c := LeafAt(s.body, i);
    LeafRep(s.body, i);
    if c.Sub? {
      PageViews(s);
      ViewsLeaf(s.body, i);
      PageViews(c);
      var v := view[s.id := PageOf(s.body)];
      assert c.id in Views(c) && Views(c)[c.id] == PageOf(c.body);
      assert c.id in Views(s.body) && Views(s.body)[c.id] == PageOf(c.body);
      assert c.id in v && v[c.id] == PageOf(c.body);
    }
  }

  // ------------------------------------------------------------- the recursion

  /** The boundaries of the topmost page as they were before its child in slot lost a
      record: only an end slot can move them. */
  ghost predicate OldEnds(view: map<nat, PageView>, s: Tree, slot: nat, oldFirst: Position, oldLast: Position) {
    && s.Sub? && s.id in view
    && view[s.id].first == (if slot == 0 then oldFirst else First(s))
    && view[s.id].last == (if slot == Count(s.body) - 1 then oldLast else Last(s))
  }

  /** RebuildParentAfterChildBoundary: the child stays where it is; only the boundaries of
      its parent may have to follow, for no route of the parent can have changed. */
  method RebuildParentAfterChildBoundary(nodes: HeapNodeStore, id: nat, slot: nat, childId: nat,
                                         oldFirst: Position, oldLast: Position,
                                         ghost s: Tree, ghost rest: map<nat, PageView>)
    requires nodes.Valid() && Loose(nodes.View(), rest, s) && s.id == id
    requires slot < Count(s.body) && LeafAt(s.body, slot).Sub? && LeafAt(s.body, slot).id == childId
    requires OldEnds(nodes.View(), s, slot, oldFirst, oldLast)
    modifies nodes.Repr
    ensures nodes.Valid() && unchanged(nodes)
    ensures Stored(nodes.View(), rest, s)
  {
    hide *;
    LooseMeans(nodes.View(), rest, s);
    SlotStored(nodes.View(), rest, s, slot);
    EndsFollow(nodes.View(), rest, s, slot, oldFirst, oldLast);
    var node := nodes.Get(id);
    node.SlotsHold(s.body);
    var child := nodes.Get(childId);
    var first, last := node.firstPos, node.lastPos;
    if child.firstPos != oldFirst && slot == 0 {
      first := child.firstPos;
    }
    if child.lastPos != oldLast && slot == node.size - 1 {
      last := child.lastPos;
    }
    nodes.SetBoundsIn(id, first, last);
  }

  lemma EndsFollow(view: map<nat, PageView>, rest: map<nat, PageView>, s: Tree, slot: nat,
                   oldFirst: Position, oldLast: Position)
    requires Loose(view, rest, s) && slot < Count(s.body) && OldEnds(view, s, slot, oldFirst, oldLast)
    ensures var c := LeafAt(s.body, slot);
      var first := if First(c) != oldFirst && slot == 0 then First(c) else view[s.id].first;
      var last := if Last(c) != oldLast && slot == Count(s.body) - 1 then Last(c) else view[s.id].last;
      Stored(view[s.id := view[s.id].(first := first, last := last)], rest, s)
  {
    hide Views, Fits, Distinct, LeafAt;
    EndLeaves(s.body);
    PageEnds(s.body);
  }

  /** After a child page lost a record and kept others: it is merged into its parent, or with
      a sibling when it is small, or stays. */
  method SettleChild(nodes: HeapNodeStore, k: Records, id: nat, slot: nat, childId: nat,
                     oldFirst: Position, oldLast: Position, ghost s: Tree, ghost rest: map<nat, PageView>)
    returns (ghost s2: Tree)
    requires nodes.Valid() && Loose(nodes.View(), rest, s) && UnderRoot(rest, s) && s.id == id && Valid(s, k)
    requires slot < Count(s.body) && LeafAt(s.body, slot).Sub? && LeafAt(s.body, slot).id == childId
    requires OldEnds(nodes.View(), s, slot, oldFirst, oldLast)
    modifies nodes, nodes.Repr
    ensures nodes.Valid() && nodes.Repr == old(nodes.Repr)
    ensures Rearranged(nodes.View(), rest, s, s2)
    ensures s.Sub? && s2 == Settled(s, slot)
  {
    hide *;
    LooseMeans(nodes.View(), rest, s);
    SettledIs(s, slot);
    SlotStored(nodes.View(), rest, s, slot);
    var node := nodes.Get(id);
    node.SlotsHold(s.body);
    var child := nodes.Get(childId);
    child.ViewHolds(LeafAt(s.body, slot).body);
    var childSize := child.size;
    if node.size - 1 + childSize <= MAX_NODE_REPS {
      s2 := MergeChildIntoParent(nodes, k, id, slot, childId, s, rest);
      return s2;
    }
    if childSize < SMALL_PAGE {
      var merged;
      merged, s2 := MergeChildWithSibling(nodes, k, id, slot, childId, s, rest);
      if merged {
        return s2;
      }
    }
    RebuildParentAfterChildBoundary(nodes, id, slot, childId, oldFirst, oldLast, s, rest);
    IsRearranged(nodes.View(), rest, s, s);
    s2 := s;
  }

  /** What a deletion below the page s leaves: without a record left, the empty page s.id;
      else, page boundaries aside, the tree without the record. */
  ghost predicate Deleted(view: map<nat, PageView>, rest: map<nat, PageView>, s: Tree, key: Key, s2: Tree) {
    match Delete(s, key)
    case None => s.Sub? && view == rest[s.id := EMPTY_PAGE]
    case Some(t) => s.Sub? && Stored(view, rest, s2) && s2.id == s.id && Erase(s2) == Erase(t)
  }

  /** The pages below s after the deletion are exactly those that the tree alone says. */
  ghost predicate Shrunk(s: Tree, key: Key, s2: Tree) {
    && s.Sub? && (Removed(s, key).None? <==> Delete(s, key).None?)
    && (Removed(s, key).Some? ==> s2 == Removed(s, key).value)
  }

  lemma ShrunkMeans(s: Tree, key: Key, s2: Tree)
    requires Shrunk(s, key, s2)
    ensures s.Sub? && (Removed(s, key).None? <==> Delete(s, key).None?)
    ensures Removed(s, key).Some? ==> Removed(s, key) == Some(s2) && s2.Sub?
  {
  }

  lemma ShrunkHere(s: Tree, key: Key)
    requires s.Sub? && Delete(LeafAt(s.body, Find(s.body, key)), key).None?
    requires var c := LeafAt(s.body, Find(s.body, key)); c.Rec? || (c.Sub? && Removed(c, key).None?)
    ensures Shrunk(s, key, if Count(s.body) == 1 then s else Sub(s.id, DeleteHere(s.body, Find(s.body, key))))
  {
    hide Find, LeafAt, DeleteHere, Delete;
    DeletePage(s, key);
  }

  lemma ShrunkBelow(s: Tree, key: Key, c2: Tree)
    requires s.Sub? && LeafAt(s.body, Find(s.body, key)).Sub? && c2.Sub?
    requires Removed(LeafAt(s.body, Find(s.body, key)), key) == Some(c2)
    requires Delete(LeafAt(s.body, Find(s.body, key)), key).Some?
    ensures var i := Find(s.body, key);
      var s1 := Sub(s.id, SetLeaf(s.body, i, c2));
      && i < Count(s1.body) && LeafAt(s1.body, i).Sub? && Shrunk(s, key, Settled(s1, i))
  {
    hide Find, Delete, Settled, SetLeaf;
    LeafSet(s.body, Find(s.body, key), c2);
    DeletePage(s, key);
  }

  lemma StoredMeans(view: map<nat, PageView>, rest: map<nat, PageView>, s: Tree)
    requires Stored(view, rest, s)
    ensures s.Sub? && s.id in view && view[s.id] == PageOf(s.body) && WellPaged(s) && WellPaged(s.body)
    ensures s.id !in Views(s.body) && rest.Keys !! Views(s).Keys && Within(Views(s.body), view)
    ensures view[s.id].first == First(s) && view[s.id].last == Last(s)
    ensures view[s.id].reps == Reps(s.body) && Count(s.body) <= MAX_NODE_REPS
  {
    PageViews(s);
    PageBounds(s);
  }

  lemma DeletePage(s: Tree, key: Key)
    requires s.Sub?
    ensures var i := Find(s.body, key);
      Delete(s, key) ==
        match Delete(LeafAt(s.body, i), key)
        case None => if Count(s.body) == 1 then None else Some(Sub(s.id, DeleteHere(s.body, i)))
        case Some(c) => Some(Sub(s.id, SetLeaf(s.body, i, c)))
  {
    DeleteThrough(s.body, key);
  }

  /** A slot of the page goes. */
  lemma SlotGone(view: map<nat, PageView>, rest: map<nat, PageView>, s: Tree, key: Key)
    requires s.Sub? && WellPaged(s) && rest.Keys !! Views(s).Keys
    requires Delete(LeafAt(s.body, Find(s.body, key)), key).None?
    requires var i := Find(s.body, key);
      view == rest + Others(s.body, i)[s.id := if Count(s.body) == 1 then EMPTY_PAGE else PageOf(DeleteHere(s.body, i))]
    ensures Deleted(view, rest, s, key,
                    if Count(s.body) == 1 then s else Sub(s.id, DeleteHere(s.body, Find(s.body, key))))
  {
    hide Views, Fits, Distinct, Others, LeafAt, Delete, DeleteHere;
    var i := Find(s.body, key);
    DeletePage(s, key);
    PageViews(s);
    ViewsLeaf(s.body, i);
    if Count(s.body) == 1 {
      OnlySlot(s.body);
      PutAlone(rest, s.id, EMPTY_PAGE);
    } else {
      DeleteViews(s.body, i);
      PageViews(Sub(s.id, DeleteHere(s.body, i)));
      GonePart(rest, Others(s.body, i), Views(LeafAt(s.body, i)), Views(s.body), s.id, PageOf(s.body),
               PageOf(DeleteHere(s.body, i)));
    }
  }

  lemma OnlySlot(t: Tree)
    requires Count(t) == 1
    ensures Others(t, 0) == map[]
  {
    LeafPart(t, 0);
  }

  lemma PutAlone(rest: map<nat, PageView>, id: nat, page: PageView)
    ensures rest + map[id := page] == rest[id := page]
    ensures map[][id := page] == map[id := page]
  {
  }

  lemma GonePart(rest: map<nat, PageView>, o: map<nat, PageView>, v: map<nat, PageView>, all: map<nat, PageView>,
                 id: nat, page: PageView, page2: PageView)
    requires all == o + v && rest.Keys !! all[id := page].Keys && id !in all
    ensures rest.Keys !! o[id := page2].Keys && id !in o
  {
    assert forall c :: c in o ==> c in all;
  }

  /** The surroundings of a slot, right after the page in it was emptied. */
  lemma EmptiedChild(view: map<nat, PageView>, view1: map<nat, PageView>, rest: map<nat, PageView>, s: Tree, i: nat,
                     page: PageView)
    requires Stored(view, rest, s) && i < Count(s.body) && LeafAt(s.body, i).Sub?
    requires view1 == AroundSlot(rest, s, i)[LeafAt(s.body, i).id := EMPTY_PAGE]
    ensures s.id in view1 && view1[s.id] == PageOf(s.body) && Within(Others(s.body, i), view1)
    ensures LeafAt(s.body, i).id in view1 && LeafAt(s.body, i).id != s.id
    ensures view1[s.id := page] - {LeafAt(s.body, i).id} == rest + Others(s.body, i)[s.id := page]
  {
    hide Views, Fits, Distinct, Others, LeafAt;
    PageViews(s);
    ViewsLeaf(s.body, i);
    PageViews(LeafAt(s.body, i));
    EmptiedMaps(rest, Others(s.body, i), Views(LeafAt(s.body, i)), s.id, LeafAt(s.body, i).id, PageOf(s.body), page);
  }

  lemma EmptiedMaps(rest: map<nat, PageView>, o: map<nat, PageView>, v: map<nat, PageView>, id: nat, cid: nat,
                    page: PageView, page2: PageView)
    requires rest.Keys !! (o + v)[id := page].Keys && id !in o + v && o.Keys !! v.Keys && cid in v
    ensures var view1 := (rest + o[id := page])[cid := EMPTY_PAGE];
      && id in view1 && view1[id] == page && Within(o, view1) && cid != id
      && view1[id := page2] - {cid} == rest + o[id := page2]
  {
    assert cid in o + v && cid in (o + v)[id := page];
    var view1 := (rest + o[id := page])[cid := EMPTY_PAGE];
    forall c: nat
      ensures c in o ==> c in view1 && view1[c] == o[c]
    {
      assert c in o ==> c in o + v && c in (o + v)[id := page] && c in o[id := page];
    }
    assert id !in o && cid !in o && cid !in rest;
  }

  /** The child lost a record and kept others: what is left to be done is rearranging. */
  lemma ChildKept(view: map<nat, PageView>, rest: map<nat, PageView>, s: Tree, key: Key, k: Records,
                  view1: map<nat, PageView>, c2: Tree)
    requires Stored(view, rest, s) && Valid(s, k) && LeafAt(s.body, Find(s.body, key)).Sub?
    requires var c := LeafAt(s.body, Find(s.body, key));
      && Delete(c, key).Some? && Erase(c2) == Erase(Delete(c, key).value)
      && c2.Sub? && c2.id == c.id && Stored(view1, AroundSlot(rest, s, Find(s.body, key)), c2)
    ensures var i := Find(s.body, key);
      var c, s1 := LeafAt(s.body, i), Sub(s.id, SetLeaf(s.body, i, c2));
      && Loose(view1, rest, s1) && OldEnds(view1, s1, i, First(c), Last(c)) && Valid(s1, k)
      && (UnderRoot(rest, s) ==> UnderRoot(rest, s1))
      && Count(s1.body) == Count(s.body) && LeafAt(s1.body, i) == c2
      && Delete(s, key).Some? && Erase(s1) == Erase(Delete(s, key).value)
  {
    hide Views, Fits, Distinct, Others, LeafAt, SetLeaf, Delete, Valid, Erase;
    var i := Find(s.body, key);
    var c := LeafAt(s.body, i);
    var s1 := Sub(s.id, SetLeaf(s.body, i, c2));
    StoredMeans(view, rest, s);
    ChildKeptTree(s, key, k, c2);
    SlotChanged(view1, rest, s, i, c2);
    LeafSet(s.body, i, c2);
    SetLeafSame(s.body, i, c2);
    SetLeafEnds(s.body, i, c2);
    EndLeaves(s.body);
    PageEnds(s.body);
    EndsOfSub(s);
    EndsOfSub(s1);
  }

  /** The tree around the child is the tree without the record. */
  lemma ChildKeptTree(s: Tree, key: Key, k: Records, c2: Tree)
    requires s.Sub? && Valid(s, k) && LeafAt(s.body, Find(s.body, key)).Sub? && c2.Sub?
    requires var c := LeafAt(s.body, Find(s.body, key));
      Delete(c, key).Some? && Erase(c2) == Erase(Delete(c, key).value)
    ensures var s1 := Sub(s.id, SetLeaf(s.body, Find(s.body, key), c2));
      Valid(s1, k) && Delete(s, key).Some? && Erase(s1) == Erase(Delete(s, key).value)
  {
    hide LeafAt, SetLeaf, Delete, Valid, Erase;
    var i := Find(s.body, key);
    var c := LeafAt(s.body, i);
    var goal := Sub(s.id, SetLeaf(s.body, i, Delete(c, key).value));
    DeletePage(s, key);
    SetLeafErase(s.body, i, c2, Delete(c, key).value);
    DeleteValid(s, k, key);
    EraseSub(Sub(s.id, SetLeaf(s.body, i, c2)));
    EraseSub(goal);
    SameErased(goal, Sub(s.id, SetLeaf(s.body, i, c2)), k);
  }

  lemma EndsOfSub(s: Tree)
    requires s.Sub?
    ensures First(s) == First(s.body) && Last(s) == Last(s.body)
  {
  }

  lemma RearrangedDeletes(view: map<nat, PageView>, rest: map<nat, PageView>, s: Tree, key: Key, s1: Tree, s2: Tree)
    requires s.Sub? && s1.Sub? && s1.id == s.id && Rearranged(view, rest, s1, s2)
    requires Delete(s, key).Some? && Erase(s1) == Erase(Delete(s, key).value)
    ensures Deleted(view, rest, s, key, s2)
  {
  }

  /** What a search for key below s finds. */
  ghost predicate Holds(s: Tree, k: Records, key: Key) {
    Best(s, key) in k && k[Best(s, key)] == key
  }

  lemma FoundBelow(s: Tree, k: Records, key: Key)
    requires Readable(s, k) && s.Sub?
    ensures var c := LeafAt(s.body, Find(s.body, key));
      && Readable(c, k) && Best(s, key) == Best(c, key) && (Holds(s, k, key) <==> Holds(c, k, key)) && c < s
      && (c.Rec? ==> Best(s, key) == c.pos && c.pos in k && Delete(c, key).None?
                     && (Holds(s, k, key) <==> k[c.pos] == key))
    ensures Valid(s, k)
  {
    hide Find, LeafAt;
    BestThrough(s, key);
    LeafValid(s.body, k, Find(s.body, key));
    LeafSmaller(s.body, Find(s.body, key));
  }

  lemma UnderRootSlot(view: map<nat, PageView>, rest: map<nat, PageView>, s: Tree, i: nat)
    requires Stored(view, rest, s) && UnderRoot(rest, s) && i < Count(s.body) && LeafAt(s.body, i).Sub?
    ensures UnderRoot(AroundSlot(rest, s, i), LeafAt(s.body, i)) && LeafAt(s.body, i).id != 0
  {
    hide Views, LeafAt, Others;
    StoredMeans(view, rest, s);
    StoredSlot(view, rest, s, i);
    assert s.id in Others(s.body, i)[s.id := PageOf(s.body)] && 0 in AroundSlot(rest, s, i);
    assert LeafAt(s.body, i).id in Views(LeafAt(s.body, i)) by { PageViews(LeafAt(s.body, i)); }
  }

  lemma RecordGone(view: map<nat, PageView>, rest: map<nat, PageView>, s: Tree, i: nat, page: PageView)
    requires Stored(view, rest, s) && i < Count(s.body) && LeafAt(s.body, i).Rec?
    ensures Within(Others(s.body, i), view)
    ensures view[s.id := page] == rest + Others(s.body, i)[s.id := page]
  {
    hide LeafAt, Others, Fits;
    ViewsLeaf(s.body, i);
    PageViews(s);
    assert Others(s.body, i) + map[] == Others(s.body, i);
    assert Within(Others(s.body, i), view) by { StoredMeans(view, rest, s); }
    SetInside(rest, Others(s.body, i), s.id, PageOf(s.body), page);
  }

  lemma SetInside(rest: map<nat, PageView>, o: map<nat, PageView>, id: nat, page: PageView, page2: PageView)
    ensures (rest + o[id := page])[id := page2] == rest + o[id := page2]
  {
  }

  lemma EmptyOrNot(view: map<nat, PageView>, rest: map<nat, PageView>, s: Tree, key: Key, s2: Tree)
    requires Deleted(view, rest, s, key, s2)
    ensures s.Sub? && s.id in view && (view[s.id].reps == [] <==> Delete(s, key).None?)
    ensures Delete(s, key).None? ==> view == rest[s.id := EMPTY_PAGE]
    ensures Delete(s, key).Some? ==>
      Stored(view, rest, s2) && s2.Sub? && s2.id == s.id && Erase(s2) == Erase(Delete(s, key).value)
  {
    if Delete(s, key).Some? {
      StoredMeans(view, rest, s2);
    }
  }

  /** DeleteFrom: the record under key is taken out below the page id, if there is one. */
  method DeleteFrom(nodes: HeapNodeStore, k: Records, id: nat, key: Key, ghost s: Tree, ghost rest: map<nat, PageView>)
    returns (deleted: bool, pos: Position, ghost s2: Tree)
    requires nodes.Valid() && Stored(nodes.View(), rest, s) && UnderRoot(rest, s) && s.id == id && Readable(s, k)
    modifies nodes, nodes.Repr
    ensures nodes.Valid() && nodes.Repr == old(nodes.Repr)
    ensures deleted <==> Holds(s, k, key)
    ensures pos == if deleted then Best(s, key) else 0
    ensures !deleted ==> nodes.View() == old(nodes.View())
    ensures deleted ==> Deleted(nodes.View(), rest, s, key, s2) && Shrunk(s, key, s2)
    decreases s, 1
  {
    hide *;
    StoredMeans(nodes.View(), rest, s);
    FoundBelow(s, k, key);
    var node := nodes.Get(id);
    node.ViewHolds(s.body);
    var leaf, ok := node.LookupRouteOnly(key, s.body);
    node.RepAt(s.body, leaf);
    ghost var c := LeafAt(s.body, leaf);
    RepMeans(c);
    match node.reps[leaf]
    case Child(childId) =>
      deleted, pos, s2 := DeleteFromChild(nodes, k, id, leaf, childId, key, s, rest);
    case Record(oldPos) =>
      if CompareKeys(k[oldPos], key) == 0 {
        ghost var page := if Count(s.body) == 1 then EMPTY_PAGE else PageOf(DeleteHere(s.body, leaf));
        RecordGone(nodes.View(), rest, s, leaf, page);
        DeleteAtIncremental(nodes, id, leaf, s.body);
        SlotGone(nodes.View(), rest, s, key);
        ShrunkHere(s, key);
        deleted, pos, s2 := true, oldPos, if Count(s.body) == 1 then s else Sub(s.id, DeleteHere(s.body, leaf));
      } else {
        deleted, pos, s2 := false, 0, s;
      }
  }

  /** DeleteFromChild: the record goes from the child page; then an empty child leaves the
      page and is freed, and any other is settled. */
  method DeleteFromChild(nodes: HeapNodeStore, k: Records, id: nat, slot: nat, childId: nat, key: Key,
                         ghost s: Tree, ghost rest: map<nat, PageView>)
    returns (deleted: bool, pos: Position, ghost s2: Tree)
    requires nodes.Valid() && Stored(nodes.View(), rest, s) && UnderRoot(rest, s) && s.id == id && Readable(s, k)
    requires slot == Find(s.body, key) && LeafAt(s.body, slot).Sub? && LeafAt(s.body, slot).id == childId
    modifies nodes, nodes.Repr
    ensures nodes.Valid() && nodes.Repr == old(nodes.Repr)
    ensures deleted <==> Holds(s, k, key)
    ensures pos == if deleted then Best(s, key) else 0
    ensures !deleted ==> nodes.View() == old(nodes.View())
    ensures deleted ==> Deleted(nodes.View(), rest, s, key, s2) && Shrunk(s, key, s2)
    decreases s, 0
  {
    hide *;
    ghost var view := nodes.View();
    StoredMeans(view, rest, s);
    FoundBelow(s, k, key);
    ghost var c := LeafAt(s.body, slot);
    StoredSlot(view, rest, s, slot);
    UnderRootSlot(view, rest, s, slot);
    ghost var around := AroundSlot(rest, s, slot);
    StoredMeans(view, around, c);
    var child := nodes.Get(childId);
    var oldFirst, oldLast := child.firstPos, child.lastPos;
    ghost var c2;
    deleted, pos, c2 := DeleteFrom(nodes, k, childId, key, c, around);
    if !deleted {
      return false, 0, s;
    }
    EmptyOrNot(nodes.View(), around, c, key, c2);
    ShrunkMeans(c, key, c2);
    child := nodes.Get(childId);
    if child.size == 0 {
      ghost var page := if Count(s.body) == 1 then EMPTY_PAGE else PageOf(DeleteHere(s.body, slot));
      EmptiedChild(view, nodes.View(), rest, s, slot, page);
      DeleteAtIncremental(nodes, id, slot, s.body);
      var freed := nodes.Free(childId);
      SlotGone(nodes.View(), rest, s, key);
      ShrunkHere(s, key);
      s2 := if Count(s.body) == 1 then s else Sub(s.id, DeleteHere(s.body, slot));
      return true, pos, s2;
    }
    ChildKept(view, rest, s, key, k, nodes.View(), c2);
    ghost var s1 := Sub(s.id, SetLeaf(s.body, slot, c2));
    s2 := SettleChild(nodes, k, id, slot, childId, oldFirst, oldLast, s1, rest);
    RearrangedDeletes(nodes.View(), rest, s, key, s1, s2);
    ShrunkBelow(s, key, c2);
  }

  // -------------------------------------------------------------------- the root

  /** The root page holds nothing but one child page. */
  lemma SingleChild(w: Tree)
    requires w.Sub? && WellPaged(w) && w.body.Sub?
    ensures var c := w.body;
      && c.id in Views(w) && Views(w)[c.id] == PageOf(c.body) && c.id != w.id && w.id in Views(w)
      && Views(w)[w.id := PageOf(c.body)] - {c.id} == Views(Sub(w.id, c.body))
      && WellPaged(Sub(w.id, c.body)) && Erase(Sub(w.id, c.body)) == Erase(w)
  {
    hide PageOf, Fits;
    PageViews(w);
    PageViews(w.body);
    PageViews(Sub(w.id, w.body.body));
  }

  lemma RootPage(w: Tree)
    requires w.Sub? && WellPaged(w)
    ensures w.id in Views(w) && Views(w)[w.id] == PageOf(w.body)
    ensures Count(w.body) == 1 ==> !w.body.Node? && Reps(w.body)[0] == RepOf(w.body)
    ensures Count(w.body) == 1 ==> (RepOf(w.body).Child? <==> w.body.Sub?)
    ensures w.body.Sub? ==> Count(w.body) == 1 && RepOf(w.body) == Child(w.body.id)
    ensures !w.body.Sub? ==> Compressed(w) == w
  {
    PageViews(w);
  }

  /** The pages are those of the tree, and only those. */
  ghost predicate Paged(view: map<nat, PageView>, tree: Option<Tree>) {
    match tree
    case None => view == map[0 := EMPTY_PAGE]
    case Some(w) => w.Sub? && w.id == 0 && WellPaged(w) && view == Views(w)
  }

  lemma PagedRoot(view: map<nat, PageView>, tree: Option<Tree>)
    requires Paged(view, tree)
    ensures 0 in view && (view[0].reps == [] <==> tree.None?)
    ensures tree.None? ==> view == map[0 := EMPTY_PAGE]
    ensures tree.Some? ==> tree.value.Sub? && tree.value.id == 0 && WellPaged(tree.value) && Distinct(tree.value)
    ensures tree.Some? ==> view == Views(tree.value)
    ensures tree.Some? ==> view[0] == PageOf(tree.value.body) && |view[0].reps| == Count(tree.value.body)
  {
    if tree.Some? {
      PageViews(tree.value);
    }
  }

  lemma PagedIs(view: map<nat, PageView>, w: Tree)
    requires w.Sub? && w.id == 0 && WellPaged(w) && view == Views(w)
    ensures Paged(view, Some(w))
  {
  }

  lemma PagedNone(view: map<nat, PageView>)
    requires view == map[0 := EMPTY_PAGE]
    ensures Paged(view, None)
  {
  }

  /** CompressRoot: as long as the root page holds only a child page, the child takes its
      place. */
  method CompressRoot(nodes: HeapNodeStore, ghost tree: Option<Tree>) returns (ghost tree2: Option<Tree>)
    requires nodes.Valid() && Paged(nodes.View(), tree)
    modifies nodes, nodes.Repr
    ensures nodes.Valid() && nodes.Repr == old(nodes.Repr) && Paged(nodes.View(), tree2)
    ensures tree.None? <==> tree2.None?
    ensures tree.Some? ==> Erase(tree2.value) == Erase(tree.value)
    ensures tree.Some? ==> tree.value.Sub? && tree2.value == Compressed(tree.value)
  {
    hide *;
    tree2 := tree;
    PagedRoot(nodes.View(), tree2);
    while true
      invariant nodes.Valid() && nodes.Repr == old(nodes.Repr) && Paged(nodes.View(), tree2)
      invariant tree.None? <==> tree2.None?
      invariant tree2.Some? ==> tree2.value.Sub?
      invariant tree.Some? ==> Erase(tree2.value) == Erase(tree.value)
      invariant tree.Some? ==> tree.value.Sub? && Compressed(tree2.value) == Compressed(tree.value)
      decreases if tree2.Some? then Pages(tree2.value) else 0
    {
      PagedRoot(nodes.View(), tree2);
      if tree2.Some? {
        RootPage(tree2.value);
      }
      var root := nodes.Get(0);
      if root.size != 1 {
        return;
      }
      ghost var w := tree2.value;
      root.StoredReps(w.body);
      assert root.reps[0] == root.reps[..1][0];
      if !root.reps[0].Child? {
        return;
      }
      var childId := root.reps[0].id;
      SingleChild(w);
      nodes.CopyPage(0, childId);
      var freed := nodes.Free(childId);
      PagedIs(nodes.View(), Sub(0, w.body.body));
      FewerPages(w);
      tree2 := Some(Sub(0, w.body.body));
    }
  }
}
