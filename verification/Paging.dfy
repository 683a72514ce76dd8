/** Many pages: which pages a tree occupies, and how replacing one part of it changes them. */
module Paging {
  import opened Patricia
  import opened PageTree
  import opened Cartesian
  import opened NodePages
  import opened Sequences

  /** Every page of the tree under its id. */
  ghost function Views(t: Tree): map<nat, PageView> {
    match t
    case Rec(_) => map[]
    case Sub(id, b) => Views(b)[id := PageOf(b)]
    case Node(_, l, r) => Views(l) + Views(r)
  }

  /** No page id occurs twice. */
  ghost predicate Distinct(t: Tree) {
    match t
    case Rec(_) => true
    case Sub(id, b) => Distinct(b) && id !in Views(b)
    case Node(_, l, r) => Distinct(l) && Distinct(r) && Views(l).Keys !! Views(r).Keys
  }

  lemma NodeDistinct(t: Tree)
    requires t.Node?
    ensures Distinct(t) <==> Distinct(t.left) && Distinct(t.right) && Views(t.left).Keys !! Views(t.right).Keys
  {
  }

  /** No page below t has more slots than a page can hold. */
  ghost predicate Fits(t: Tree) {
    match t
    case Rec(_) => true
    case Sub(_, b) => Count(b) <= MAX_NODE_REPS && Fits(b)
    case Node(_, l, r) => Fits(l) && Fits(r)
  }

  ghost predicate WellPaged(t: Tree) {
    Distinct(t) && Fits(t)
  }

  // ------------------------------------------------------- replacing one part

  /** The pages below all slots outside a part. */
  ghost function Rest(t: Tree, start: nat, count: nat): map<nat, PageView>
    requires IsPart(t, start, count)
  {
    if start == 0 && count == Count(t) then map[]
    else if start + count <= Count(t.left) && IsPart(t.left, start, count) then
      Rest(t.left, start, count) + Views(t.right)
    else
      Views(t.left) + Rest(t.right, start - Count(t.left), count)
  }

  /** One step into the part: the side that holds it. */
  lemma PartStep(t: Tree, start: nat, count: nat) returns (left: bool)
    requires IsPart(t, start, count) && !(start == 0 && count == Count(t))
    ensures t.Node? && Views(t) == Views(t.left) + Views(t.right)
    ensures Fits(t) <==> Fits(t.left) && Fits(t.right)
    ensures left ==> start + count <= Count(t.left) && IsPart(t.left, start, count)
    ensures left ==> Part(t, start, count) == Part(t.left, start, count)
    ensures left ==> Rest(t, start, count) == Rest(t.left, start, count) + Views(t.right)
    ensures left ==> forall s :: Swap(t, start, count, s) == Node(t.diff, Swap(t.left, start, count, s), t.right)
    ensures !left ==> start >= Count(t.left) && IsPart(t.right, start - Count(t.left), count)
    ensures !left ==> Part(t, start, count) == Part(t.right, start - Count(t.left), count)
    ensures !left ==> Rest(t, start, count) == Views(t.left) + Rest(t.right, start - Count(t.left), count)
    ensures !left ==>
      forall s :: Swap(t, start, count, s) == Node(t.diff, t.left, Swap(t.right, start - Count(t.left), count, s))
  {
    left := start + count <= Count(t.left) && IsPart(t.left, start, count);
  }

  lemma PartAll(t: Tree)
    ensures IsPart(t, 0, Count(t)) && Part(t, 0, Count(t)) == t && Rest(t, 0, Count(t)) == map[]
    ensures forall s :: Swap(t, 0, Count(t), s) == s
    ensures forall v: map<nat, PageView> :: map[] + v == v
  {
  }

  lemma {:induction false} ViewsPart(t: Tree, start: nat, count: nat)
    requires IsPart(t, start, count)
    ensures Views(t).Keys == Rest(t, start, count).Keys + Views(Part(t, start, count)).Keys
    ensures Distinct(t) ==> Rest(t, start, count).Keys !! Views(Part(t, start, count)).Keys
    ensures Distinct(t) ==> Views(t) == Rest(t, start, count) + Views(Part(t, start, count))
    ensures Distinct(t) ==> Distinct(Part(t, start, count))
    ensures Fits(t) ==> Fits(Part(t, start, count))
  {
    hide Views, Rest, Fits, Part, Swap, IsPart;
    if start == 0 && count == Count(t) {
      PartAll(t);
    } else {
      var left := PartStep(t, start, count);
      if left {
        var l := t.left;
        ViewsPart(l, start, count);
        UnionKeys(Rest(l, start, count), Views(Part(l, start, count)), Views(t.right));
      } else {
        var r, at := t.right, start - Count(t.left);
        ViewsPart(r, at, count);
        UnionAssoc(Views(t.left), Rest(r, at, count), Views(Part(r, at, count)));
      }
    }
  }

  /** A part exchanged: the pages below it are exchanged, the others stay. */
  lemma {:induction false} ViewsSwap(t: Tree, start: nat, count: nat, s: Tree)
    requires IsPart(t, start, count) && Distinct(t) && Distinct(s)
    requires Views(s).Keys !! Rest(t, start, count).Keys
    ensures Distinct(Swap(t, start, count, s))
    ensures Views(Swap(t, start, count, s)) == Rest(t, start, count) + Views(s)
    ensures Fits(t) && Fits(s) ==> Fits(Swap(t, start, count, s))
  {
    hide Views, Rest, Fits, Part, Swap, IsPart;
    if start == 0 && count == Count(t) {
      PartAll(t);
    } else {
      var left := PartStep(t, start, count);
      NodeViews(Swap(t, start, count, s));
      if left {
        ViewsPart(t.left, start, count);
        ViewsSwap(t.left, start, count, s);
        UnionSwap(Rest(t.left, start, count), Views(s), Views(t.right));
      } else {
        var at := start - Count(t.left);
        ViewsPart(t.right, at, count);
        ViewsSwap(t.right, at, count, s);
        UnionAssoc(Views(t.left), Rest(t.right, at, count), Views(s));
      }
    }
  }

  lemma NodeViews(t: Tree)
    requires t.Node?
    ensures Views(t) == Views(t.left) + Views(t.right)
    ensures Fits(t) <==> Fits(t.left) && Fits(t.right)
  {
  }

  lemma {:induction false} PartReps(t: Tree, start: nat, count: nat)
    requires IsPart(t, start, count)
    ensures start + count <= Count(t)
    ensures Reps(Part(t, start, count)) == Reps(t)[start..start + count]
  {
    hide Reps, Views, Rest, Fits, Part, Swap, IsPart;
    PartBounds(t, start, count);
    if start == 0 && count == Count(t) {
      PartAll(t);
      CutAll(Reps(t), []);
    } else {
      var left := PartStep(t, start, count);
      NodeReps(t);
      if left {
        PartReps(t.left, start, count);
        SliceLeft(Reps(t.left), Reps(t.right), start, start + count);
      } else {
        PartReps(t.right, start - Count(t.left), count);
        SliceRight(Reps(t.left), Reps(t.right), start, start + count);
      }
    }
  }

  lemma {:induction false} SwapReps(t: Tree, start: nat, count: nat, s: Tree)
    requires IsPart(t, start, count)
    ensures start + count <= Count(t)
    ensures Reps(Swap(t, start, count, s)) == Exchange(Reps(t), start, start + count, Reps(s))
  {
    hide *;
    PartBounds(t, start, count);
    if start == 0 && count == Count(t) {
      PartAll(t);
      CutAll(Reps(t), Reps(s));
    } else {
      var left := PartStep(t, start, count);
      NodeReps(t);
      NodeReps(Swap(t, start, count, s));
      if left {
        SwapReps(t.left, start, count, s);
        ExchangeLeft(Reps(t.left), Reps(t.right), start, start + count, Reps(s));
      } else {
        SwapReps(t.right, start - Count(t.left), count, s);
        ExchangeRight(Reps(t.left), Reps(t.right), start, start + count, Reps(s));
      }
    }
  }

  /** The diffs between the exchanged slots are exchanged with them. */
  lemma {:induction false} SwapDiffs(t: Tree, start: nat, count: nat, s: Tree)
    requires IsPart(t, start, count)
    ensures count >= 1 && start + count <= Count(t)
    ensures Diffs(Swap(t, start, count, s)) == Exchange(Diffs(t), start, start + count - 1, Diffs(s))
  {
    hide *;
    PartBounds(t, start, count);
    if start == 0 && count == Count(t) {
      PartAll(t);
      CutAll(Diffs(t), Diffs(s));
    } else {
      var left := PartStep(t, start, count);
      var a, d, b := Diffs(t.left), [t.diff], Diffs(t.right);
      DiffsNode(t);
      DiffsNode(Swap(t, start, count, s));
      if left {
        SwapDiffs(t.left, start, count, s);
        ExchangeLeft(a, d, start, start + count - 1, Diffs(s));
        ExchangeLeft(a + d, b, start, start + count - 1, Diffs(s));
      } else {
        SwapDiffs(t.right, start - Count(t.left), count, s);
        ExchangeRight(a + d, b, start, start + count - 1, Diffs(s));
      }
    }
  }

  lemma {:induction false} SwapErase(t: Tree, start: nat, count: nat, s1: Tree, s2: Tree)
    requires IsPart(t, start, count) && Erase(s1) == Erase(s2)
    ensures Erase(Swap(t, start, count, s1)) == Erase(Swap(t, start, count, s2))
  {
    hide IsPart;
    if !(start == 0 && count == Count(t)) {
      var left := PartStep(t, start, count);
      if left {
        SwapErase(t.left, start, count, s1, s2);
      } else {
        SwapErase(t.right, start - Count(t.left), count, s1, s2);
      }
    }
  }

  lemma {:induction false} SwapItself(t: Tree, start: nat, count: nat)
    requires IsPart(t, start, count)
    ensures Swap(t, start, count, Part(t, start, count)) == t
  {
    hide IsPart;
    if !(start == 0 && count == Count(t)) {
      var left := PartStep(t, start, count);
      if left {
        SwapItself(t.left, start, count);
      } else {
        SwapItself(t.right, start - Count(t.left), count);
      }
    }
  }

  // ------------------------------------------------------- replacing one slot

  /** The pages below all slots but slot i. */
  ghost function Others(t: Tree, i: nat): map<nat, PageView>
    requires i < Count(t)
  {
    LeafPart(t, i);
    Rest(t, i, 1)
  }

  lemma ViewsLeaf(t: Tree, i: nat)
    requires i < Count(t)
    ensures Views(t).Keys == Others(t, i).Keys + Views(LeafAt(t, i)).Keys
    ensures Distinct(t) ==> Others(t, i).Keys !! Views(LeafAt(t, i)).Keys
    ensures Distinct(t) ==> Views(t) == Others(t, i) + Views(LeafAt(t, i))
    ensures Distinct(t) ==> Distinct(LeafAt(t, i))
    ensures Fits(t) ==> Fits(LeafAt(t, i))
  {
    LeafPart(t, i);
    ViewsPart(t, i, 1);
  }

  /** Slot i refilled: the pages below it are exchanged, the others stay. */
  lemma ViewsSet(t: Tree, i: nat, s: Tree)
    requires i < Count(t) && Distinct(t) && Distinct(s)
    requires Views(s).Keys !! Others(t, i).Keys
    ensures Distinct(SetLeaf(t, i, s))
    ensures Views(SetLeaf(t, i, s)) == Others(t, i) + Views(s)
    ensures Fits(t) && Fits(s) ==> Fits(SetLeaf(t, i, s))
  {
    LeafPart(t, i);
    ViewsSwap(t, i, 1, s);
    assert Swap(t, i, 1, s) == SetLeaf(t, i, s);
  }

  lemma SetLeafReps(t: Tree, i: nat, s: Tree)
    requires i < Count(t)
    ensures Count(SetLeaf(t, i, s)) == Count(t) - 1 + Count(s)
    ensures Reps(SetLeaf(t, i, s)) == Exchange(Reps(t), i, i + 1, Reps(s))
  {
    LeafPart(t, i);
    SwapReps(t, i, 1, s);
    assert Swap(t, i, 1, s) == SetLeaf(t, i, s);
  }

  lemma SetLeafDiffs(t: Tree, i: nat, s: Tree)
    requires i < Count(t)
    ensures Diffs(SetLeaf(t, i, s)) == Exchange(Diffs(t), i, i, Diffs(s))
  {
    LeafPart(t, i);
    SwapDiffs(t, i, 1, s);
    assert Swap(t, i, 1, s) == SetLeaf(t, i, s);
  }

  lemma SetLeafErase(t: Tree, i: nat, s1: Tree, s2: Tree)
    requires i < Count(t) && Erase(s1) == Erase(s2)
    ensures Erase(SetLeaf(t, i, s1)) == Erase(SetLeaf(t, i, s2))
  {
    LeafPart(t, i);
    SwapErase(t, i, 1, s1, s2);
    assert Swap(t, i, 1, s1) == SetLeaf(t, i, s1) && Swap(t, i, 1, s2) == SetLeaf(t, i, s2);
  }

  lemma SetLeafItself(t: Tree, i: nat)
    requires i < Count(t)
    ensures SetLeaf(t, i, LeafAt(t, i)) == t
  {
    LeafPart(t, i);
    SwapItself(t, i, 1);
  }

  lemma {:induction false} SetLeafEnds(t: Tree, i: nat, s: Tree)
    requires i < Count(t)
    ensures First(SetLeaf(t, i, s)) == if i == 0 then First(s) else First(t)
    ensures Last(SetLeaf(t, i, s)) == if i == Count(t) - 1 then Last(s) else Last(t)
  {
    match t
    case Node(_, l, r) =>
      if i < Count(l) {
        SetLeafEnds(l, i, s);
      } else {
        SetLeafEnds(r, i - Count(l), s);
      }
    case _ =>
  }

  /** A page whose slot keeps its rep keeps its routes; only its boundaries may move. */
  lemma {:induction false} SetLeafSame(t: Tree, i: nat, s: Tree)
    requires i < Count(t) && !s.Node? && RepOf(s) == RepOf(LeafAt(t, i))
    ensures Count(SetLeaf(t, i, s)) == Count(t)
    ensures Reps(SetLeaf(t, i, s)) == Reps(t) && Routes(SetLeaf(t, i, s)) == Routes(t)
  {
    match t
    case Node(_, l, r) =>
      if i < Count(l) {
        SetLeafSame(l, i, s);
      } else {
        SetLeafSame(r, i - Count(l), s);
      }
    case _ =>
  }

  lemma {:induction false} LeafSet(t: Tree, i: nat, s: Tree)
    requires i < Count(t) && !s.Node?
    ensures i < Count(SetLeaf(t, i, s)) && LeafAt(SetLeaf(t, i, s), i) == s
  {
    match t
    case Node(_, l, r) =>
      if i < Count(l) {
        LeafSet(l, i, s);
      } else {
        LeafSet(r, i - Count(l), s);
      }
    case _ =>
  }

  lemma NodeLeaf(t: Tree, j: nat)
    requires t.Node? && j < Count(t)
    ensures LeafAt(t, j) == if j < Count(t.left) then LeafAt(t.left, j) else LeafAt(t.right, j - Count(t.left))
  {
  }

  lemma {:induction false} SwapLeaf(t: Tree, start: nat, count: nat, s: Tree)
    requires IsPart(t, start, count) && !s.Node?
    ensures start < Count(Swap(t, start, count, s)) && LeafAt(Swap(t, start, count, s), start) == s
  {
    hide *;
    PartBounds(t, start, count);
    LeafOne(s);
    if start == 0 && count == Count(t) {
      PartAll(t);
    } else {
      var left := PartStep(t, start, count);
      var t2 := Swap(t, start, count, s);
      NodeCount(t);
      NodeCount(t2);
      NodeLeaf(t2, start);
      if left {
        SwapLeaf(t.left, start, count, s);
      } else {
        SwapLeaf(t.right, start - Count(t.left), count, s);
      }
    }
  }

  lemma LeafOne(s: Tree)
    requires !s.Node?
    ensures Count(s) == 1 && LeafAt(s, 0) == s
  {
  }

  lemma NodeCount(t: Tree)
    requires t.Node?
    ensures Count(t) == Count(t.left) + Count(t.right)
  {
  }

  // -------------------------------------------------------------------- paths

  /** path leads from the page w down through child pages. */
  ghost predicate Leads(w: Tree, path: seq<nat>)
    decreases |path|
  {
    w.Sub? && (path != [] ==> path[0] < Count(w.body) && Leads(LeafAt(w.body, path[0]), path[1..]))
  }

  ghost function SubAt(w: Tree, path: seq<nat>): (s: Tree)
    requires Leads(w, path)
    ensures s.Sub?
    decreases |path|
  {
    if path == [] then w else SubAt(LeafAt(w.body, path[0]), path[1..])
  }

  /** w with the page at the end of the path exchanged. */
  ghost function Graft(w: Tree, path: seq<nat>, s: Tree): (r: Tree)
    requires Leads(w, path) && s.Sub? && s.id == SubAt(w, path).id
    ensures r.Sub? && r.id == w.id
    decreases |path|
  {
    if path == [] then s
    else Sub(w.id, SetLeaf(w.body, path[0], Graft(LeafAt(w.body, path[0]), path[1..], s)))
  }

  /** The pages outside the one at the end of the path, the pages on the path included. */
  ghost function Around(w: Tree, path: seq<nat>): map<nat, PageView>
    requires Leads(w, path)
    decreases |path|
  {
    if path == [] then map[]
    else Others(w.body, path[0])[w.id := PageOf(w.body)] + Around(LeafAt(w.body, path[0]), path[1..])
  }

  lemma {:induction false} ViewsAt(w: Tree, path: seq<nat>)
    requires Leads(w, path) && Distinct(w)
    ensures Distinct(SubAt(w, path)) && (Fits(w) ==> Fits(SubAt(w, path)))
    ensures Around(w, path).Keys !! Views(SubAt(w, path)).Keys
    ensures Views(w) == Around(w, path) + Views(SubAt(w, path))
    decreases |path|
  {
    hide Others, Fits, Views;
    if path != [] {
      var leaf := LeafAt(w.body, path[0]);
      var o, a, v := Others(w.body, path[0]), Around(leaf, path[1..]), Views(SubAt(leaf, path[1..]));
      PageViews(w);
      ViewsLeaf(w.body, path[0]);
      ViewsAt(leaf, path[1..]);
      UnionPut(o, Views(leaf), w.id, PageOf(w.body));
      UnionAssoc(o[w.id := PageOf(w.body)], a, v);
    }
  }

  lemma PageViews(w: Tree)
    requires w.Sub?
    ensures Views(w) == Views(w.body)[w.id := PageOf(w.body)]
    ensures Distinct(w) <==> Distinct(w.body) && w.id !in Views(w.body)
    ensures Fits(w) <==> Count(w.body) <= MAX_NODE_REPS && Fits(w.body)
  {
  }

  /** Grafting only looks at what is below the boundaries that it exchanges. */
  lemma {:induction false} GraftErase(w: Tree, path: seq<nat>, s1: Tree, s2: Tree)
    requires Leads(w, path) && s1.Sub? && s2.Sub? && s1.id == s2.id == SubAt(w, path).id
    requires Erase(s1) == Erase(s2)
    ensures Erase(Graft(w, path, s1)) == Erase(Graft(w, path, s2))
    decreases |path|
  {
    if path != [] {
      var leaf := LeafAt(w.body, path[0]);
      GraftErase(leaf, path[1..], s1, s2);
      SetLeafErase(w.body, path[0], Graft(leaf, path[1..], s1), Graft(leaf, path[1..], s2));
    }
  }

  /** One page up: grafting below slot leaf of a page is grafting the page itself. */
  lemma {:induction false} GraftUp(w: Tree, path: seq<nat>, leaf: nat, s: Tree)
    requires Leads(w, path + [leaf]) && s.Sub? && s.id == SubAt(w, path + [leaf]).id
    ensures Leads(w, path) && leaf < Count(SubAt(w, path).body)
    ensures SubAt(w, path + [leaf]) == LeafAt(SubAt(w, path).body, leaf)
    ensures var up := SubAt(w, path);
      Graft(w, path + [leaf], s) == Graft(w, path, Sub(up.id, SetLeaf(up.body, leaf, s)))
    decreases |path|
  {
    if path == [] {
      assert (path + [leaf])[1..] == [];
      assert Leads(LeafAt(w.body, leaf), []);
    } else {
      assert (path + [leaf])[1..] == path[1..] + [leaf];
      GraftUp(LeafAt(w.body, path[0]), path[1..], leaf, s);
    }
  }

  lemma {:induction false} AroundUp(w: Tree, path: seq<nat>, leaf: nat)
    requires Leads(w, path + [leaf])
    ensures Leads(w, path) && leaf < Count(SubAt(w, path).body)
    ensures var up := SubAt(w, path);
      Around(w, path + [leaf]) == Around(w, path) + Others(up.body, leaf)[up.id := PageOf(up.body)]
    decreases |path|
  {
    if path == [] {
      assert (path + [leaf])[1..] == [];
    } else {
      assert (path + [leaf])[1..] == path[1..] + [leaf];
      var below := LeafAt(w.body, path[0]);
      AroundUp(below, path[1..], leaf);
      hide Others, SubAt;
      var up := SubAt(w, path);
      assert up == SubAt(below, path[1..]) by { SubAtStep(w, path); }
      UnionAssoc(Others(w.body, path[0])[w.id := PageOf(w.body)], Around(below, path[1..]),
                 Others(up.body, leaf)[up.id := PageOf(up.body)]);
    }
  }

  lemma SubAtStep(w: Tree, path: seq<nat>)
    requires Leads(w, path) && path != []
    ensures SubAt(w, path) == SubAt(LeafAt(w.body, path[0]), path[1..])
  {
  }

  // ---------------------------------------------- a child page in two halves

  /** The pages of a are stored as they are in b. */
  ghost predicate Within(a: map<nat, PageView>, b: map<nat, PageView>) {
    forall c :: c in a ==> c in b && b[c] == a[c]
  }

  /** The pages of an index around one page whose child page cid is split in two, as maps:
      a around the page pid, o below its other slots, l and r below the two halves. */
  ghost predicate Halved(a: map<nat, PageView>, o: map<nat, PageView>, l: map<nat, PageView>, r: map<nat, PageView>,
                         pid: nat, cid: nat, sid: nat) {
    && a.Keys !! o.Keys && a.Keys !! l.Keys && a.Keys !! r.Keys
    && o.Keys !! l.Keys && o.Keys !! r.Keys && l.Keys !! r.Keys
    && pid !in a && pid !in o && pid !in l && pid !in r
    && cid !in a && cid !in o && cid !in l && cid !in r
    && sid !in a && sid !in o && sid !in l && sid !in r
    && pid != cid && pid != sid && cid != sid
  }

  ghost function Whole(a: map<nat, PageView>, o: map<nat, PageView>, b: map<nat, PageView>,
                       pid: nat, page: PageView): map<nat, PageView> {
    a + (o + b)[pid := page]
  }

  ghost function Halves(l: map<nat, PageView>, r: map<nat, PageView>, cid: nat, sid: nat,
                        left: PageView, right: PageView): map<nat, PageView> {
    l[cid := left] + r[sid := right]
  }

  /** Dividing the child page changes just these three pages. */
  lemma HalvedAt(a: map<nat, PageView>, o: map<nat, PageView>, l: map<nat, PageView>, r: map<nat, PageView>,
                 pid: nat, cid: nat, sid: nat, page: PageView, child: PageView,
                 left: PageView, right: PageView, page2: PageView, c: nat)
    requires Halved(a, o, l, r, pid, cid, sid)
    ensures var before := Whole(a, o, (l + r)[cid := child], pid, page);
      var after := Whole(a, o, Halves(l, r, cid, sid, left, right), pid, page2);
      && pid in before && cid in before
      && (c in after <==> c in before || c == sid)
      && (c in after ==>
            after[c] == if c == pid then page2 else if c == cid then left else if c == sid then right else before[c])
      && (c in l ==> c in before && before[c] == l[c]) && (c in r ==> c in before && before[c] == r[c])
  {
    var b, h := (l + r)[cid := child], Halves(l, r, cid, sid, left, right);
    assert c in h <==> c in b || c == sid;
    assert c in h ==> h[c] == if c == cid then left else if c == sid then right else b[c];
    assert c in o + h <==> c in o + b || c == sid;
  }

  lemma WholeBelow(a: map<nat, PageView>, o: map<nat, PageView>, b: map<nat, PageView>, pid: nat, page: PageView)
    requires pid !in o + b
    ensures Within(o + b, Whole(a, o, b, pid, page))
  {
  }
}
