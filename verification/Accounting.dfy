/** Counting what a tree holds: records slot by slot (CountRecords of index.h), and pages,
    each owned by one slot of one other page. */
module Accounting {
  import opened Patricia
  import opened PageTree
  import opened NodePages
  import opened NodeStore
  import opened Paging
  import opened PageBuilder
  import opened Search
  import opened Sequences

  /** The records below the first i slots of a page. */
  ghost function Offset(t: Tree, i: nat): (n: nat)
    requires i <= Count(t)
    ensures n <= |Flat(t)|
  {
    match t
    case Node(_, l, r) => if i <= Count(l) then Offset(l, i) else |Flat(l)| + Offset(r, i - Count(l))
    case _ => if i == 0 then 0 else |Flat(t)|
  }

  lemma {:induction false} OffsetEnds(t: Tree)
    ensures Offset(t, 0) == 0 && Offset(t, Count(t)) == |Flat(t)|
  {
    match t
    case Node(_, l, r) => OffsetEnds(l); OffsetEnds(r);
    case _ =>
  }

  /** The records of slot i lie together, behind those of the slots before it. */
  lemma {:induction false} OffsetStep(t: Tree, i: nat)
    requires i < Count(t)
    ensures Offset(t, i + 1) == Offset(t, i) + |Flat(LeafAt(t, i))|
    ensures Offset(t, i + 1) <= |Flat(t)| && Flat(t)[Offset(t, i)..Offset(t, i + 1)] == Flat(LeafAt(t, i))
  {
    hide Flat;
    match t
    case Node(_, l, r) =>
      FlatNode(t);
      OffsetEnds(l);
      OffsetEnds(r);
      if i < Count(l) {
        OffsetStep(l, i);
        SliceLeft(Flat(l), Flat(r), Offset(t, i), Offset(t, i + 1));
      } else {
        OffsetStep(r, i - Count(l));
        SliceRight(Flat(l), Flat(r), Offset(t, i), Offset(t, i + 1));
      }
    case _ =>
      WholeSlice(Flat(t));
  }

  lemma FlatNode(t: Tree)
    requires t.Node?
    ensures Flat(t) == Flat(t.left) + Flat(t.right)
  {
  }

  lemma FlatSub(t: Tree)
    requires t.Sub?
    ensures Flat(t) == Flat(t.body)
  {
  }

  lemma FlatRec(t: Tree)
    requires t.Rec?
    ensures Flat(t) == [t.pos]
  {
  }

  /** CountRecords: page by page, every record is counted once. */
  method CountRecords(nodes: HeapNodeStore, id: nat, ghost s: Tree) returns (total: nat)
    requires nodes.Valid() && s.Sub? && s.id == id && Distinct(s) && Within(Views(s), nodes.View())
    ensures total == |Flat(s)|
    decreases s
  {
    hide *;
    SlotPage(s, nodes.View());
    var node := nodes.Get(id);
    node.ViewHolds(s.body);
    OffsetEnds(s.body);
    FlatSub(s);
    total := 0;
    var i := 0;
    while i < node.size
      invariant 0 <= i <= Count(s.body) && total == Offset(s.body, i)
    {
      OffsetStep(s.body, i);
      node.RepAt(s.body, i);
      ghost var c := LeafAt(s.body, i);
      RepMeans(c);
      match node.reps[i] {
        case Record(_) =>
          FlatRec(c);
          total := total + 1;
        case Child(child) =>
          ChildPage(s, i, nodes.View());
          var n := CountRecords(nodes, child, c);
          total := total + n;
      }
      i := i + 1;
    }
  }

  lemma SlotPage(s: Tree, view: map<nat, PageView>)
    requires s.Sub? && Distinct(s) && Within(Views(s), view)
    ensures s.id in view && view[s.id] == PageOf(s.body)
  {
    PageViews(s);
    assert s.id in Views(s);
  }

  lemma ChildPage(s: Tree, i: nat, view: map<nat, PageView>)
    requires s.Sub? && Distinct(s) && Within(Views(s), view) && i < Count(s.body)
    ensures Distinct(LeafAt(s.body, i)) && Within(Views(LeafAt(s.body, i)), view) && LeafAt(s.body, i) < s
  {
    hide Views, LeafAt;
    PageViews(s);
    ViewsLeaf(s.body, i);
    LeafSmaller(s.body, i);
    WithinBody(s, view);
    LeafWithin(s.body, i, view);
  }

  lemma WithinBody(s: Tree, view: map<nat, PageView>)
    requires s.Sub? && Distinct(s) && Within(Views(s), view)
    ensures Within(Views(s.body), view)
  {
    PageViews(s);
    forall c: nat | c in Views(s.body) ensures c in view && view[c] == Views(s.body)[c] {
      assert c in Views(s);
    }
  }

  // ------------------------------------------------------------ page ownership

  ghost function PageCount(t: Tree): nat {
    match t
    case Rec(_) => 0
    case Sub(_, b) => 1 + PageCount(b)
    case Node(_, l, r) => PageCount(l) + PageCount(r)
  }

  lemma {:induction false} ViewsSize(t: Tree)
    requires Distinct(t)
    ensures |Views(t)| == PageCount(t)
  {
    match t
    case Rec(_) =>
    case Sub(id, b) =>
      ViewsSize(b);
      assert Views(t).Keys == Views(b).Keys + {id};
    case Node(_, l, r) =>
      ViewsSize(l);
      ViewsSize(r);
      assert Views(t).Keys == Views(l).Keys + Views(r).Keys;
  }

  /** Slot i of the page id holds the page c. */
  ghost predicate Names(view: map<nat, PageView>, id: nat, i: nat, c: nat) {
    id in view && i < |view[id].reps| && view[id].reps[i] == Child(c)
  }

  /** A slot of the topmost page piece t holds the page c. */
  ghost predicate TopName(t: Tree, i: nat, c: nat) {
    i < Count(t) && Reps(t)[i] == Child(c)
  }

  /** Each page below t is held by exactly one slot: of t itself or of one page below it. */
  ghost predicate Owned(t: Tree) {
    && (forall i: nat, c: nat :: TopName(t, i, c) ==> c in Views(t))
    && (forall i: nat, j: nat, c: nat :: TopName(t, i, c) && TopName(t, j, c) ==> i == j)
    && (forall id: nat, i: nat, c: nat :: Names(Views(t), id, i, c) ==> c in Views(t))
    && (forall id: nat, i: nat, j: nat, c: nat :: Names(Views(t), id, i, c) ==> !TopName(t, j, c))
    && (forall id: nat, id2: nat, i: nat, j: nat, c: nat ::
          Names(Views(t), id, i, c) && Names(Views(t), id2, j, c) ==> id == id2 && i == j)
    && (forall c: nat :: c in Views(t) ==>
          (exists i: nat :: TopName(t, i, c)) || exists id: nat, i: nat :: Names(Views(t), id, i, c))
  }

  lemma SubNames(t: Tree)
    requires t.Sub? && Distinct(t)
    ensures forall i: nat, c: nat :: TopName(t, i, c) <==> i == 0 && c == t.id
    ensures forall id: nat, i: nat, c: nat :: Names(Views(t), id, i, c) <==>
      if id == t.id then TopName(t.body, i, c) else Names(Views(t.body), id, i, c)
    ensures forall id: nat, i: nat, c: nat :: Names(Views(t.body), id, i, c) ==> id != t.id
    ensures forall c: nat :: c in Views(t) <==> c == t.id || c in Views(t.body)
    ensures t.id !in Views(t.body)
  {
  }

  lemma NodeNames(t: Tree)
    requires t.Node? && Distinct(t)
    ensures forall i: nat, c: nat :: TopName(t, i, c) <==>
      if i < Count(t.left) then TopName(t.left, i, c) else TopName(t.right, i - Count(t.left), c)
    ensures forall id: nat, i: nat, c: nat :: Names(Views(t), id, i, c) <==>
      Names(Views(t.left), id, i, c) || Names(Views(t.right), id, i, c)
    ensures forall c: nat :: c in Views(t) <==> c in Views(t.left) || c in Views(t.right)
    ensures forall c: nat :: !(c in Views(t.left) && c in Views(t.right))
  {
  }

  /** No page is shared, none is missing, and none but the topmost is without an owner. */
  lemma {:induction false} PagesOwned(t: Tree)
    requires Distinct(t)
    ensures Owned(t)
  {
    hide Views, TopName, Names, Reps;
    match t
    case Rec(_) => RecOwned(t);
    case Sub(_, b) =>
      PagesOwned(b);
      SubNames(t);
      SubOwner(t);
    case Node(_, l, r) =>
      PagesOwned(l);
      PagesOwned(r);
      NodeNames(t);
      NodeOwner(t);
  }

  lemma RecOwned(t: Tree)
    requires t.Rec?
    ensures Owned(t)
  {
  }

  lemma SubOwner(t: Tree)
    requires t.Sub? && Distinct(t) && Owned(t.body)
    ensures forall c: nat :: c in Views(t) ==>
      (exists i: nat :: TopName(t, i, c)) || exists id: nat, i: nat :: Names(Views(t), id, i, c)
  {
    hide Views, TopName, Names, Reps;
    SubNames(t);
    forall c: nat | c in Views(t)
      ensures (exists i: nat :: TopName(t, i, c)) || exists id: nat, i: nat :: Names(Views(t), id, i, c)
    {
      if c == t.id {
        assert TopName(t, 0, c);
      } else if i: nat :| TopName(t.body, i, c) {
        assert Names(Views(t), t.id, i, c);
      } else {
        var id: nat, i: nat :| Names(Views(t.body), id, i, c);
        assert Names(Views(t), id, i, c);
      }
    }
  }

  lemma TopSide(t: Tree, left: bool, i: nat, c: nat) returns (j: nat)
    requires t.Node? && TopName(if left then t.left else t.right, i, c)
    ensures TopName(t, j, c)
  {
    j := if left then i else i + Count(t.left);
  }

  lemma SideOwner(t: Tree, left: bool, c: nat)
    requires t.Node? && Distinct(t)
    requires var side := if left then t.left else t.right; Owned(side) && c in Views(side)
    ensures (exists i: nat :: TopName(t, i, c)) || exists id: nat, i: nat :: Names(Views(t), id, i, c)
  {
    hide Views, TopName, Names, Reps;
    NodeNames(t);
    var side := if left then t.left else t.right;
    if i: nat :| TopName(side, i, c) {
      var j := TopSide(t, left, i, c);
    } else {
      var id: nat, i: nat :| Names(Views(side), id, i, c);
      assert Names(Views(t), id, i, c);
      assert exists id: nat, i: nat :: Names(Views(t), id, i, c);
    }
  }

  lemma NodeOwner(t: Tree)
    requires t.Node? && Distinct(t) && Owned(t.left) && Owned(t.right)
    ensures forall c: nat :: c in Views(t) ==>
      (exists i: nat :: TopName(t, i, c)) || exists id: nat, i: nat :: Names(Views(t), id, i, c)
  {
    hide Views, TopName, Names, Reps, Owned;
    NodeNames(t);
    forall c: nat | c in Views(t)
      ensures (exists i: nat :: TopName(t, i, c)) || exists id: nat, i: nat :: Names(Views(t), id, i, c)
    {
      SideOwner(t, c in Views(t.left), c);
    }
  }
}
