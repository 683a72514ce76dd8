/** How the pages of an index shrink: what becomes of the pages on the way to a record that goes
    (DeleteFrom, DeleteFromChild, the merges and CompressRoot of index.h), said of the tree alone. */
module Shrinking {
  import opened Wrappers
  import opened Keys
  import opened Patricia
  import opened PageTree
  import opened NodePages
  import opened Paging
  import opened Search

  /** The page with the slots of the child page in slot i in its place. */
  ghost function Absorbing(s: Tree, i: nat): Tree
    requires s.Sub? && i < Count(s.body) && LeafAt(s.body, i).Sub?
  {
    Sub(s.id, SetLeaf(s.body, i, LeafAt(s.body, i).body))
  }

  lemma AbsorbingIs(s: Tree, i: nat)
    requires s.Sub? && i < Count(s.body) && LeafAt(s.body, i).Sub?
    ensures Absorbing(s, i) == Sub(s.id, SetLeaf(s.body, i, LeafAt(s.body, i).body))
  {
  }

  /** A direct pair is a part of the page: one node over two slots. */
  lemma {:induction false} DirectPart(t: Tree, i: nat)
    requires i < Count(t) - 1 && DirectPair(t, i)
    ensures IsPart(t, i, 2) && Part(t, i, 2) == Node(Diffs(t)[i], LeafAt(t, i), LeafAt(t, i + 1))
  {
    hide Diffs;
    NodeDiff(t, i);
    if i < Count(t.left) - 1 {
      DirectPart(t.left, i);
    } else if i > Count(t.left) - 1 {
      DirectPart(t.right, i - Count(t.left));
    }
  }

  /** One page for the two neighbouring pages a and b. */
  ghost function Joined(body: Tree, p: nat): Tree
    requires p + 1 < Count(body) && LeafAt(body, p).Sub? && LeafAt(body, p + 1).Sub?
  {
    Node(Diffs(body)[p], LeafAt(body, p).body, LeafAt(body, p + 1).body)
  }

  /** The page above, with one slot for the joined page. */
  ghost function JoinedAbove(body: Tree, p: nat): Tree
    requires p + 1 < Count(body) && LeafAt(body, p).Sub? && LeafAt(body, p + 1).Sub? && IsPart(body, p, 2)
  {
    Swap(body, p, 2, Sub(LeafAt(body, p).id, Joined(body, p)))
  }

  /** Two neighbouring child pages that fit into one. */
  ghost predicate Joinable(s: Tree, p: nat) {
    && s.Sub? && p + 1 < Count(s.body) && LeafAt(s.body, p).Sub? && LeafAt(s.body, p + 1).Sub?
    && DirectPair(s.body, p)
    && Count(LeafAt(s.body, p).body) + Count(LeafAt(s.body, p + 1).body) <= MAX_NODE_REPS
  }

  /** The page with the joinable pages in the slots p and p + 1 as one. */
  ghost function JoinedPair(s: Tree, p: nat): Tree
    requires Joinable(s, p)
  {
    DirectPart(s.body, p);
    Sub(s.id, JoinedAbove(s.body, p))
  }

  lemma JoinedPairIs(s: Tree, p: nat)
    requires Joinable(s, p)
    ensures s.Sub? && p + 1 < Count(s.body) && LeafAt(s.body, p).Sub? && LeafAt(s.body, p + 1).Sub?
    ensures IsPart(s.body, p, 2) && JoinedPair(s, p) == Sub(s.id, JoinedAbove(s.body, p))
  {
    DirectPart(s.body, p);
  }

  /** Whether the page in this slot has a neighbour to join with, and which. */
  ghost predicate CanMerge(s: Tree, slot: nat) {
    (slot > 0 && Joinable(s, slot - 1)) || Joinable(s, slot)
  }

  ghost predicate MergesRight(s: Tree, slot: nat) {
    Joinable(s, slot)
    && (slot > 0 && Joinable(s, slot - 1) ==>
          Count(LeafAt(s.body, slot + 1).body) > Count(LeafAt(s.body, slot - 1).body))
  }

  ghost function Merged(s: Tree, slot: nat): Tree
    requires CanMerge(s, slot)
  {
    if MergesRight(s, slot) then JoinedPair(s, slot) else JoinedPair(s, slot - 1)
  }

  lemma MergedIs(s: Tree, slot: nat)
    ensures CanMerge(s, slot) <==> (slot > 0 && Joinable(s, slot - 1)) || Joinable(s, slot)
    ensures CanMerge(s, slot) ==>
      Merged(s, slot) == if MergesRight(s, slot) then JoinedPair(s, slot) else JoinedPair(s, slot - 1)
    ensures slot > 0 && Joinable(s, slot - 1) && Joinable(s, slot) ==>
      s.Sub? && slot + 1 < Count(s.body) && LeafAt(s.body, slot + 1).Sub? && LeafAt(s.body, slot - 1).Sub?
      && (MergesRight(s, slot) <==> Count(LeafAt(s.body, slot + 1).body) > Count(LeafAt(s.body, slot - 1).body))
    ensures !(slot > 0 && Joinable(s, slot - 1)) ==> (MergesRight(s, slot) <==> Joinable(s, slot))
    ensures MergesRight(s, slot) ==> Joinable(s, slot)
  {
  }

  const SMALL_PAGE: nat := MAX_NODE_REPS / 32

  /** What becomes of the page s after its child in slot lost a record: the child is absorbed if
      both fit into one page; else, when it is small and has a fitting neighbour, it is merged
      with that; else both stay. */
  ghost function Settled(s: Tree, slot: nat): Tree
    requires s.Sub? && slot < Count(s.body) && LeafAt(s.body, slot).Sub?
  {
    var size := Count(LeafAt(s.body, slot).body);
    if Count(s.body) - 1 + size <= MAX_NODE_REPS then Absorbing(s, slot)
    else if size < SMALL_PAGE && CanMerge(s, slot) then Merged(s, slot)
    else s
  }

  lemma SettledIs(s: Tree, slot: nat)
    requires s.Sub? && slot < Count(s.body) && LeafAt(s.body, slot).Sub?
    ensures var size := Count(LeafAt(s.body, slot).body);
      Settled(s, slot)
      == if Count(s.body) - 1 + size <= MAX_NODE_REPS then Absorbing(s, slot)
         else if size < SMALL_PAGE && CanMerge(s, slot) then Merged(s, slot)
         else s
  {
    hide Absorbing, CanMerge, Merged;
  }

  lemma SettledId(s: Tree, slot: nat)
    requires s.Sub? && slot < Count(s.body) && LeafAt(s.body, slot).Sub?
    ensures Settled(s, slot).Sub? && Settled(s, slot).id == s.id
  {
    if CanMerge(s, slot) {
      if MergesRight(s, slot) {
        JoinedPairIs(s, slot);
      } else {
        JoinedPairIs(s, slot - 1);
      }
    }
  }

  // --------------------------------------------------------------- a whole deletion

  /** The page s after the record that the key leads to went from it or from below it: its slot goes,
      or that of a child page that became empty; any other child page is settled. Nothing is left of
      a page that had only this slot. */
  ghost function Removed(s: Tree, key: Key): (r: Option<Tree>)
    requires s.Sub?
    ensures r.Some? ==> r.value.Sub? && r.value.id == s.id
    decreases s
  {
    var i := Find(s.body, key);
    var c := LeafAt(s.body, i);
    LeafSmaller(s.body, i);
    var c2 := if c.Sub? then Removed(c, key) else None;
    match c2
    case None => if Count(s.body) == 1 then None else Some(Sub(s.id, DeleteHere(s.body, i)))
    case Some(below) =>
      LeafSet(s.body, i, below);
      SettledId(Sub(s.id, SetLeaf(s.body, i, below)), i);
      Some(Settled(Sub(s.id, SetLeaf(s.body, i, below)), i))
  }

  /** Page boundaries on the way to the first record. */
  ghost function Pages(t: Tree): nat {
    match t
    case Rec(_) => 0
    case Sub(_, b) => 1 + Pages(b)
    case Node(_, l, _) => Pages(l)
  }

  /** The root page takes over the slots of a child page that is all it holds. */
  ghost function Compressed(w: Tree): (r: Tree)
    requires w.Sub?
    ensures r.Sub? && r.id == w.id && !r.body.Sub?
    decreases w.body
  {
    if w.body.Sub? then Compressed(Sub(w.id, w.body.body)) else w
  }

  /** The pages of an index after a stored key was deleted. */
  ghost function DeletePages(w: Tree, key: Key): Option<Tree>
    requires w.Sub?
  {
    match Removed(w, key)
    case None => None
    case Some(t) => Some(Compressed(t))
  }

  lemma FewerPages(w: Tree)
    requires w.Sub? && w.body.Sub?
    ensures Pages(Sub(w.id, w.body.body)) < Pages(w)
    ensures Compressed(Sub(w.id, w.body.body)) == Compressed(w)
  {
  }

  // ------------------------------------------------------- what a deletion leaves

  /** Along the path, no page fits into the one above it. */
  ghost predicate Tight(t: Tree, path: seq<nat>)
    decreases |path|
  {
    && t.Sub?
    && (path != [] ==>
          && path[0] < Count(t.body) && LeafAt(t.body, path[0]).Sub?
          && Count(t.body) - 1 + Count(LeafAt(t.body, path[0]).body) > MAX_NODE_REPS
          && Tight(LeafAt(t.body, path[0]), path[1..]))
  }

  /** A path below the slots of a page that now start at another slot. */
  function Shifted(n: nat, path: seq<nat>): seq<nat> {
    if path == [] then [] else [n + path[0]] + path[1..]
  }

  /** The pages of the way to the deleted record that are still there, by their slots. */
  ghost function WayLeft(s: Tree, key: Key): seq<nat>
    requires s.Sub? && Removed(s, key).Some?
    decreases s
  {
    var i := Find(s.body, key);
    var c := LeafAt(s.body, i);
    LeafSmaller(s.body, i);
    if c.Rec? || Removed(c, key).None? then []
    else
      var s1 := Sub(s.id, SetLeaf(s.body, i, Removed(c, key).value));
      var way := WayLeft(c, key);
      var size := Count(Removed(c, key).value.body);
      if Count(s1.body) - 1 + size <= MAX_NODE_REPS then Shifted(i, way)
      else if size < SMALL_PAGE && CanMerge(s1, i) then
        if MergesRight(s1, i) then [i] + way
        else [i - 1] + Shifted(Count(LeafAt(s1.body, i - 1).body), way)
      else [i] + way
  }

  lemma {:induction false} InnerLeaf(t: Tree, i: nat, b: Tree, j: nat)
    requires i < Count(t) && j < Count(b)
    ensures Count(SetLeaf(t, i, b)) == Count(t) - 1 + Count(b)
    ensures LeafAt(SetLeaf(t, i, b), i + j) == LeafAt(b, j)
  {
    match t
    case Node(_, l, r) =>
      if i < Count(l) {
        InnerLeaf(l, i, b, j);
      } else {
        InnerLeaf(r, i - Count(l), b, j);
      }
    case _ =>
  }

  /** A page with more slots around those of a tight one. */
  lemma TightShift(a: Tree, b: Tree, n: nat, path: seq<nat>)
    requires Tight(a, path) && b.Sub? && Count(b.body) >= Count(a.body) + n
    requires path != [] ==> LeafAt(b.body, n + path[0]) == LeafAt(a.body, path[0])
    ensures Tight(b, Shifted(n, path))
  {
    hide *;
    TightSlot(a, path);
    ShiftedIs(n, path);
    if path == [] {
      TightNone(b);
    } else {
      TightStep(a, path);
      IsTight(b, Shifted(n, path));
    }
  }

  lemma ShiftedIs(n: nat, path: seq<nat>)
    ensures path == [] ==> Shifted(n, path) == []
    ensures path != [] ==> Shifted(n, path) != [] && Shifted(n, path)[0] == n + path[0]
    ensures path != [] ==> Shifted(n, path)[1..] == path[1..]
  {
  }

  lemma TightStep(t: Tree, path: seq<nat>)
    requires Tight(t, path) && path != []
    ensures t.Sub? && path[0] < Count(t.body) && LeafAt(t.body, path[0]).Sub?
    ensures Count(t.body) - 1 + Count(LeafAt(t.body, path[0]).body) > MAX_NODE_REPS
    ensures Tight(LeafAt(t.body, path[0]), path[1..])
  {
  }

  lemma IsTight(t: Tree, path: seq<nat>)
    requires t.Sub? && path != [] && path[0] < Count(t.body) && LeafAt(t.body, path[0]).Sub?
    requires Count(t.body) - 1 + Count(LeafAt(t.body, path[0]).body) > MAX_NODE_REPS
    requires Tight(LeafAt(t.body, path[0]), path[1..])
    ensures Tight(t, path)
  {
  }

  lemma TightUnder(t: Tree, i: nat, path: seq<nat>)
    requires t.Sub? && i < Count(t.body) && LeafAt(t.body, i).Sub? && Tight(LeafAt(t.body, i), path)
    requires Count(t.body) - 1 + Count(LeafAt(t.body, i).body) > MAX_NODE_REPS
    ensures Tight(t, [i] + path)
  {
    assert ([i] + path)[1..] == path;
  }

  /** The joined page in its slot. */
  lemma JoinedLeaf(s: Tree, p: nat)
    requires Joinable(s, p)
    ensures var t, a, b := JoinedPair(s, p), LeafAt(s.body, p), LeafAt(s.body, p + 1);
      && t.Sub? && Count(t.body) == Count(s.body) - 1 && p < Count(t.body) && a.Sub? && b.Sub?
      && LeafAt(t.body, p) == Sub(a.id, Node(Diffs(s.body)[p], a.body, b.body))
  {
    JoinedPairIs(s, p);
    SwapLeaf(s.body, p, 2, Sub(LeafAt(s.body, p).id, Joined(s.body, p)));
  }

  /** After a deletion no page that remains on the way to the record fits into the one above it. */
  lemma {:induction false} RemovedTight(s: Tree, key: Key)
    requires s.Sub? && Removed(s, key).Some?
    ensures Tight(Removed(s, key).value, WayLeft(s, key))
    decreases s
  {
    hide Tight, CanMerge, MergesRight, Diffs, DirectPair;
    var i := Find(s.body, key);
    var c := LeafAt(s.body, i);
    LeafSmaller(s.body, i);
    if c.Rec? || Removed(c, key).None? {
      TightNone(Removed(s, key).value);
    } else {
      RemovedTight(c, key);
      var c2, way := Removed(c, key).value, WayLeft(c, key);
      LeafSet(s.body, i, c2);
      SettledTight(Sub(s.id, SetLeaf(s.body, i, c2)), i, way);
    }
  }

  lemma TightNone(t: Tree)
    requires t.Sub?
    ensures Tight(t, [])
  {
  }

  lemma TightSlot(t: Tree, path: seq<nat>)
    requires Tight(t, path)
    ensures t.Sub? && (path != [] ==> path[0] < Count(t.body))
  {
  }

  lemma SettledTight(s: Tree, i: nat, way: seq<nat>)
    requires s.Sub? && i < Count(s.body) && LeafAt(s.body, i).Sub? && Tight(LeafAt(s.body, i), way)
    ensures var size := Count(LeafAt(s.body, i).body);
      Tight(Settled(s, i),
            if Count(s.body) - 1 + size <= MAX_NODE_REPS then Shifted(i, way)
            else if size < SMALL_PAGE && CanMerge(s, i) then
              if MergesRight(s, i) then [i] + way
              else [i - 1] + Shifted(Count(LeafAt(s.body, i - 1).body), way)
            else [i] + way)
  {
    hide Tight, Shifted, CanMerge, MergesRight, JoinedPair;
    var c := LeafAt(s.body, i);
    TightSlot(c, way);
    MergedIs(s, i);
    if Count(s.body) - 1 + Count(c.body) <= MAX_NODE_REPS {
      InnerLeaf(s.body, i, c.body, if way == [] then 0 else way[0]);
      TightShift(c, Absorbing(s, i), i, way);
    } else if Count(c.body) < SMALL_PAGE && CanMerge(s, i) {
      var p := if MergesRight(s, i) then i else i - 1;
      JoinedLeaf(s, p);
      var t := JoinedPair(s, p);
      var j := LeafAt(t.body, p);
      var n := if p == i then 0 else Count(LeafAt(s.body, p).body);
      if way != [] {
        NodeLeaf(j.body, n + way[0]);
      }
      TightShift(c, j, n, way);
      ShiftedNot(way);
      TightUnder(t, p, Shifted(n, way));
    } else {
      TightUnder(s, i, way);
    }
  }

  lemma ShiftedNot(path: seq<nat>)
    ensures Shifted(0, path) == path
  {
  }

  /** The page that a settled child is left in: it is not one that could still be absorbed, and not
      one of fewer than ten slots beside a neighbour that it fits with, unless it was just joined. */
  lemma SettledLeaves(s: Tree, i: nat)
    requires s.Sub? && i < Count(s.body) && LeafAt(s.body, i).Sub?
    ensures var t, size := Settled(s, i), Count(LeafAt(s.body, i).body);
      || (t == Absorbing(s, i) && Count(t.body) == Count(s.body) - 1 + size <= MAX_NODE_REPS)
      || (Count(s.body) - 1 + size > MAX_NODE_REPS && size < 10 && CanMerge(s, i)
          && Count(t.body) == Count(s.body) - 1)
      || (Count(s.body) - 1 + size > MAX_NODE_REPS && (size >= 10 || !CanMerge(s, i)) && t == s)
  {
    var c := LeafAt(s.body, i);
    InnerLeaf(s.body, i, c.body, 0);
    MergedIs(s, i);
    if CanMerge(s, i) {
      JoinedLeaf(s, if MergesRight(s, i) then i else i - 1);
    }
  }
}
