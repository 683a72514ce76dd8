/** One page as a tree: where routes and slots of a subtree lie in the page's arrays, and
    what inserting or deleting a slot does to them. */
module PageTree {
  import opened Keys
  import opened Patricia
  import opened Sequences

  // --------------------------------------------------------------- positions

  /** s is the subtree of t whose routes start at route and whose slots start at leaf. */
  ghost predicate At(t: Tree, s: Tree, route: int, leaf: int) {
    || (s == t && route == 0 && leaf == 0)
    || (t.Node? && At(t.left, s, route - 1, leaf))
    || (t.Node? && At(t.right, s, route - Count(t.left), leaf - Count(t.left)))
  }

  lemma {:induction false} AtRange(t: Tree, s: Tree, route: int, leaf: int)
    requires At(t, s, route, leaf)
    ensures 0 <= route && route + Count(s) <= Count(t)
    ensures 0 <= leaf && leaf + Count(s) <= Count(t)
  {
    if t.Node? {
      if At(t.left, s, route - 1, leaf) {
        AtRange(t.left, s, route - 1, leaf);
      } else if At(t.right, s, route - Count(t.left), leaf - Count(t.left)) {
        AtRange(t.right, s, route - Count(t.left), leaf - Count(t.left));
      }
    }
  }

  /** The first route of a subtree of at least two slots is its own node's. */
  lemma {:induction false} AtHead(t: Tree, s: Tree, route: int, leaf: int)
    requires At(t, s, route, leaf) && s.Node?
    ensures 0 <= route < Count(t) - 1
    ensures Routes(t)[route] == Route(s.diff, Count(s.left))
  {
    if !(s == t && route == 0 && leaf == 0) {
      if At(t.left, s, route - 1, leaf) {
        AtHead(t.left, s, route - 1, leaf);
      } else {
        AtHead(t.right, s, route - Count(t.left), leaf - Count(t.left));
      }
    }
  }

  lemma {:induction false} AtLeft(t: Tree, s: Tree, route: int, leaf: int)
    requires At(t, s, route, leaf) && s.Node?
    ensures At(t, s.left, route + 1, leaf)
  {
    if s == t && route == 0 && leaf == 0 {
      assert At(t.left, s.left, 0, 0);
    } else if At(t.left, s, route - 1, leaf) {
      AtLeft(t.left, s, route - 1, leaf);
    } else {
      AtLeft(t.right, s, route - Count(t.left), leaf - Count(t.left));
    }
  }

  lemma {:induction false} AtRight(t: Tree, s: Tree, route: int, leaf: int)
    requires At(t, s, route, leaf) && s.Node?
    ensures At(t, s.right, route + Count(s.left), leaf + Count(s.left))
  {
    if s == t && route == 0 && leaf == 0 {
      assert At(t.right, s.right, 0, 0);
    } else if At(t.left, s, route - 1, leaf) {
      AtRight(t.left, s, route - 1, leaf);
    } else {
      AtRight(t.right, s, route - Count(t.left), leaf - Count(t.left));
    }
  }

  /** Where route j of a node's page comes from. */
  lemma NodeRoute(t: Tree, j: nat)
    requires t.Node? && j < Count(t) - 1
    ensures Routes(t)[j]
      == if j == 0 then Route(t.diff, Count(t.left))
         else if j < Count(t.left) then Routes(t.left)[j - 1]
         else Routes(t.right)[j - Count(t.left)]
  {
    HeadIndex(Route(t.diff, Count(t.left)), Routes(t.left), Routes(t.right), j);
  }

  /** Where diff j of a node's page comes from. */
  lemma NodeDiff(t: Tree, j: nat)
    requires t.Node? && j < Count(t) - 1
    ensures Diffs(t)[j]
      == if j < Count(t.left) - 1 then Diffs(t.left)[j]
         else if j == Count(t.left) - 1 then t.diff
         else Diffs(t.right)[j - Count(t.left)]
  {
    MiddleIndex(Diffs(t.left), t.diff, Diffs(t.right), j);
  }

  // ------------------------------------------------------------------ leaves

  /** Slot i of the page: a record or a child page. */
  function LeafAt(t: Tree, i: nat): (s: Tree)
    requires i < Count(t)
    ensures !s.Node?
  {
    match t
    case Node(_, l, r) => if i < Count(l) then LeafAt(l, i) else LeafAt(r, i - Count(l))
    case _ => t
  }

  function RepOf(s: Tree): Rep
    requires !s.Node?
  {
    if s.Rec? then Record(s.pos) else Child(s.id)
  }

  lemma {:induction false} LeafRep(t: Tree, i: nat)
    requires i < Count(t)
    ensures Reps(t)[i] == RepOf(LeafAt(t, i))
  {
    if t.Node? {
      if i < Count(t.left) {
        LeafRep(t.left, i);
      } else {
        LeafRep(t.right, i - Count(t.left));
      }
    }
  }

  /** Slot i filled with s, which may itself bring several slots. */
  function SetLeaf(t: Tree, i: nat, s: Tree): Tree
    requires i < Count(t)
  {
    match t
    case Node(d, l, r) =>
      if i < Count(l) then Node(d, SetLeaf(l, i, s), r) else Node(d, l, SetLeaf(r, i - Count(l), s))
    case _ => s
  }

  // ------------------------------------------------------------------- parts

  /** Slots [start, start + count) are exactly those of one subtree. */
  predicate IsPart(t: Tree, start: nat, count: nat) {
    || (start == 0 && count == Count(t))
    || (t.Node? && start + count <= Count(t.left) && IsPart(t.left, start, count))
    || (t.Node? && start >= Count(t.left) && IsPart(t.right, start - Count(t.left), count))
  }

  function Part(t: Tree, start: nat, count: nat): (s: Tree)
    requires IsPart(t, start, count)
    ensures Count(s) == count
  {
    if start == 0 && count == Count(t) then t
    else if start + count <= Count(t.left) && IsPart(t.left, start, count) then Part(t.left, start, count)
    else Part(t.right, start - Count(t.left), count)
  }

  /** The subtree on these slots exchanged for s. */
  function Swap(t: Tree, start: nat, count: nat, s: Tree): (r: Tree)
    requires IsPart(t, start, count)
    ensures Count(r) == Count(t) - count + Count(s)
  {
    if start == 0 && count == Count(t) then s
    else if start + count <= Count(t.left) && IsPart(t.left, start, count) then
      Node(t.diff, Swap(t.left, start, count, s), t.right)
    else
      Node(t.diff, t.left, Swap(t.right, start - Count(t.left), count, s))
  }

  /** A single slot is the smallest part. */
  lemma {:induction false} LeafPart(t: Tree, i: nat)
    requires i < Count(t)
    ensures IsPart(t, i, 1) && Part(t, i, 1) == LeafAt(t, i)
    ensures forall s :: Swap(t, i, 1, s) == SetLeaf(t, i, s)
  {
    if t.Node? {
      if i < Count(t.left) {
        LeafPart(t.left, i);
      } else {
        LeafPart(t.right, i - Count(t.left));
      }
    }
  }

  lemma PartBounds(t: Tree, start: nat, count: nat)
    requires IsPart(t, start, count)
    ensures 1 <= count && start + count <= Count(t)
  {
    var s := Part(t, start, count);
    if !(start == 0 && count == Count(t)) {
      if start + count <= Count(t.left) && IsPart(t.left, start, count) {
        PartBounds(t.left, start, count);
      } else {
        PartBounds(t.right, start - Count(t.left), count);
      }
    }
  }

  lemma {:induction false} FindLeaf(t: Tree, key: Key)
    ensures Best(t, key) == Best(LeafAt(t, Find(t, key)), key)
  {
    if t.Node? {
      FindLeaf(t.left, key);
      FindLeaf(t.right, key);
    }
  }

  // ------------------------------------------------------------------ insert

  /** Insertion inside this page: at a slot reached, next to it. */
  function InsertHere(t: Tree, key: Key, diff: nat, pos: Position): (r: Tree)
    ensures Count(r) == Count(t) + 1
  {
    match t
    case Node(d, l, r) =>
      if diff < d then Join(t, key, diff, pos)
      else if !Bit(key, d) then Node(d, InsertHere(l, key, diff, pos), r)
      else Node(d, l, InsertHere(r, key, diff, pos))
    case _ => Join(t, key, diff, pos)
  }

  /** A node on the path of key in this page tests a later bit than diff. */
  predicate StopsHere(t: Tree, key: Key, diff: nat) {
    t.Node? && (diff < t.diff || StopsHere(if !Bit(key, t.diff) then t.left else t.right, key, diff))
  }

  /** The slot the new record gets in this page. */
  function InsertSlot(t: Tree, key: Key, diff: nat): (i: nat)
    ensures i <= Count(t)
  {
    match t
    case Node(d, l, r) =>
      if diff < d then (if Bit(key, diff) then Count(t) else 0)
      else if !Bit(key, d) then InsertSlot(l, key, diff)
      else Count(l) + InsertSlot(r, key, diff)
    case _ => if Bit(key, diff) then 1 else 0
  }

  /** The place of the new route in the array. */
  function InsertIndex(t: Tree, key: Key, diff: nat): (i: nat)
    ensures i < Count(t)
  {
    match t
    case Node(d, l, r) =>
      if diff < d then 0
      else if !Bit(key, d) then 1 + InsertIndex(l, key, diff)
      else Count(l) + InsertIndex(r, key, diff)
    case _ => 0
  }

  /** The left count of the new route. */
  function InsertLeftCount(t: Tree, key: Key, diff: nat): (n: nat)
    ensures 1 <= n <= Count(t)
  {
    match t
    case Node(d, l, r) =>
      if diff < d then (if Bit(key, diff) then Count(t) else 1)
      else if !Bit(key, d) then InsertLeftCount(l, key, diff)
      else InsertLeftCount(r, key, diff)
    case _ => 1
  }

  /** Route i is passed on its left side on the way to the insertion point. */
  predicate InsertPasses(t: Tree, key: Key, diff: nat, i: int) {
    t.Node? && diff >= t.diff &&
    if !Bit(key, t.diff) then i == 0 || InsertPasses(t.left, key, diff, i - 1)
    else InsertPasses(t.right, key, diff, i - Count(t.left))
  }

  lemma {:induction false} PassesRange(t: Tree, key: Key, diff: nat, i: int)
    requires InsertPasses(t, key, diff, i)
    ensures 0 <= i < InsertIndex(t, key, diff)
  {
    if !Bit(key, t.diff) {
      if i != 0 {
        PassesRange(t.left, key, diff, i - 1);
      }
    } else {
      PassesRange(t.right, key, diff, i - Count(t.left));
    }
  }

  /** What became of route i when the record was inserted. */
  ghost predicate RouteAdded(t: Tree, key: Key, diff: nat, pos: Position, i: nat)
    requires i < Count(t)
  {
    Routes(InsertHere(t, key, diff, pos))[i]
    == if i < InsertIndex(t, key, diff) then
         Route(Routes(t)[i].diff, Routes(t)[i].leftCount + if InsertPasses(t, key, diff, i) then 1 else 0)
       else if i == InsertIndex(t, key, diff) then
         Route(diff, InsertLeftCount(t, key, diff))
       else
         Routes(t)[i - 1]
  }

  /** The record joins the page at its root node. */
  lemma RouteAddedHere(t: Tree, key: Key, diff: nat, pos: Position, i: nat)
    requires i < Count(t) && (t.Node? ==> diff < t.diff)
    ensures RouteAdded(t, key, diff, pos, i)
  {
    hide Routes;
    NodeRoute(InsertHere(t, key, diff, pos), i);
    if t.Node? {
      if i < Count(t) - 1 {
        NodeRoute(t, i);
      }
      if i > 0 {
        NodeRoute(t, i - 1);
      }
      JoinRoutes(t, key, diff, pos, i);
    }
  }

  /** The record goes to the left side. */
  lemma {:induction false} RouteAddedLeft(t: Tree, key: Key, diff: nat, pos: Position, i: nat)
    requires i < Count(t) && t.Node? && diff >= t.diff && !Bit(key, t.diff)
    ensures RouteAdded(t, key, diff, pos, i)
    decreases t, 0
  {
    hide Routes;
    NodeRoute(InsertHere(t, key, diff, pos), i);
    if i < Count(t) - 1 {
      NodeRoute(t, i);
    }
    if i > 0 {
      NodeRoute(t, i - 1);
    }
    if 1 <= i < Count(t.left) + 1 {
      InsertRoutes(t.left, key, diff, pos, i - 1);
    }
  }

  /** The record goes to the right side. */
  lemma {:induction false} RouteAddedRight(t: Tree, key: Key, diff: nat, pos: Position, i: nat)
    requires i < Count(t) && t.Node? && diff >= t.diff && Bit(key, t.diff)
    ensures RouteAdded(t, key, diff, pos, i)
    decreases t, 0
  {
    hide Routes;
    NodeRoute(InsertHere(t, key, diff, pos), i);
    if i < Count(t) - 1 {
      NodeRoute(t, i);
    }
    if i > 0 {
      NodeRoute(t, i - 1);
    }
    if i >= Count(t.left) {
      InsertRoutes(t.right, key, diff, pos, i - Count(t.left));
    } else if InsertPasses(t, key, diff, i) {
      PassesRange(t.right, key, diff, i - Count(t.left));
    }
  }

  /** Insertion in this page shifts the routes from the new one on and adds one to the
      left counts passed on their left side; nothing else changes. */
  lemma {:induction false} InsertRoutes(t: Tree, key: Key, diff: nat, pos: Position, i: nat)
    requires i < Count(t)
    ensures Routes(InsertHere(t, key, diff, pos))[i]
      == if i < InsertIndex(t, key, diff) then
           Route(Routes(t)[i].diff, Routes(t)[i].leftCount + if InsertPasses(t, key, diff, i) then 1 else 0)
         else if i == InsertIndex(t, key, diff) then
           Route(diff, InsertLeftCount(t, key, diff))
         else
           Routes(t)[i - 1]
    decreases t, 1
  {
    hide Routes, InsertHere, InsertIndex, InsertPasses, InsertLeftCount;
    if !t.Node? || diff < t.diff {
      RouteAddedHere(t, key, diff, pos, i);
    } else if !Bit(key, t.diff) {
      RouteAddedLeft(t, key, diff, pos, i);
    } else {
      RouteAddedRight(t, key, diff, pos, i);
    }
  }

  lemma JoinRoutes(t: Tree, key: Key, diff: nat, pos: Position, i: nat)
    requires i < Count(t)
    ensures Routes(Join(t, key, diff, pos))[i]
      == if i == 0 then Route(diff, if Bit(key, diff) then Count(t) else 1) else Routes(t)[i - 1]
  {
    var leaf := Rec(pos);
    assert Routes(leaf) == [];
  }

  lemma {:induction false} InsertReps(t: Tree, key: Key, diff: nat, pos: Position)
    ensures Reps(InsertHere(t, key, diff, pos))
      == Reps(t)[..InsertSlot(t, key, diff)] + [Record(pos)] + Reps(t)[InsertSlot(t, key, diff)..]
  {
    match t
    case Node(d, l, r) =>
      var n := InsertSlot(t, key, diff);
      if diff < d {
      } else if !Bit(key, d) {
        InsertReps(l, key, diff, pos);
        CutLeft(Reps(l), Reps(r), n, n);
        ConcatAssoc(Reps(l)[..n], [Record(pos)], Reps(l)[n..], Reps(r));
      } else {
        InsertReps(r, key, diff, pos);
        CutRight(Reps(l), Reps(r), n, n);
        ConcatAssoc2(Reps(l), Reps(r)[..n - Count(l)], [Record(pos)], Reps(r)[n - Count(l)..]);
      }
    case _ =>
  }

  // ------------------------------------------------------------------ delete

  /** The page without slot i: the sibling subtree takes the place of the slot's parent. */
  function DeleteHere(t: Tree, i: nat): (r: Tree)
    requires i < Count(t) && Count(t) > 1
    ensures Count(r) == Count(t) - 1
  {
    var Node(d, l, r) := t;
    if i < Count(l) then
      if Count(l) == 1 then r else Node(d, DeleteHere(l, i), r)
    else
      if Count(r) == 1 then l else Node(d, l, DeleteHere(r, i - Count(l)))
  }

  /** The route of the slot's parent. */
  function DeleteIndex(t: Tree, i: nat): (n: nat)
    requires i < Count(t) && Count(t) > 1
    ensures n < Count(t) - 1
  {
    var Node(d, l, r) := t;
    if i < Count(l) then
      if Count(l) == 1 then 0 else 1 + DeleteIndex(l, i)
    else
      if Count(r) == 1 then 0 else Count(l) + DeleteIndex(r, i - Count(l))
  }

  /** Route j keeps its node and loses one slot on its left side. */
  predicate DeletePasses(t: Tree, i: nat, j: int)
    requires i < Count(t) && Count(t) > 1
  {
    var Node(d, l, r) := t;
    if i < Count(l) then
      Count(l) > 1 && (j == 0 || DeletePasses(l, i, j - 1))
    else
      Count(r) > 1 && DeletePasses(r, i - Count(l), j - Count(l))
  }

  lemma {:induction false} DeletePassesRange(t: Tree, i: nat, j: int)
    requires i < Count(t) && Count(t) > 1 && DeletePasses(t, i, j)
    ensures 0 <= j < DeleteIndex(t, i)
  {
    var Node(d, l, r) := t;
    if i < Count(l) {
      if j != 0 {
        DeletePassesRange(l, i, j - 1);
      }
    } else {
      DeletePassesRange(r, i - Count(l), j - Count(l));
    }
  }

  /** What became of route j when slot i was deleted. */
  ghost predicate RouteGone(t: Tree, i: nat, j: nat)
    requires i < Count(t) && Count(t) > 1 && j < Count(t) - 2
  {
    && (j < DeleteIndex(t, i) && DeletePasses(t, i, j) ==> Routes(t)[j].leftCount > 1)
    && Routes(DeleteHere(t, i))[j]
       == if j >= DeleteIndex(t, i) then Routes(t)[j + 1]
          else if DeletePasses(t, i, j) then Route(Routes(t)[j].diff, Routes(t)[j].leftCount - 1)
          else Routes(t)[j]
  }

  /** The slot lies on the left side. */
  lemma {:induction false} RouteGoneLeft(t: Tree, i: nat, j: nat)
    requires i < Count(t) && Count(t) > 1 && j < Count(t) - 2 && i < Count(t.left)
    ensures RouteGone(t, i, j)
    decreases t, 0
  {
    hide Routes;
    var l := t.left;
    NodeRoute(t, j);
    NodeRoute(t, j + 1);
    if Count(l) > 1 {
      NodeRoute(DeleteHere(t, i), j);
      if 1 <= j < Count(l) - 1 {
        DeleteRoutes(l, i, j - 1);
      }
    }
  }

  /** The slot lies on the right side. */
  lemma {:induction false} RouteGoneRight(t: Tree, i: nat, j: nat)
    requires i < Count(t) && Count(t) > 1 && j < Count(t) - 2 && i >= Count(t.left)
    ensures RouteGone(t, i, j)
    decreases t, 0
  {
    hide Routes;
    var l, r := t.left, t.right;
    NodeRoute(t, j);
    NodeRoute(t, j + 1);
    if Count(r) > 1 {
      NodeRoute(DeleteHere(t, i), j);
      if j >= Count(l) {
        DeleteRoutes(r, i - Count(l), j - Count(l));
      } else if DeletePasses(t, i, j) {
        DeletePassesRange(r, i - Count(l), j - Count(l));
      }
    }
  }

  /** Deletion in this page closes the gap of the parent's route and takes one off the left
      counts passed on their left side. */
  lemma {:induction false} DeleteRoutes(t: Tree, i: nat, j: nat)
    requires i < Count(t) && Count(t) > 1 && j < Count(t) - 2
    ensures j < DeleteIndex(t, i) && DeletePasses(t, i, j) ==> Routes(t)[j].leftCount > 1
    ensures Routes(DeleteHere(t, i))[j]
      == if j >= DeleteIndex(t, i) then Routes(t)[j + 1]
         else if DeletePasses(t, i, j) then Route(Routes(t)[j].diff, Routes(t)[j].leftCount - 1)
         else Routes(t)[j]
    decreases t, 1
  {
    hide Routes, DeleteIndex, DeletePasses, DeleteHere;
    if i < Count(t.left) {
      RouteGoneLeft(t, i, j);
    } else {
      RouteGoneRight(t, i, j);
    }
  }

  lemma {:induction false} DeleteReps(t: Tree, i: nat)
    requires i < Count(t) && Count(t) > 1
    ensures Reps(DeleteHere(t, i)) == Reps(t)[..i] + Reps(t)[i + 1..]
  {
    hide Reps;
    var Node(d, l, r) := t;
    NodeReps(t);
    if i < Count(l) {
      CutLeft(Reps(l), Reps(r), i, i + 1);
      if Count(l) > 1 {
        DeleteReps(l, i);
        NodeReps(DeleteHere(t, i));
      } else {
        OneLeft(Reps(l), i);
      }
    } else {
      CutRight(Reps(l), Reps(r), i, i + 1);
      if Count(r) > 1 {
        DeleteReps(r, i - Count(l));
        NodeReps(DeleteHere(t, i));
      } else {
        OneLeft(Reps(r), i - Count(l));
      }
    }
  }

  lemma NodeReps(t: Tree)
    requires t.Node?
    ensures Reps(t) == Reps(t.left) + Reps(t.right)
  {
  }

  /** The diff that disappears: it borders the slot, and in a rising page it is the larger
      of the slot's two neighbours. */
  function DeleteDiff(t: Tree, i: nat): (n: nat)
    requires i < Count(t) && Count(t) > 1
    ensures n < Count(t) - 1 && (n == i || n + 1 == i)
  {
    var Node(d, l, r) := t;
    if i < Count(l) then
      if Count(l) == 1 then 0 else DeleteDiff(l, i)
    else
      if Count(r) == 1 then Count(l) - 1 else Count(l) + DeleteDiff(r, i - Count(l))
  }

  lemma {:induction false} DeleteDiffAt(t: Tree, i: nat, j: nat)
    requires i < Count(t) && Count(t) > 1 && j < Count(t) - 2
    ensures Diffs(DeleteHere(t, i))[j] == Diffs(t)[if j < DeleteDiff(t, i) then j else j + 1]
  {
    hide Diffs;
    var Node(d, l, r) := t;
    NodeDiff(t, j);
    NodeDiff(t, j + 1);
    if i < Count(l) {
      if Count(l) > 1 {
        NodeDiff(DeleteHere(t, i), j);
        if j < Count(l) - 2 {
          DeleteDiffAt(l, i, j);
        }
      }
    } else if Count(r) > 1 {
      NodeDiff(DeleteHere(t, i), j);
      if j >= Count(l) {
        DeleteDiffAt(r, i - Count(l), j - Count(l));
      }
    }
  }

  lemma DeleteDiffs(t: Tree, i: nat)
    requires i < Count(t) && Count(t) > 1
    ensures Diffs(DeleteHere(t, i)) == Diffs(t)[..DeleteDiff(t, i)] + Diffs(t)[DeleteDiff(t, i) + 1..]
  {
    hide Diffs, DeleteHere;
    var a, b := Diffs(DeleteHere(t, i)), Diffs(t)[..DeleteDiff(t, i)] + Diffs(t)[DeleteDiff(t, i) + 1..];
    forall j | 0 <= j < |a| ensures a[j] == b[j] {
      DeleteDiffAt(t, i, j);
    }
    assert |a| == |b|;
  }

  // ------------------------------------------------------------- direct pairs

  /** The node between slots i and i + 1 has just these two slots below it. */
  predicate DirectPair(t: Tree, i: nat)
    requires i < Count(t) - 1
  {
    if i < Count(t.left) - 1 then DirectPair(t.left, i)
    else if i == Count(t.left) - 1 then Count(t.left) == 1 && Count(t.right) == 1
    else DirectPair(t.right, i - Count(t.left))
  }

  // ---------------------------------------------------------- walking the nodes

  /** A node of the page: its slots [leafL, leafR), the diff it holds and where. */
  datatype NodeInfo = NodeInfo(leafL: nat, leafR: nat, mid: nat, diff: nat)

  /** The nodes of the page in preorder. */
  ghost function Nodes(t: Tree, leaf: nat): (s: seq<NodeInfo>)
    ensures |s| == Count(t) - 1
    decreases t
  {
    match t
    case Node(d, l, r) =>
      [NodeInfo(leaf, leaf + Count(t), leaf + Count(l) - 1, d)] + Nodes(l, leaf) + Nodes(r, leaf + Count(l))
    case _ => []
  }

  /** Writes every node's diff to its place. */
  ghost function Fill(out: seq<nat>, nodes: seq<NodeInfo>): (r: seq<nat>)
    ensures |r| == |out|
    decreases |nodes|
  {
    if nodes == [] then out
    else Fill(if nodes[0].mid < |out| then out[nodes[0].mid := nodes[0].diff] else out, nodes[1..])
  }

  lemma {:induction false} FillConcat(out: seq<nat>, a: seq<NodeInfo>, b: seq<NodeInfo>)
    ensures Fill(out, a + b) == Fill(Fill(out, a), b)
    decreases |a|
  {
    if a == [] {
      assert a + b == b;
    } else {
      assert (a + b)[1..] == a[1..] + b;
      FillConcat(if a[0].mid < |out| then out[a[0].mid := a[0].diff] else out, a[1..], b);
    }
  }

  /** Writing all nodes of a subtree writes its diffs, in slot order, and nothing else. */
  lemma {:induction false} FillNodes(t: Tree, leaf: nat, out: seq<nat>, j: nat)
    requires leaf + Count(t) - 1 <= |out| && j < |out|
    ensures Fill(out, Nodes(t, leaf))[j]
      == if leaf <= j < leaf + Count(t) - 1 then Diffs(t)[j - leaf] else out[j]
    decreases t
  {
    match t
    case Node(d, l, r) =>
      hide Diffs, Fill, Nodes;
      var out1 := out[leaf + Count(l) - 1 := d];
      FillNode(t, leaf, out);
      FillNodes(r, leaf + Count(l), Fill(out1, Nodes(l, leaf)), j);
      FillNodes(l, leaf, out1, j);
      if leaf <= j < leaf + Count(t) - 1 {
        NodeDiff(t, j - leaf);
      }
    case _ =>
  }

  lemma FillNode(t: Tree, leaf: nat, out: seq<nat>)
    requires t.Node? && leaf + Count(t) - 1 <= |out|
    ensures var out1 := out[leaf + Count(t.left) - 1 := t.diff];
      Fill(out, Nodes(t, leaf)) == Fill(Fill(out1, Nodes(t.left, leaf)), Nodes(t.right, leaf + Count(t.left)))
  {
    hide Fill, Nodes;
    var head := NodeInfo(leaf, leaf + Count(t), leaf + Count(t.left) - 1, t.diff);
    NodesNode(t, leaf);
    FillOne(out, head);
    FillConcat(out, [head], Nodes(t.left, leaf));
    FillConcat(out, [head] + Nodes(t.left, leaf), Nodes(t.right, leaf + Count(t.left)));
  }

  lemma NodesNode(t: Tree, leaf: nat)
    requires t.Node?
    ensures Nodes(t, leaf) == [NodeInfo(leaf, leaf + Count(t), leaf + Count(t.left) - 1, t.diff)]
      + Nodes(t.left, leaf) + Nodes(t.right, leaf + Count(t.left))
  {
  }

  lemma FillOne(out: seq<nat>, info: NodeInfo)
    requires info.mid < |out|
    ensures Fill(out, [info]) == out[info.mid := info.diff]
  {
    assert [info][1..] == [];
  }

  lemma FillAll(t: Tree, out: seq<nat>)
    requires |out| == Count(t) - 1
    ensures Fill(out, Nodes(t, 0)) == Diffs(t)
  {
    hide Fill, Nodes, Diffs;
    var a := Fill(out, Nodes(t, 0));
    forall j | 0 <= j < |a| ensures a[j] == Diffs(t)[j] {
      FillNodes(t, 0, out, j);
    }
  }

  /** Each diff place belongs to one node, and the node is a direct pair just when it spans
      the two slots around its place. */
  lemma {:induction false} NodesDirect(t: Tree, leaf: nat, info: NodeInfo)
    requires info in Nodes(t, leaf)
    ensures leaf <= info.mid < leaf + Count(t) - 1
    ensures DirectPair(t, info.mid - leaf) <==> info.leafL == info.mid && info.leafR == info.mid + 2
    decreases t
  {
    var Node(d, l, r) := t;
    if info in Nodes(l, leaf) {
      NodesDirect(l, leaf, info);
    } else if info in Nodes(r, leaf + Count(l)) {
      NodesDirect(r, leaf + Count(l), info);
    }
  }

  lemma {:induction false} NodesCover(t: Tree, leaf: nat, mid: nat) returns (info: NodeInfo)
    requires leaf <= mid < leaf + Count(t) - 1
    ensures info in Nodes(t, leaf) && info.mid == mid
    decreases t
  {
    var Node(d, l, r) := t;
    if mid < leaf + Count(l) - 1 {
      info := NodesCover(l, leaf, mid);
    } else if mid == leaf + Count(l) - 1 {
      info := Nodes(t, leaf)[0];
    } else {
      info := NodesCover(r, leaf + Count(l), mid);
    }
  }
}
