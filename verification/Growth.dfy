/** How the pages of an index grow: which page takes a new record, and what becomes of a page that
    is full (InsertAtPath of index.h), said of the tree alone. */
module Growth {
  import opened Wrappers
  import opened Keys
  import opened Patricia
  import opened PageTree
  import opened Cartesian
  import opened NodePages
  import opened Paging
  import opened Alignment
  import opened Split
  import opened Search
  import opened Sequences

  /** The slots that lead to the page which takes a record that leaves the tree at diff: the first on
      the way of the key that tests a later bit there, or else the last. */
  ghost function PathTo(w: Tree, key: Key, diff: nat): (path: seq<nat>)
    requires w.Sub?
    ensures Leads(w, path)
    decreases w
  {
    var i := Find(w.body, key);
    var leaf := LeafAt(w.body, i);
    if StopsHere(w.body, key, diff) || !leaf.Sub? then []
    else
      LeafSmaller(w.body, i);
      var rest := PathTo(leaf, key, diff);
      assert ([i] + rest)[1..] == rest;
      [i] + rest
  }

  /** The page above the one at the end of the path. */
  ghost function PageAbove(w: Tree, path: seq<nat>): (up: Tree)
    requires Leads(w, path) && path != []
    ensures var n := |path| - 1;
      && Leads(w, path[..n]) && up == SubAt(w, path[..n]) && up.Sub?
      && path[n] < Count(up.body) && LeafAt(up.body, path[n]) == SubAt(w, path)
  {
    var n := |path| - 1;
    assert path == path[..n] + [path[n]];
    GraftUp(w, path[..n], path[n], SubAt(w, path));
    SubAt(w, path[..n])
  }

  /** The two halves of the overfull page b, as the page above up sees them. */
  ghost function Promoted(up: Tree, slot: nat, b: Tree, sibling: nat): (r: Tree)
    requires up.Sub? && slot < Count(up.body) && LeafAt(up.body, slot).Sub? && b.Node?
    ensures r.Sub? && r.id == up.id
  {
    var child := LeafAt(up.body, slot).id;
    Sub(up.id, SetLeaf(up.body, slot, Node(b.diff, Sub(child, b.left), Sub(sibling, b.right))))
  }

  /** The slot is an end of its page, and so are all slots above it. */
  ghost predicate AtEnd(w: Tree, path: seq<nat>, slot: nat)
    requires Leads(w, path)
  {
    || (slot == 0 && forall i :: 0 <= i < |path| ==> path[i] == 0)
    || (slot == Count(SubAt(w, path).body) && forall i :: 0 <= i < |path| ==> LastSlot(w, path, i))
  }

  ghost predicate LastSlot(w: Tree, path: seq<nat>, i: nat)
    requires i < |path|
  {
    Leads(w, path[..i]) && path[i] + 1 == Count(SubAt(w, path[..i]).body)
  }

  /** What the overfull page b moves out. */
  ghost predicate MovesOut(b: Tree, slot: int, r: SplitRange) {
    && Candidate(r, Count(b)) && IsPart(b, r.start, r.count)
    && Chooses(Ranges(Diffs(b), 0, |Diffs(b)|), Count(b), slot, r)
  }

  ghost function MovedOut(b: Tree, r: SplitRange, child: nat): Tree
    requires IsPart(b, r.start, r.count)
  {
    Swap(b, r.start, r.count, Sub(child, Part(b, r.start, r.count)))
  }

  /** The pages after a record entered the page at path. While that has room, it holds the record. A
      full page below one with room is cut at its root, and the page above holds both halves side
      by side. Any other full page moves a part out into a new page below it. */
  ghost predicate Enlarged(w: Tree, path: seq<nat>, key: Key, diff: nat, pos: Position, child: nat, w2: Tree) {
    && Leads(w, path)
    && var s := SubAt(w, path);
       var b := InsertHere(s.body, key, diff, pos);
       if Count(s.body) < MAX_NODE_REPS then w2 == Graft(w, path, Sub(s.id, b))
       else if path != [] && Count(PageAbove(w, path).body) < MAX_NODE_REPS then
         b.Node? && w2 == Graft(w, path[..|path| - 1], Promoted(PageAbove(w, path), path[|path| - 1], b, child))
       else
         var slot := InsertSlot(s.body, key, diff);
         exists r ::
           && MovesOut(b, if AtEnd(w, path, slot) then slot else -1, r)
           && w2 == Graft(w, path, Sub(s.id, MovedOut(b, r, child)))
  }

  /** What putting a key does to the pages of an index: a stored key gets its new position where it
      is, any other enters the page that its first difference to the record reached leads to. */
  ghost predicate PutPages(tree: Option<Tree>, k: Records, key: Key, pos: Position, child: nat, tree2: Option<Tree>) {
    match tree
    case None => tree2 == Some(Sub(0, Rec(pos)))
    case Some(w) =>
      && w.Sub? && Best(w, key) in k && tree2.Some?
      && if k[Best(w, key)] == key then tree2.value == Replace(w, key, pos)
         else exists diff ::
           FirstDiff(key, k[Best(w, key)], diff)
           && Enlarged(w, PathTo(w, key, diff), key, diff, pos, child, tree2.value)
  }

  // ------------------------------------------------------------------- sizes

  /** How many pages there are at most on the way to a record. */
  ghost function Levels(t: Tree): nat {
    match t
    case Rec(_) => 0
    case Sub(_, b) => 1 + Levels(b)
    case Node(_, l, r) => if Levels(l) > Levels(r) then Levels(l) else Levels(r)
  }

  lemma {:induction false} LevelsSwap(t: Tree, start: nat, count: nat, s: Tree)
    requires IsPart(t, start, count)
    ensures Levels(Swap(t, start, count, s)) <= if Levels(s) > Levels(t) then Levels(s) else Levels(t)
    ensures Levels(Part(t, start, count)) <= Levels(t)
  {
    hide IsPart;
    if !(start == 0 && count == Count(t)) {
      var left := PartStep(t, start, count);
      if left {
        LevelsSwap(t.left, start, count, s);
      } else {
        LevelsSwap(t.right, start - Count(t.left), count, s);
      }
    }
  }

  lemma LevelsSet(t: Tree, i: nat, s: Tree)
    requires i < Count(t)
    ensures Levels(SetLeaf(t, i, s)) <= if Levels(s) > Levels(t) then Levels(s) else Levels(t)
    ensures Levels(LeafAt(t, i)) <= Levels(t)
  {
    LeafPart(t, i);
    LevelsSwap(t, i, 1, s);
    assert Swap(t, i, 1, s) == SetLeaf(t, i, s);
  }

  /** A page exchanged for one that is at most n levels deeper. */
  lemma {:induction false} LevelsGraft(w: Tree, path: seq<nat>, s: Tree, n: nat)
    requires Leads(w, path) && s.Sub? && s.id == SubAt(w, path).id
    requires Levels(s) <= Levels(SubAt(w, path)) + n
    ensures Levels(Graft(w, path, s)) <= Levels(w) + n
    decreases |path|
  {
    if path != [] {
      var leaf := LeafAt(w.body, path[0]);
      LevelsGraft(leaf, path[1..], s, n);
      LevelsSet(w.body, path[0], Graft(leaf, path[1..], s));
    }
  }

  lemma {:induction false} LevelsInsert(t: Tree, key: Key, diff: nat, pos: Position)
    ensures Levels(InsertHere(t, key, diff, pos)) == Levels(t)
  {
    match t
    case Node(d, l, r) =>
      if diff >= d {
        LevelsInsert(if !Bit(key, d) then l else r, key, diff, pos);
      }
    case _ =>
  }

  lemma {:induction false} GraftAt(w: Tree, path: seq<nat>, s: Tree)
    requires Leads(w, path) && s.Sub? && s.id == SubAt(w, path).id
    ensures Leads(Graft(w, path, s), path) && SubAt(Graft(w, path, s), path) == s
    decreases |path|
  {
    if path != [] {
      var leaf := LeafAt(w.body, path[0]);
      GraftAt(leaf, path[1..], s);
      LeafSet(w.body, path[0], Graft(leaf, path[1..], s));
    }
  }

  /** A slot refilled by two pages: they stand side by side, and all others keep their order. */
  lemma {:induction false} PairSet(t: Tree, i: nat, d: nat, a: Tree, b: Tree)
    requires i < Count(t) && a.Sub? && b.Sub?
    ensures var t2 := SetLeaf(t, i, Node(d, a, b));
      Count(t2) == Count(t) + 1 && LeafAt(t2, i) == a && LeafAt(t2, i + 1) == b
    decreases t
  {
    match t
    case Node(_, l, r) =>
      if i < Count(l) {
        PairSet(l, i, d, a, b);
      } else {
        PairSet(r, i - Count(l), d, a, b);
      }
    case _ =>
  }

  /** Where a page of rising bits is cut: at its only least diff. */
  lemma CutAtLeast(b: Tree, k: Records)
    requires Valid(b, k) && b.Node?
    ensures var c := Count(b.left) - 1;
      c < |Diffs(b)| && Diffs(b)[c] == b.diff && forall j :: 0 <= j < |Diffs(b)| && j != c ==> Diffs(b)[j] > b.diff
  {
    ValidRising(b, k);
    DiffsNode(b);
    hide Valid, Diffs;
    var l, r := Diffs(b.left), Diffs(b.right);
    forall j | 0 <= j < |Diffs(b)| && j != Count(b.left) - 1 ensures Diffs(b)[j] > b.diff {
      MiddleIndex(l, b.diff, r, j);
      assert Diffs(b)[j] in l || Diffs(b)[j] in r;
    }
    MiddleIndex(l, b.diff, r, Count(b.left) - 1);
  }

  /** A full page below one with room: the page above gets one slot more, for the second of the two
      halves, which stand side by side, cut at the least diff of the overfull page; and no page is
      deeper than before. */
  lemma PromotionShape(w: Tree, path: seq<nat>, key: Key, diff: nat, pos: Position, child: nat, w2: Tree, k: Records)
    requires Enlarged(w, path, key, diff, pos, child, w2) && path != []
    requires Count(SubAt(w, path).body) >= MAX_NODE_REPS && Count(PageAbove(w, path).body) < MAX_NODE_REPS
    requires Valid(InsertHere(SubAt(w, path).body, key, diff, pos), k)
    ensures var n := |path| - 1;
      && Leads(w2, path[..n])
      && var up2, i, b := SubAt(w2, path[..n]), path[n], InsertHere(SubAt(w, path).body, key, diff, pos);
      && up2.id == PageAbove(w, path).id && Count(up2.body) == Count(PageAbove(w, path).body) + 1
      && b.Node? && LeafAt(up2.body, i) == Sub(SubAt(w, path).id, b.left)
      && LeafAt(up2.body, i + 1) == Sub(child, b.right)
      && Reps(b.left) + Reps(b.right) == Reps(b) && Diffs(b.left) + [b.diff] + Diffs(b.right) == Diffs(b)
      && forall j :: 0 <= j < |Diffs(b)| && j != Count(b.left) - 1 ==> Diffs(b)[j] > b.diff
    ensures Levels(w2) <= Levels(w)
  {
    hide *;
    var b := EnlargedUp(w, path, key, diff, pos, child, w2);
    var n, up, s := |path| - 1, PageAbove(w, path), SubAt(w, path);
    var up2 := Promoted(up, path[n], b, child);
    GraftAt(w, path[..n], up2);
    PromotedIs(up, path[n], b, child);
    PairSet(up.body, path[n], b.diff, Sub(s.id, b.left), Sub(child, b.right));
    NodeReps(b);
    DiffsNode(b);
    CutAtLeast(b, k);
    LevelsInsert(s.body, key, diff, pos);
    PairLevels(up, path[n], s, b, child);
    LevelsGraft(w, path[..n], up2, 0);
  }

  lemma EnlargedUp(w: Tree, path: seq<nat>, key: Key, diff: nat, pos: Position, child: nat, w2: Tree)
    returns (b: Tree)
    requires Enlarged(w, path, key, diff, pos, child, w2) && path != []
    requires Count(SubAt(w, path).body) >= MAX_NODE_REPS && Count(PageAbove(w, path).body) < MAX_NODE_REPS
    ensures Leads(w, path) && b.Node? && b == InsertHere(SubAt(w, path).body, key, diff, pos)
    ensures PageAbove(w, path).Sub? && SubAt(w, path).Sub?
    ensures path[|path| - 1] < Count(PageAbove(w, path).body)
    ensures LeafAt(PageAbove(w, path).body, path[|path| - 1]) == SubAt(w, path)
    ensures Leads(w, path[..|path| - 1]) && PageAbove(w, path) == SubAt(w, path[..|path| - 1])
    ensures w2 == Graft(w, path[..|path| - 1], Promoted(PageAbove(w, path), path[|path| - 1], b, child))
  {
    b := InsertHere(SubAt(w, path).body, key, diff, pos);
  }

  lemma PromotedIs(up: Tree, slot: nat, b: Tree, child: nat)
    requires up.Sub? && slot < Count(up.body) && LeafAt(up.body, slot).Sub? && b.Node?
    ensures Promoted(up, slot, b, child)
      == Sub(up.id, SetLeaf(up.body, slot, Node(b.diff, Sub(LeafAt(up.body, slot).id, b.left), Sub(child, b.right))))
  {
  }

  lemma PairLevels(up: Tree, slot: nat, s: Tree, b: Tree, child: nat)
    requires up.Sub? && slot < Count(up.body) && LeafAt(up.body, slot) == s && s.Sub? && b.Node?
    requires Levels(b) == Levels(s.body)
    ensures Levels(Promoted(up, slot, b, child)) <= Levels(up)
  {
    LevelsSet(up.body, slot, Node(b.diff, Sub(s.id, b.left), Sub(child, b.right)));
  }

  /** Pages get deeper by at most one, and only when the page that takes the record and the one
      above it are full. */
  lemma EnlargedLevels(w: Tree, path: seq<nat>, key: Key, diff: nat, pos: Position, child: nat, w2: Tree)
    requires Enlarged(w, path, key, diff, pos, child, w2)
    ensures Levels(w2) <= Levels(w) + 1
    ensures Levels(w2) > Levels(w) ==>
      && Count(SubAt(w, path).body) >= MAX_NODE_REPS
      && (path != [] ==> Count(PageAbove(w, path).body) >= MAX_NODE_REPS)
  {
    var s := SubAt(w, path);
    var b := InsertHere(s.body, key, diff, pos);
    LevelsInsert(s.body, key, diff, pos);
    if Count(s.body) < MAX_NODE_REPS {
      LevelsGraft(w, path, Sub(s.id, b), 0);
    } else if path != [] && Count(PageAbove(w, path).body) < MAX_NODE_REPS {
      var n := |path| - 1;
      PairLevels(PageAbove(w, path), path[n], s, b, child);
      LevelsGraft(w, path[..n], Promoted(PageAbove(w, path), path[n], b, child), 0);
    } else {
      var slot := InsertSlot(s.body, key, diff);
      var r :| MovesOut(b, if AtEnd(w, path, slot) then slot else -1, r)
        && w2 == Graft(w, path, Sub(s.id, MovedOut(b, r, child)));
      LevelsSwap(b, r.start, r.count, Sub(child, Part(b, r.start, r.count)));
      LevelsGraft(w, path, Sub(s.id, MovedOut(b, r, child)), 1);
    }
  }

  /** A full page that is split where it is keeps all slots but those of the part it moves out, and
      holds that as a child page; unless the record came in at an end of the index, the part has 114
      to 226 slots. */
  lemma SplitShape(w: Tree, path: seq<nat>, key: Key, diff: nat, pos: Position, child: nat, w2: Tree)
    returns (r: SplitRange)
    requires Enlarged(w, path, key, diff, pos, child, w2)
    requires Count(SubAt(w, path).body) == MAX_NODE_REPS
    requires path != [] ==> Count(PageAbove(w, path).body) >= MAX_NODE_REPS
    ensures Leads(w2, path) && 2 <= r.count <= 338
    ensures var b, body2 := InsertHere(SubAt(w, path).body, key, diff, pos), SubAt(w2, path).body;
      && IsPart(b, r.start, r.count) && Count(body2) == MAX_NODE_REPS + 2 - r.count
      && r.start < Count(body2) && LeafAt(body2, r.start) == Sub(child, Part(b, r.start, r.count))
    ensures !AtEnd(w, path, InsertSlot(SubAt(w, path).body, key, diff)) ==> 114 <= r.count <= 226
  {
    hide Ranges, Chooses, AtEnd, InsertHere, InsertSlot, Part, Swap, IsPart;
    var s := SubAt(w, path);
    var b := InsertHere(s.body, key, diff, pos);
    var slot := InsertSlot(s.body, key, diff);
    r :| MovesOut(b, if AtEnd(w, path, slot) then slot else -1, r)
      && w2 == Graft(w, path, Sub(s.id, MovedOut(b, r, child)));
    GraftAt(w, path, Sub(s.id, MovedOut(b, r, child)));
    SwapLeaf(b, r.start, r.count, Sub(child, Part(b, r.start, r.count)));
    if !AtEnd(w, path, slot) {
      ChosenBalanced(Diffs(b), -1, r);
      PageBalance(r.count, Count(b));
    }
  }
}
