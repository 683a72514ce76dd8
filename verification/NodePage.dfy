/** A page of the index and the algorithms that run over its packed arrays (node_page.h). */
module NodePages {
  import opened Keys
  import opened Patricia
  import opened PageTree
  import opened Cartesian
  import opened Sequences

  const MAX_NODE_REPS: nat := 339

  /** What a page stores, without the unused tails of its arrays. */
  datatype PageView = PageView(reps: seq<Rep>, routes: seq<Route>, first: Position, last: Position)

  /** The page that represents body t. */
  ghost function PageOf(t: Tree): PageView {
    PageView(Reps(t), Routes(t), First(t), Last(t))
  }

  ghost const EMPTY_PAGE := PageView([], [], 0, 0)

  class NodePage {
    var size: nat
    var firstPos: Position
    var lastPos: Position
    const routes: array<Route>
    const reps: array<Rep>

    constructor ()
      ensures Sized() && View() == EMPTY_PAGE && fresh(routes) && fresh(reps)
    {
      size, firstPos, lastPos := 0, 0, 0;
      routes := new Route[MAX_NODE_REPS - 1](_ => Route(0, 0));
      reps := new Rep[MAX_NODE_REPS](_ => Record(0));
    }

    ghost predicate Sized()
      reads this
    {
      size <= MAX_NODE_REPS && routes.Length == MAX_NODE_REPS - 1 && reps.Length == MAX_NODE_REPS
    }

    ghost function View(): PageView
      reads this, routes, reps
      requires Sized()
    {
      PageView(reps[..size], if size == 0 then [] else routes[..size - 1], firstPos, lastPos)
    }

    /** The arrays spell the page body t. */
    ghost predicate Holds(t: Tree)
      reads this, routes, reps
    {
      && Sized() && size == Count(t)
      && reps[..size] == Reps(t)
      && routes[..size - 1] == Routes(t)
    }

    // ------------------------------------------------------------- searching

    /** What the next route says about the subtree the walk stands on. */
    lemma WalkStep(t: Tree, s: Tree, routeIdx: nat, leafBase: nat)
      requires Holds(t) && At(t, s, routeIdx, leafBase) && Count(s) > 1
      ensures s.Node? && Count(s) == Count(s.left) + Count(s.right)
      ensures routeIdx < size - 1 < routes.Length + 1
      ensures routes[routeIdx] == Route(s.diff, Count(s.left))
      ensures At(t, s.left, routeIdx + 1, leafBase)
      ensures At(t, s.right, routeIdx + Count(s.left), leafBase + Count(s.left))
    {
      hide At;
      AtHead(t, s, routeIdx, leafBase);
      AtLeft(t, s, routeIdx, leafBase);
      AtRight(t, s, routeIdx, leafBase);
      assert routes[routeIdx] == routes[..size - 1][routeIdx];
    }

    lemma WalkStart(t: Tree)
      requires Holds(t)
      ensures At(t, t, 0, 0) && 1 <= size == Count(t) <= MAX_NODE_REPS
    {
    }

    /** The slot that the bits of the key lead to. */
    method LookupRouteOnly(key: Key, ghost t: Tree) returns (leaf: nat, ok: bool)
      requires size > 0 ==> Holds(t)
      ensures ok <==> size > 0
      ensures ok ==> leaf == Find(t, key)
    {
      hide *;
      if size == 0 {
        return 0, false;
      }
      var routeIdx: nat, leafBase: nat, leafCount: nat := 0, 0, size;
      ghost var s := t;
      WalkStart(t);
      while leafCount > 1
        invariant At(t, s, routeIdx, leafBase) && leafCount == Count(s)
        invariant leafBase + Find(s, key) == Find(t, key)
      {
        WalkStep(t, s, routeIdx, leafBase);
        FindNode(s, key);
        var route := routes[routeIdx];
        var leftCount := route.leftCount;
        if !Bit(key, route.diff) {
          routeIdx := routeIdx + 1;
          leafCount := leftCount;
          s := s.left;
        } else {
          routeIdx := routeIdx + leftCount;
          leafBase := leafBase + leftCount;
          leafCount := leafCount - leftCount;
          s := s.right;
        }
      }
      FindOne(s, key);
      return leafBase, true;
    }

    /** The insertion slot, when a route of this page on the path of key tests a later bit. */
    method InsertSlotAbovePath(key: Key, diff: nat, wantLeaf: nat, ghost t: Tree)
      returns (slot: nat, found: bool)
      requires Holds(t) && wantLeaf == Find(t, key)
      ensures found <==> StopsHere(t, key, diff)
      ensures slot == if found then InsertSlot(t, key, diff) else 0
    {
      hide *;
      var routeIdx: nat, leafBase: nat, leafCount: nat := 0, 0, size;
      ghost var s := t;
      WalkStart(t);
      while leafCount > 1
        invariant At(t, s, routeIdx, leafBase) && leafCount == Count(s)
        invariant leafBase + Find(s, key) == Find(t, key)
        invariant StopsHere(s, key, diff) == StopsHere(t, key, diff)
        invariant leafBase + InsertSlot(s, key, diff) == InsertSlot(t, key, diff)
      {
        WalkStep(t, s, routeIdx, leafBase);
        FindNode(s, key);
        StopsNode(s, key, diff);
        var route := routes[routeIdx];
        var leftCount := route.leftCount;
        assert 0 < leftCount < leafCount;
        if diff < route.diff {
          GetDiffBitIsBit(key, diff);
          if !GetDiffBit(key, diff) {
            return leafBase, true;
          }
          return leafBase + leafCount, true;
        }
        if !Bit(key, route.diff) {
          routeIdx := routeIdx + 1;
          leafCount := leftCount;
          s := s.left;
        } else {
          routeIdx := routeIdx + leftCount;
          leafBase := leafBase + leftCount;
          leafCount := leafCount - leftCount;
          s := s.right;
        }
      }
      FindOne(s, key);
      assert leafBase == wantLeaf;
      return 0, false;
    }

    // ------------------------------------------------------------- inserting

    /** Shifts the routes up from routeIdx, writes the new one, and adds one to the left
        counts of the listed ancestors. */
    method InsertRouteAt(routeIdx: nat, diff: nat, leftCount: nat, leftAncestors: seq<nat>)
      requires Sized() && routeIdx < size < MAX_NODE_REPS
      requires Below(leftAncestors, routeIdx)
      modifies routes
      ensures forall i :: 0 <= i < size ==>
        routes[i] == RouteInserted(old(routes[..]), routeIdx, Route(diff, leftCount), leftAncestors, i)
    {
      var i := size - 1;
      while i > routeIdx
        invariant routeIdx <= i <= size - 1
        invariant forall j :: 0 <= j <= i && j < size - 1 ==> routes[j] == old(routes[j])
        invariant forall j :: i < j < size ==> routes[j] == old(routes[j - 1])
      {
        routes[i] := routes[i - 1];
        i := i - 1;
      }
      routes[routeIdx] := Route(diff, leftCount);
      label shifted:
      var k := 0;
      while k < |leftAncestors|
        invariant 0 <= k <= |leftAncestors|
        invariant forall j :: routeIdx <= j < size ==> routes[j] == old@shifted(routes[j])
        invariant forall j :: 0 <= j < routeIdx ==>
          routes[j] == if j in leftAncestors[..k] then IncLeft(old(routes[j])) else old(routes[j])
      {
        var a := leftAncestors[k];
        assert a !in leftAncestors[..k];
        routes[a] := IncLeft(routes[a]);
        k := k + 1;
      }
      assert leftAncestors[..|leftAncestors|] == leftAncestors;
    }

    /** The in-place insertion leaves exactly the routes of the page with the new record. */
    method InsertRoute(slot: nat, key: Key, diff: nat, ghost t: Tree, ghost pos: Position)
      requires Holds(t) && size < MAX_NODE_REPS && slot == InsertSlot(t, key, diff)
      modifies routes
      ensures routes[..size] == Routes(InsertHere(t, key, diff, pos))
    {
      hide *;
      var leftAncestors: seq<nat> := [];
      var routeIdx: nat, leafBase: nat, leafCount: nat := 0, 0, size;
      ghost var s, before := t, routes[..];
      WalkStart(t);
      InsertWalkStart(t, key, diff);
      while leafCount > 1
        invariant Holds(t) && routes[..] == before && leafCount == Count(s)
        invariant InsertWalk(t, key, diff, s, routeIdx, leafBase, leftAncestors)
      {
        InsertWalkStep(t, key, diff, s, routeIdx, leafBase, leftAncestors);
        WalkStep(t, s, routeIdx, leafBase);
        var route := routes[routeIdx];
        assert 0 < route.leftCount < leafCount;
        if diff < route.diff {
          break;
        }
        if !Bit(key, route.diff) {
          leftAncestors := leftAncestors + [routeIdx];
          routeIdx := routeIdx + 1;
          leafCount := route.leftCount;
          s := s.left;
        } else {
          routeIdx := routeIdx + route.leftCount;
          leafBase := leafBase + route.leftCount;
          leafCount := leafCount - route.leftCount;
          s := s.right;
        }
      }
      InsertWalkEnd(t, key, diff, s, routeIdx, leafBase, leftAncestors);
      GetDiffBitIsBit(key, diff);
      var leftCount, expected := 1, leafBase;
      if GetDiffBit(key, diff) {
        leftCount := leafCount;
        expected := leafBase + leafCount;
      }
      assert slot == expected;
      HeldRoutes(t);
      InsertRouteAt(routeIdx, diff, leftCount, leftAncestors);
      RoutesInserted(t, key, diff, pos, before, leftAncestors, routes[..size]);
    }

    // -------------------------------------------------------------- deleting

    /** Shifts the routes down over routeIdx and takes one off the left counts of the
        listed ancestors. */
    method DeleteRouteAt(routeIdx: nat, leftAncestors: seq<nat>)
      requires Sized() && routeIdx < size - 1
      requires Below(leftAncestors, routeIdx)
      requires forall k :: 0 <= k < |leftAncestors| ==> routes[leftAncestors[k]].leftCount > 0
      modifies routes
      ensures forall i :: 0 <= i < size - 2 ==>
        routes[i] == RouteDeleted(old(routes[..]), routeIdx, leftAncestors, i)
    {
      var i := routeIdx;
      while i < size - 2
        invariant routeIdx <= i <= size - 2
        invariant forall j :: 0 <= j < routeIdx ==> routes[j] == old(routes[j])
        invariant forall j :: routeIdx <= j < i ==> routes[j] == old(routes[j + 1])
        invariant forall j :: i <= j < size - 1 ==> routes[j] == old(routes[j])
      {
        routes[i] := routes[i + 1];
        i := i + 1;
      }
      routes[size - 2] := Route(0, 0);
      label shifted:
      var k := 0;
      while k < |leftAncestors|
        invariant 0 <= k <= |leftAncestors|
        invariant forall j :: routeIdx <= j < size - 2 ==> routes[j] == old@shifted(routes[j])
        invariant forall j :: 0 <= j < routeIdx ==>
          routes[j] == if j in leftAncestors[..k] then DecLeft(old(routes[j])) else old(routes[j])
      {
        var a := leftAncestors[k];
        assert a !in leftAncestors[..k];
        routes[a] := DecLeft(routes[a]);
        k := k + 1;
      }
      assert leftAncestors[..|leftAncestors|] == leftAncestors;
    }

    /** The in-place deletion leaves exactly the routes of the page without the slot. Only
        left counts above one are taken down: the route whose left side is just the slot
        is the one that goes. */
    method DeleteRoute(slot: nat, ghost t: Tree)
      requires Holds(t) && slot < size && size > 1
      modifies routes
      ensures routes[..size - 2] == Routes(DeleteHere(t, slot))
    {
      hide *;
      var leftAncestors: seq<nat> := [];
      var routeIdx: nat, leafBase: nat, leafCount: nat := 0, 0, size;
      var parentIdx: nat := 0;
      ghost var s, before := t, routes[..];
      WalkStart(t);
      DeleteWalkStart(t, slot);
      while leafCount > 1
        invariant Holds(t) && routes[..] == before && leafCount == Count(s)
        invariant DeleteWalk(t, slot, s, routeIdx, leafBase, parentIdx, leftAncestors)
      {
        DeleteWalkStep(t, slot, s, routeIdx, leafBase, parentIdx, leftAncestors);
        WalkStep(t, s, routeIdx, leafBase);
        var route := routes[routeIdx];
        assert 0 < route.leftCount < leafCount;
        parentIdx := routeIdx;
        if slot < leafBase + route.leftCount {
          if route.leftCount > 1 {
            leftAncestors := leftAncestors + [routeIdx];
          }
          routeIdx := routeIdx + 1;
          leafCount := route.leftCount;
          s := s.left;
        } else {
          routeIdx := routeIdx + route.leftCount;
          leafBase := leafBase + route.leftCount;
          leafCount := leafCount - route.leftCount;
          s := s.right;
        }
      }
      DeleteWalkEnd(t, slot, s, routeIdx, leafBase, parentIdx, leftAncestors);
      assert leafBase == slot;
      HeldRoutes(t);
      CountsPositive(t, slot, before, leftAncestors);
      DeleteRouteAt(parentIdx, leftAncestors);
      RoutesDeleted(t, slot, before, leftAncestors, routes[..size - 2]);
    }

    // ------------------------------------------------------- reading the diffs

    /** The frame stands for a subtree of at least two slots; w are its nodes. */
    ghost predicate Visits(t: Tree, f: RouteFrame, w: seq<NodeInfo>) {
      exists s ::
        && At(t, s, f.node, f.leafL)
        && Count(s) == f.leafR - f.leafL && Count(s) > 1
        && w == Nodes(s, f.leafL)
    }

    ghost function Visitor(t: Tree): (RouteFrame, seq<NodeInfo>) -> bool {
      (f, w) => Visits(t, f, w)
    }

    /** The nodes not visited yet are those of the frames on the stack. */
    ghost predicate Walking(t: Tree, stack: seq<RouteFrame>, pending: seq<seq<NodeInfo>>) {
      Pends(Visitor(t), stack, pending)
    }

    lemma WalkingStart(t: Tree)
      requires Holds(t) && size > 1
      ensures Walking(t, [RouteFrame(0, 0, size)], [Nodes(t, 0)])
      ensures TopFirst([Nodes(t, 0)]) == Nodes(t, 0)
    {
      hide Nodes;
      TopFirstOne(Nodes(t, 0));
      var f := RouteFrame(0, 0, size);
      assert At(t, t, f.node, f.leafL);
      assert Visits(t, f, Nodes(t, 0));
    }

    lemma WalkingStep(t: Tree, stack: seq<RouteFrame>, pending: seq<seq<NodeInfo>>)
      returns (pending2: seq<seq<NodeInfo>>)
      requires Holds(t) && stack != [] && Walking(t, stack, pending)
      ensures var f := stack[|stack| - 1];
        && 0 <= f.node < size - 1 && f.node < routes.Length
        && var mid := f.leafL + routes[f.node].leftCount - 1;
        && f.leafL <= mid < f.leafR - 1 && f.leafR <= size
        && var stack1 := PushIf(mid + 1 < f.leafR - 1, stack[..|stack| - 1],
                                RouteFrame(f.node + routes[f.node].leftCount, mid + 1, f.leafR));
        && var stack2 := PushIf(f.leafL < mid, stack1, RouteFrame(f.node + 1, f.leafL, mid + 1));
        && Walking(t, stack2, pending2)
        && TopFirst(pending) ==
          [NodeInfo(f.leafL, f.leafR, mid, routes[f.node].diff)] + TopFirst(pending2)
        && |stack2| <= |TopFirst(pending2)|
    {
      hide At, Holds, Pends, TopFirst, Visits;
      var top := |stack| - 1;
      var f := stack[top];
      PendsTop(Visitor(t), stack, pending);
      assert Visitor(t)(f, pending[top]);
      var l, r := VisitParts(t, f, pending[top]);
      var mid := f.leafL + routes[f.node].leftCount - 1;
      var rf := RouteFrame(f.node + routes[f.node].leftCount, mid + 1, f.leafR);
      var lf := RouteFrame(f.node + 1, f.leafL, mid + 1);
      assert mid + 1 < f.leafR - 1 ==> Visitor(t)(rf, r);
      assert f.leafL < mid ==> Visitor(t)(lf, l);
      pending2 := PopPush(Visitor(t), stack, pending, mid + 1 < f.leafR - 1, rf, r, f.leafL < mid, lf, l);
      Regroup(NodeInfo(f.leafL, f.leafR, mid, routes[f.node].diff), l, r, TopFirst(pending[..top]));
      var stack2 := PushIf(f.leafL < mid, PushIf(mid + 1 < f.leafR - 1, stack[..top], rf), lf);
      StackFits(t, stack2, pending2);
    }

    /** A visited frame: its own node, then what lies to its left and to its right. */
    lemma VisitParts(t: Tree, f: RouteFrame, w: seq<NodeInfo>) returns (l: seq<NodeInfo>, r: seq<NodeInfo>)
      requires Holds(t) && Visits(t, f, w)
      ensures 0 <= f.node < size - 1 && f.node < routes.Length
      ensures var mid := f.leafL + routes[f.node].leftCount - 1;
        && f.leafL <= mid < f.leafR - 1 && f.leafR <= size
        && w == [NodeInfo(f.leafL, f.leafR, mid, routes[f.node].diff)] + l + r
        && (if mid + 1 < f.leafR - 1 then Visits(t, RouteFrame(f.node + routes[f.node].leftCount, mid + 1, f.leafR), r)
            else r == [])
        && (if f.leafL < mid then Visits(t, RouteFrame(f.node + 1, f.leafL, mid + 1), l) else l == [])
    {
      hide At, Nodes;
      var s :| At(t, s, f.node, f.leafL) && Count(s) == f.leafR - f.leafL && Count(s) > 1
        && w == Nodes(s, f.leafL);
      AtRange(t, s, f.node, f.leafL);
      WalkStep(t, s, f.node, f.leafL);
      NodesNode(s, f.leafL);
      l, r := Nodes(s.left, f.leafL), Nodes(s.right, f.leafL + Count(s.left));
      if Count(s.right) > 1 {
        var rf := RouteFrame(f.node + Count(s.left), f.leafL + Count(s.left), f.leafR);
        assert At(t, s.right, rf.node, rf.leafL);
      }
      if Count(s.left) > 1 {
        var lf := RouteFrame(f.node + 1, f.leafL, f.leafL + Count(s.left));
        assert At(t, s.left, lf.node, lf.leafL);
      }
    }

    lemma StackFits(t: Tree, stack: seq<RouteFrame>, pending: seq<seq<NodeInfo>>)
      requires Walking(t, stack, pending)
      ensures |stack| <= |TopFirst(pending)|
    {
      hide At, TopFirst;
      forall k | 0 <= k < |pending| ensures pending[k] != [] {
        assert Visitor(t)(stack[k], pending[k]);
      }
      TopFirstLength(pending);
    }

    lemma WalkingEnd(t: Tree, pending: seq<seq<NodeInfo>>, out: seq<nat>)
      requires Walking(t, [], pending)
      ensures TopFirst(pending) == [] && Fill(out, TopFirst(pending)) == out
    {
    }

    /** RouteDiffs: the diffs in slot order, read back from the preorder routes. The stack
        never outgrows its fixed size. */
    method RouteDiffs(ghost t: Tree) returns (out: seq<nat>)
      requires Holds(t)
      ensures out == Diffs(t)
    {
      hide *;
      WalkStart(t);
      if size <= 1 {
        NoDiffs(t);
        return [];
      }
      var buf := new nat[size - 1];
      var stack := new RouteFrame[MAX_NODE_REPS](_ => RouteFrame(0, 0, 0));
      var stackSize := 1;
      stack[0] := RouteFrame(0, 0, size);
      ghost var pending := [Nodes(t, 0)];
      WalkingStart(t);
      FillAll(t, buf[..]);
      assert stack[..1] == [RouteFrame(0, 0, size)];
      while stackSize > 0
        invariant stackSize <= |TopFirst(pending)| < MAX_NODE_REPS
        invariant Walking(t, stack[..stackSize], pending)
        invariant Fill(buf[..], TopFirst(pending)) == Diffs(t)
        decreases |TopFirst(pending)|
      {
        ghost var before, nodes := stack[..stackSize], TopFirst(pending);
        pending := WalkingStep(t, before, pending);
        stackSize := stackSize - 1;
        var frame := stack[stackSize];
        assert before[..stackSize] == stack[..stackSize];
        var route := routes[frame.node];
        var diffIdx := frame.leafL + route.leftCount - 1;
        FillFirst(buf[..], nodes, NodeInfo(frame.leafL, frame.leafR, diffIdx, route.diff), TopFirst(pending));
        buf[diffIdx] := route.diff;
        stackSize := PushFrame(diffIdx + 1 < frame.leafR - 1, stack, stackSize,
          RouteFrame(frame.node + route.leftCount, diffIdx + 1, frame.leafR));
        stackSize := PushFrame(frame.leafL < diffIdx, stack, stackSize,
          RouteFrame(frame.node + 1, frame.leafL, diffIdx + 1));
      }
      WalkingEnd(t, pending, buf[..]);
      return buf[..];
    }

    /** IsDirectRoutePair: the node at diffIdx has exactly the two slots around it below it. */
    method IsDirectRoutePair(diffIdx: nat, ghost t: Tree) returns (direct: bool)
      requires Holds(t)
      ensures direct <==> diffIdx < size - 1 && DirectPair(t, diffIdx)
    {
      hide *;
      WalkStart(t);
      if diffIdx >= size - 1 {
        return false;
      }
      var stack := new RouteFrame[MAX_NODE_REPS](_ => RouteFrame(0, 0, 0));
      var stackSize := 1;
      stack[0] := RouteFrame(0, 0, size);
      ghost var pending := [Nodes(t, 0)];
      WalkingStart(t);
      ghost var target := NodesCover(t, 0, diffIdx);
      NodesDirect(t, 0, target);
      assert stack[..1] == [RouteFrame(0, 0, size)];
      while stackSize > 0
        invariant Holds(t)
        invariant stackSize <= |TopFirst(pending)| < MAX_NODE_REPS
        invariant Walking(t, stack[..stackSize], pending)
        invariant target in TopFirst(pending)
        invariant forall info :: info in TopFirst(pending) ==> info in Nodes(t, 0)
        decreases |TopFirst(pending)|
      {
        ghost var before, nodes := stack[..stackSize], TopFirst(pending);
        pending := WalkingStep(t, before, pending);
        stackSize := stackSize - 1;
        var frame := stack[stackSize];
        assert before[..stackSize] == stack[..stackSize];
        var route := routes[frame.node];
        var currentDiff := frame.leafL + route.leftCount - 1;
        ghost var info := NodeInfo(frame.leafL, frame.leafR, currentDiff, route.diff);
        assert info in nodes;
        if currentDiff == diffIdx {
          NodesDirect(t, 0, info);
          return frame.leafL == diffIdx && frame.leafR == diffIdx + 2;
        }
        stackSize := PushFrame(currentDiff + 1 < frame.leafR - 1, stack, stackSize,
          RouteFrame(frame.node + route.leftCount, currentDiff + 1, frame.leafR));
        stackSize := PushFrame(frame.leafL < currentDiff, stack, stackSize,
          RouteFrame(frame.node + 1, frame.leafL, currentDiff + 1));
      }
      WalkingEnd(t, pending, []);
      assert false;
      return false;
    }

    // ------------------------------------------------------ editing whole pages

    /** The slots from slot on move up by one and rep takes the free place. */
    method InsertRep(slot: nat, rep: Rep)
      requires Sized() && slot <= size < MAX_NODE_REPS
      modifies reps
      ensures reps[..size + 1] == old(reps[..slot]) + [rep] + old(reps[slot..size])
    {
      ghost var was := reps[..size];
      var i := size;
      while i > slot
        invariant slot <= i <= size
        invariant forall j :: 0 <= j < i ==> reps[j] == was[j]
        invariant forall j :: i < j <= size ==> reps[j] == was[j - 1]
      {
        reps[i] := reps[i - 1];
        i := i - 1;
      }
      reps[slot] := rep;
      MadeRoom(was, reps[..size + 1], slot, rep);
    }

    static lemma MadeRoom(was: seq<Rep>, now: seq<Rep>, slot: nat, rep: Rep)
      requires slot <= |was| && |now| == |was| + 1 && now[slot] == rep
      requires forall j :: 0 <= j < slot ==> now[j] == was[j]
      requires forall j :: slot < j < |now| ==> now[j] == was[j - 1]
      ensures now == was[..slot] + [rep] + was[slot..]
    {
    }

    /** The slots behind slot move down by one and the last place is cleared. */
    method RemoveRep(slot: nat)
      requires Sized() && slot < size
      modifies reps
      ensures reps[..size - 1] == old(reps[..slot]) + old(reps[slot + 1..size])
    {
      var i := slot;
      while i < size - 1
        invariant slot <= i <= size - 1
        invariant forall j :: 0 <= j < slot ==> reps[j] == old(reps[j])
        invariant forall j :: slot <= j < i ==> reps[j] == old(reps[j + 1])
        invariant forall j :: i <= j < size ==> reps[j] == old(reps[j])
      {
        reps[i] := reps[i + 1];
        i := i + 1;
      }
      reps[size - 1] := Record(0);
    }

    /** A new record enters the page: routes, slots and boundaries are updated in place. */
    method InsertRecord(slot: nat, pos: Position, key: Key, diff: nat, ghost t: Tree)
      requires Sized() && size < MAX_NODE_REPS
      requires size == 0 ==> slot == 0
      requires size > 0 ==> View() == PageOf(t) && slot == InsertSlot(t, key, diff)
      modifies this, routes, reps
      ensures Sized()
      ensures View() == PageOf(if old(size) == 0 then Rec(pos) else InsertHere(t, key, diff, pos))
    {
      hide Reps, Routes, InsertHere, InsertSlot, First, Last;
      var first, last := firstPos, lastPos;
      if size == 0 {
        first, last := pos, pos;
        OneRecord(pos);
      } else {
        InsertSlotEnds(t, key, diff, pos);
        InsertReps(t, key, diff, pos);
        if slot == 0 {
          first := pos;
        }
        if slot == size {
          last := pos;
        }
        ViewHolds(t);
        InsertRoute(slot, key, diff, t, pos);
      }
      ghost var before := reps[..size];
      InsertRep(slot, Record(pos));
      size := size + 1;
      firstPos := first;
      lastPos := last;
      assert before[..slot] == old(reps[..slot]) && before[slot..] == old(reps[slot..size]);
    }

    /** A slot leaves the page; the caller knows the boundaries that are left. */
    method RemoveSlot(slot: nat, first: Position, last: Position, ghost t: Tree)
      requires Sized() && slot < size && View() == PageOf(t)
      modifies this, routes, reps
      ensures Sized()
      ensures View() == if old(size) == 1 then EMPTY_PAGE
        else PageView(Reps(DeleteHere(t, slot)), Routes(DeleteHere(t, slot)), first, last)
    {
      hide Reps, Routes, DeleteHere, First, Last;
      ViewHolds(t);
      if size == 1 {
        reps[0] := Record(0);
        size, firstPos, lastPos := 0, 0, 0;
        return;
      }
      DeleteReps(t, slot);
      DeleteRoute(slot, t);
      ghost var before := reps[..size];
      RemoveRep(slot);
      size := size - 1;
      firstPos, lastPos := first, last;
      assert before[..slot] == old(reps[..slot]) && before[slot + 1..] == old(reps[slot + 1..size]);
    }

    /** WriteNodeWithDiffs: the page is written anew from its slots and the diffs between
        them, its routes rebuilt as the Cartesian tree of the diffs. */
    method Write(newReps: seq<Rep>, diffs: seq<nat>, first: Position, last: Position)
      requires Sized() && 1 <= |newReps| <= MAX_NODE_REPS && |diffs| == |newReps| - 1
      modifies this, routes, reps
      ensures Sized()
      ensures View() == PageView(newReps, CartRoutes(diffs, 0, |diffs|), first, last)
    {
      hide CartRoutes, Cart;
      FillReps(newReps);
      size := |newReps|;
      firstPos, lastPos := first, last;
      ClearRoutes();
      if size > 1 {
        var left, right, root := BuildCartesian(diffs);
        WritePreorderRoutes(routes, diffs, left, right, root, size);
      } else {
        CartEmpty(diffs, 0);
      }
    }

    method FillReps(newReps: seq<Rep>)
      requires Sized() && |newReps| <= MAX_NODE_REPS
      modifies reps
      ensures reps[..|newReps|] == newReps
    {
      var i := 0;
      while i < reps.Length
        invariant 0 <= i <= reps.Length
        invariant forall j :: 0 <= j < i && j < |newReps| ==> reps[j] == newReps[j]
      {
        reps[i] := if i < |newReps| then newReps[i] else Record(0);
        i := i + 1;
      }
    }

    method ClearRoutes()
      modifies routes
    {
      var i := 0;
      while i < routes.Length
        invariant 0 <= i <= routes.Length
      {
        routes[i] := Route(0, 0);
        i := i + 1;
      }
    }

    /** The whole page is copied, as root compression does. */
    method CopyFrom(page: NodePage)
      requires Sized() && page.Sized()
      requires page != this && page.routes != routes && page.reps != reps
      modifies this, routes, reps
      ensures Sized() && View() == page.View()
    {
      var i := 0;
      while i < MAX_NODE_REPS
        invariant 0 <= i <= MAX_NODE_REPS
        invariant page.reps[..] == old(page.reps[..])
        invariant forall j :: 0 <= j < i ==> reps[j] == page.reps[j]
      {
        reps[i] := page.reps[i];
        i := i + 1;
      }
      assert reps[..] == page.reps[..];
      i := 0;
      while i < MAX_NODE_REPS - 1
        invariant 0 <= i <= MAX_NODE_REPS - 1
        invariant page.routes[..] == old(page.routes[..]) && page.reps[..] == old(page.reps[..])
        invariant reps[..] == page.reps[..]
        invariant forall j :: 0 <= j < i ==> routes[j] == page.routes[j]
      {
        routes[i] := page.routes[i];
        i := i + 1;
      }
      size, firstPos, lastPos := page.size, page.firstPos, page.lastPos;
      assert reps[..size] == page.reps[..size];
      assert size > 0 ==> routes[..size - 1] == page.routes[..size - 1];
    }

    lemma ViewHolds(t: Tree)
      requires Sized() && View() == PageOf(t)
      ensures Holds(t) && size == Count(t)
    {
      assert |View().reps| == Count(t);
    }

    /** Slots and routes are what the algorithms look at; the boundaries may be behind. */
    lemma SlotsHold(t: Tree)
      requires Sized() && View().reps == Reps(t) && View().routes == Routes(t)
      ensures Holds(t) && size == Count(t) && size <= reps.Length && reps[..size] == Reps(t)
    {
      assert |View().reps| == Count(t);
    }

    lemma RepAt(t: Tree, i: nat)
      requires Sized() && View() == PageOf(t) && i < Count(t)
      ensures i < reps.Length && reps[i] == RepOf(LeafAt(t, i))
    {
      ViewHolds(t);
      LeafRep(t, i);
      assert reps[i] == reps[..size][i];
    }

    lemma StoredReps(t: Tree)
      requires Sized() && View() == PageOf(t)
      ensures size == Count(t) && size <= reps.Length && reps[..size] == Reps(t)
    {
      ViewHolds(t);
    }

    lemma HeldRoutes(t: Tree)
      requires Holds(t)
      ensures Sized() && routes.Length == MAX_NODE_REPS - 1 && Count(t) == size
      ensures routes[..][..Count(t) - 1] == Routes(t)
    {
    }
  }

  lemma OneRecord(pos: Position)
    ensures PageOf(Rec(pos)) == PageView([Record(pos)], [], pos, pos)
  {
  }

  /** The boundaries move only when the record enters at an end. */
  lemma {:induction false} InsertSlotEnds(t: Tree, key: Key, diff: nat, pos: Position)
    ensures First(InsertHere(t, key, diff, pos)) == if InsertSlot(t, key, diff) == 0 then pos else First(t)
    ensures Last(InsertHere(t, key, diff, pos)) == if InsertSlot(t, key, diff) == Count(t) then pos else Last(t)
  {
    match t
    case Node(d, l, r) =>
      if diff >= d {
        InsertSlotEnds(if !Bit(key, d) then l else r, key, diff, pos);
      }
    case _ =>
  }

  lemma FindNode(s: Tree, key: Key)
    requires s.Node?
    ensures Find(s, key) == if !Bit(key, s.diff) then Find(s.left, key) else Count(s.left) + Find(s.right, key)
  {
  }

  lemma FindOne(s: Tree, key: Key)
    requires Count(s) == 1
    ensures Find(s, key) == 0 && forall diff :: !StopsHere(s, key, diff)
  {
  }

  lemma StopsNode(s: Tree, key: Key, diff: nat)
    requires s.Node?
    ensures var below := if !Bit(key, s.diff) then s.left else s.right;
      && (StopsHere(s, key, diff) <==> diff < s.diff || StopsHere(below, key, diff))
      && InsertSlot(s, key, diff) ==
        (if diff < s.diff then (if Bit(key, diff) then Count(s) else 0)
         else (if !Bit(key, s.diff) then 0 else Count(s.left)) + InsertSlot(below, key, diff))
  {
  }

  /** The walk of an insertion: what is still to come below s, added to what lies behind. */
  ghost predicate InsertWalk(t: Tree, key: Key, diff: nat, s: Tree, routeIdx: nat, leafBase: nat, ancestors: seq<nat>) {
    && At(t, s, routeIdx, leafBase)
    && leafBase + InsertSlot(s, key, diff) == InsertSlot(t, key, diff)
    && routeIdx + InsertIndex(s, key, diff) == InsertIndex(t, key, diff)
    && InsertLeftCount(s, key, diff) == InsertLeftCount(t, key, diff)
    && Below(ancestors, routeIdx)
    && PassedSoFar(t, key, diff, s, routeIdx, ancestors)
  }

  ghost predicate PassedSoFar(t: Tree, key: Key, diff: nat, s: Tree, routeIdx: nat, ancestors: seq<nat>) {
    forall i: int :: InsertPasses(t, key, diff, i) <==> i in ancestors || InsertPasses(s, key, diff, i - routeIdx)
  }

  lemma InsertWalkStart(t: Tree, key: Key, diff: nat)
    ensures InsertWalk(t, key, diff, t, 0, 0, [])
  {
  }

  lemma InsertWalkStep(t: Tree, key: Key, diff: nat, s: Tree, routeIdx: nat, leafBase: nat, ancestors: seq<nat>)
    requires InsertWalk(t, key, diff, s, routeIdx, leafBase, ancestors) && Count(s) > 1
    ensures s.Node? && At(t, s, routeIdx, leafBase)
    ensures diff >= s.diff && !Bit(key, s.diff) ==>
      InsertWalk(t, key, diff, s.left, routeIdx + 1, leafBase, ancestors + [routeIdx])
    ensures diff >= s.diff && Bit(key, s.diff) ==>
      InsertWalk(t, key, diff, s.right, routeIdx + Count(s.left), leafBase + Count(s.left), ancestors)
  {
    hide At, InsertIndex, InsertLeftCount, InsertSlot;
    AtLeft(t, s, routeIdx, leafBase);
    AtRight(t, s, routeIdx, leafBase);
    if diff >= s.diff {
      WalkCounts(s, key, diff);
      if !Bit(key, s.diff) {
        assert PassedSoFar(t, key, diff, s.left, routeIdx + 1, ancestors + [routeIdx]);
      }
    }
  }

  lemma WalkCounts(s: Tree, key: Key, diff: nat)
    requires s.Node? && diff >= s.diff
    ensures var (below, slots, routes) :=
        if !Bit(key, s.diff) then (s.left, 0, 1) else (s.right, Count(s.left), Count(s.left));
      && InsertSlot(s, key, diff) == slots + InsertSlot(below, key, diff)
      && InsertIndex(s, key, diff) == routes + InsertIndex(below, key, diff)
      && InsertLeftCount(s, key, diff) == InsertLeftCount(below, key, diff)
  {
  }

  lemma InsertWalkEnd(t: Tree, key: Key, diff: nat, s: Tree, routeIdx: nat, leafBase: nat, ancestors: seq<nat>)
    requires InsertWalk(t, key, diff, s, routeIdx, leafBase, ancestors)
    requires Count(s) == 1 || diff < s.diff
    ensures Below(ancestors, routeIdx) && routeIdx == InsertIndex(t, key, diff) < Count(t)
    ensures InsertSlot(t, key, diff) == leafBase + if Bit(key, diff) then Count(s) else 0
    ensures InsertLeftCount(t, key, diff) == if Bit(key, diff) then Count(s) else 1
    ensures forall i: int :: InsertPasses(t, key, diff, i) <==> i in ancestors
  {
    hide At;
    assert !s.Node? || diff < s.diff;
  }

  function DecLeft(r: Route): Route
    requires r.leftCount > 0
  {
    r.(leftCount := r.leftCount - 1)
  }

  /** Entry i after the route at index at was taken out. */
  ghost function RouteDeleted(rs: seq<Route>, at: nat, ancestors: seq<nat>, i: nat): Route
    requires i + 1 < |rs|
    requires forall k :: 0 <= k < |ancestors| ==> ancestors[k] < |rs| && rs[ancestors[k]].leftCount > 0
  {
    if i >= at then rs[i + 1]
    else if i in ancestors then DecLeft(rs[i])
    else rs[i]
  }

  /** The walk of a deletion. Until the first step there is no parent route. */
  ghost predicate DeleteWalk(t: Tree, slot: nat, s: Tree, routeIdx: nat, leafBase: nat, parentIdx: nat,
                             ancestors: seq<nat>) {
    && At(t, s, routeIdx, leafBase)
    && slot < Count(t) && Count(t) > 1
    && leafBase <= slot < leafBase + Count(s)
    && Below(ancestors, routeIdx)
    && DeletePending(t, slot, s, routeIdx, slot - leafBase, parentIdx, ancestors)
  }

  ghost predicate DeletePending(t: Tree, slot: nat, s: Tree, routeIdx: nat, rest: nat, parentIdx: nat,
                                ancestors: seq<nat>)
    requires slot < Count(t) && Count(t) > 1 && rest < Count(s)
  {
    if Count(s) > 1 then
      && DeleteIndex(t, slot) == routeIdx + DeleteIndex(s, rest)
      && (forall i: int :: DeletePasses(t, slot, i) <==> i in ancestors || DeletePasses(s, rest, i - routeIdx))
    else
      && DeleteIndex(t, slot) == parentIdx
      && (forall i: int :: DeletePasses(t, slot, i) <==> i in ancestors)
  }

  lemma DeletePendingStep(t: Tree, slot: nat, s: Tree, routeIdx: nat, rest: nat, parentIdx: nat, ancestors: seq<nat>)
    requires slot < Count(t) && Count(t) > 1 && rest < Count(s) && s.Node?
    requires DeletePending(t, slot, s, routeIdx, rest, parentIdx, ancestors)
    ensures rest < Count(s.left) ==>
      DeletePending(t, slot, s.left, routeIdx + 1, rest, routeIdx,
                    if Count(s.left) > 1 then ancestors + [routeIdx] else ancestors)
    ensures rest >= Count(s.left) ==>
      DeletePending(t, slot, s.right, routeIdx + Count(s.left), rest - Count(s.left), routeIdx, ancestors)
  {
    hide *;
    if rest < Count(s.left) {
      DeletePendingLeft(t, slot, s, routeIdx, rest, parentIdx, ancestors);
    } else {
      DeletePendingRight(t, slot, s, routeIdx, rest, parentIdx, ancestors);
    }
  }

  lemma DeletePendingLeft(t: Tree, slot: nat, s: Tree, routeIdx: nat, rest: nat, parentIdx: nat, ancestors: seq<nat>)
    requires slot < Count(t) && Count(t) > 1 && rest < Count(s) && s.Node? && rest < Count(s.left)
    requires DeletePending(t, slot, s, routeIdx, rest, parentIdx, ancestors)
    ensures DeletePending(t, slot, s.left, routeIdx + 1, rest, routeIdx,
                          if Count(s.left) > 1 then ancestors + [routeIdx] else ancestors)
  {
    hide DeletePasses, DeleteIndex;
    DeleteNode(s, rest);
    if Count(s.left) > 1 {
      forall i: int
        ensures DeletePasses(t, slot, i) <==>
          i in ancestors + [routeIdx] || DeletePasses(s.left, rest, i - (routeIdx + 1))
      {
        assert DeletePasses(s, rest, i - routeIdx) <==> i == routeIdx || DeletePasses(s.left, rest, i - routeIdx - 1);
      }
    }
  }

  lemma DeletePendingRight(t: Tree, slot: nat, s: Tree, routeIdx: nat, rest: nat, parentIdx: nat, ancestors: seq<nat>)
    requires slot < Count(t) && Count(t) > 1 && rest < Count(s) && s.Node? && rest >= Count(s.left)
    requires DeletePending(t, slot, s, routeIdx, rest, parentIdx, ancestors)
    ensures DeletePending(t, slot, s.right, routeIdx + Count(s.left), rest - Count(s.left), routeIdx, ancestors)
  {
    hide DeletePasses, DeleteIndex;
    DeleteNode(s, rest);
    if Count(s.right) > 1 {
      forall i: int
        ensures DeletePasses(t, slot, i) <==>
          i in ancestors || DeletePasses(s.right, rest - Count(s.left), i - (routeIdx + Count(s.left)))
      {
        assert DeletePasses(s, rest, i - routeIdx) <==>
          DeletePasses(s.right, rest - Count(s.left), i - routeIdx - Count(s.left));
      }
    }
  }

  lemma DeleteNode(s: Tree, i: nat)
    requires s.Node? && i < Count(s)
    ensures Count(s) > 1
    ensures i < Count(s.left) && Count(s.left) > 1 ==> DeleteIndex(s, i) == 1 + DeleteIndex(s.left, i)
    ensures i < Count(s.left) && Count(s.left) > 1 ==>
      forall j: int :: DeletePasses(s, i, j) <==> j == 0 || DeletePasses(s.left, i, j - 1)
    ensures i >= Count(s.left) && Count(s.right) > 1 ==>
      DeleteIndex(s, i) == Count(s.left) + DeleteIndex(s.right, i - Count(s.left))
    ensures i >= Count(s.left) && Count(s.right) > 1 ==>
      forall j: int :: DeletePasses(s, i, j) <==> DeletePasses(s.right, i - Count(s.left), j - Count(s.left))
    ensures (if i < Count(s.left) then Count(s.left) == 1 else Count(s.right) == 1) ==>
      DeleteIndex(s, i) == 0 && forall j: int :: !DeletePasses(s, i, j)
  {
  }

  lemma DeleteWalkStart(t: Tree, slot: nat)
    requires slot < Count(t) && Count(t) > 1
    ensures DeleteWalk(t, slot, t, 0, 0, 0, [])
  {
  }

  lemma DeleteWalkStep(t: Tree, slot: nat, s: Tree, routeIdx: nat, leafBase: nat, parentIdx: nat, ancestors: seq<nat>)
    requires DeleteWalk(t, slot, s, routeIdx, leafBase, parentIdx, ancestors) && Count(s) > 1
    ensures s.Node? && At(t, s, routeIdx, leafBase)
    ensures slot < leafBase + Count(s.left) ==>
      DeleteWalk(t, slot, s.left, routeIdx + 1, leafBase, routeIdx,
                 if Count(s.left) > 1 then ancestors + [routeIdx] else ancestors)
    ensures slot >= leafBase + Count(s.left) ==>
      DeleteWalk(t, slot, s.right, routeIdx + Count(s.left), leafBase + Count(s.left), routeIdx, ancestors)
  {
    hide At, DeletePending, DeleteIndex, DeletePasses;
    AtLeft(t, s, routeIdx, leafBase);
    AtRight(t, s, routeIdx, leafBase);
    DeletePendingStep(t, slot, s, routeIdx, slot - leafBase, parentIdx, ancestors);
  }

  lemma DeleteWalkEnd(t: Tree, slot: nat, s: Tree, routeIdx: nat, leafBase: nat, parentIdx: nat, ancestors: seq<nat>)
    requires DeleteWalk(t, slot, s, routeIdx, leafBase, parentIdx, ancestors) && Count(s) == 1
    ensures slot == leafBase && slot < Count(t) && Count(t) > 1
    ensures parentIdx == DeleteIndex(t, slot) < Count(t) - 1
    ensures forall i: int :: DeletePasses(t, slot, i) <==> i in ancestors
    ensures Below(ancestors, parentIdx)
  {
    hide At;
    forall k | 0 <= k < |ancestors| ensures ancestors[k] < parentIdx {
      assert ancestors[k] in ancestors;
      DeletePassesRange(t, slot, ancestors[k]);
    }
  }

  lemma CountsPositive(t: Tree, slot: nat, before: seq<Route>, ancestors: seq<nat>)
    requires slot < Count(t) && Count(t) > 1
    requires Count(t) - 1 <= |before| && before[..Count(t) - 1] == Routes(t)
    requires forall i: int :: DeletePasses(t, slot, i) <==> i in ancestors
    ensures forall k :: 0 <= k < |ancestors| ==> ancestors[k] < |before| && before[ancestors[k]].leftCount > 0
  {
    hide Routes, DeletePasses, DeleteIndex;
    forall k | 0 <= k < |ancestors| ensures ancestors[k] < |before| && before[ancestors[k]].leftCount > 0 {
      var j := ancestors[k];
      assert j in ancestors;
      DeletePassesRange(t, slot, j);
      DeleteRoutes(t, slot, j);
      assert before[j] == before[..Count(t) - 1][j];
    }
  }

  lemma RoutesDeleted(t: Tree, slot: nat, before: seq<Route>, ancestors: seq<nat>, after: seq<Route>)
    requires slot < Count(t) && Count(t) > 1
    requires |after| == Count(t) - 2 && Count(t) - 1 <= |before| && before[..Count(t) - 1] == Routes(t)
    requires forall i: int :: DeletePasses(t, slot, i) <==> i in ancestors
    requires forall k :: 0 <= k < |ancestors| ==> ancestors[k] < |before| && before[ancestors[k]].leftCount > 0
    requires forall i :: 0 <= i < |after| ==> after[i] == RouteDeleted(before, DeleteIndex(t, slot), ancestors, i)
    ensures after == Routes(DeleteHere(t, slot))
  {
    hide Routes, DeleteHere, DeleteIndex, DeletePasses;
    var rs := Routes(t);
    forall i | 0 <= i < |after| ensures after[i] == Routes(DeleteHere(t, slot))[i] {
      DeleteRoutes(t, slot, i);
      assert before[i] == rs[i] && before[i + 1] == rs[i + 1];
    }
  }

  /** A conditional push on a stack of fixed size. */
  method PushFrame(c: bool, stack: array<RouteFrame>, n: nat, f: RouteFrame) returns (n2: nat)
    requires n <= stack.Length && (c ==> n < stack.Length)
    modifies stack
    ensures n2 <= stack.Length && n2 == if c then n + 1 else n
    ensures stack[..n2] == PushIf(c, old(stack[..n]), f)
  {
    n2 := n;
    if c {
      stack[n2] := f;
      n2 := n2 + 1;
    }
  }

  lemma NoDiffs(t: Tree)
    requires Count(t) <= 1
    ensures Diffs(t) == []
  {
  }

  lemma FillFirst(out: seq<nat>, nodes: seq<NodeInfo>, first: NodeInfo, rest: seq<NodeInfo>)
    requires nodes == [first] + rest && first.mid < |out|
    ensures Fill(out, nodes) == Fill(out[first.mid := first.diff], rest)
  {
  }

  function IncLeft(r: Route): Route { r.(leftCount := r.leftCount + 1) }

  ghost predicate Below(s: seq<nat>, n: nat) {
    && (forall k :: 0 <= k < |s| ==> s[k] < n)
    && (forall j, k :: 0 <= j < k < |s| ==> s[j] != s[k])
  }

  /** Entry i after a route was inserted at index at. */
  ghost function RouteInserted(rs: seq<Route>, at: nat, route: Route, ancestors: seq<nat>, i: nat): Route
    requires i < |rs|
  {
    if i < at then (if i in ancestors then IncLeft(rs[i]) else rs[i])
    else if i == at then route
    else rs[i - 1]
  }

  lemma RoutesInserted(t: Tree, key: Key, diff: nat, pos: Position,
                       before: seq<Route>, ancestors: seq<nat>, after: seq<Route>)
    requires |after| == Count(t) <= |before| && before[..Count(t) - 1] == Routes(t)
    requires forall i: int :: InsertPasses(t, key, diff, i) <==> i in ancestors
    requires forall i :: 0 <= i < |after| ==>
      after[i] == RouteInserted(before, InsertIndex(t, key, diff), Route(diff, InsertLeftCount(t, key, diff)),
                                ancestors, i)
    ensures after == Routes(InsertHere(t, key, diff, pos))
  {
    hide Routes, InsertHere, InsertIndex, InsertLeftCount, InsertPasses;
    var rs := Routes(t);
    forall i | 0 <= i < |after| ensures after[i] == Routes(InsertHere(t, key, diff, pos))[i] {
      InsertRoutes(t, key, diff, pos, i);
      assert i < |rs| ==> before[i] == rs[i];
      assert i > 0 ==> before[i - 1] == rs[i - 1];
    }
  }

}
