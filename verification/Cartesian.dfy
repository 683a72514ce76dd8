/** Cartesian trees of diff sequences (BuildCartesian and WritePreorderRoutes of index.h). */
module Cartesian {
  import opened Patricia
  import opened Sequences

  datatype RouteFrame = RouteFrame(node: int, leafL: nat, leafR: nat)

  /** m is the last position of the smallest diff in [lo, hi). */
  ghost predicate IsLastMin(ds: seq<nat>, m: int, lo: nat, hi: nat)
    requires hi <= |ds|
  {
    && lo <= m < hi
    && (forall j :: lo <= j < m ==> ds[m] <= ds[j])
    && (forall j :: m < j < hi ==> ds[m] < ds[j])
  }

  function LastMin(ds: seq<nat>, lo: nat, hi: nat): (m: nat)
    requires lo < hi <= |ds|
    ensures lo <= m < hi
    decreases hi
  {
    if hi == lo + 1 then lo
    else
      var m := LastMin(ds, lo, hi - 1);
      if ds[hi - 1] <= ds[m] then hi - 1 else m
  }

  lemma {:induction false} LastMinIsLast(ds: seq<nat>, m: int, lo: nat, hi: nat)
    requires lo < hi <= |ds|
    ensures IsLastMin(ds, m, lo, hi) <==> m == LastMin(ds, lo, hi)
    decreases hi
  {
    if hi > lo + 1 {
      LastMinIsLast(ds, LastMin(ds, lo, hi - 1), lo, hi - 1);
    }
    if IsLastMin(ds, m, lo, hi) {
      LastMinUnique(ds, m, LastMin(ds, lo, hi), lo, hi);
    }
  }

  lemma LastMinUnique(ds: seq<nat>, a: int, b: int, lo: nat, hi: nat)
    requires hi <= |ds| && IsLastMin(ds, a, lo, hi) && IsLastMin(ds, b, lo, hi)
    ensures a == b
  {
    var x, y := ds[a], ds[b];
  }

  /** The routes of the diffs in [lo, hi): the last minimum first, then what lies to its
      left, then what lies to its right. */
  function CartRoutes(ds: seq<nat>, lo: nat, hi: nat): (rs: seq<Route>)
    requires lo <= hi <= |ds|
    ensures |rs| == hi - lo
    decreases hi - lo
  {
    if lo == hi then []
    else
      var m := LastMin(ds, lo, hi);
      [Route(ds[m], m - lo + 1)] + CartRoutes(ds, lo, m) + CartRoutes(ds, m + 1, hi)
  }

  /** Every node of the page tests an earlier bit than all nodes below it in the page. */
  ghost predicate Rising(t: Tree) {
    match t
    case Node(d, l, r) =>
      && Rising(l) && Rising(r)
      && (forall e :: e in Diffs(l) ==> d < e)
      && (forall e :: e in Diffs(r) ==> d < e)
    case _ => true
  }

  /** The diffs of t stand in ds from lo on. */
  ghost predicate Spells(ds: seq<nat>, lo: nat, t: Tree)
    decreases t
  {
    && lo + Count(t) - 1 <= |ds|
    && (match t
        case Node(d, l, r) =>
          && Spells(ds, lo, l)
          && lo + Count(l) - 1 < |ds| && ds[lo + Count(l) - 1] == d
          && Spells(ds, lo + Count(l), r)
        case _ => true)
  }

  lemma {:induction false} SpellsDiffs(ds: seq<nat>, lo: nat, t: Tree)
    requires lo + Count(t) - 1 <= |ds| && ds[lo..lo + Count(t) - 1] == Diffs(t)
    ensures Spells(ds, lo, t)
    decreases t
  {
    hide Diffs;
    match t
    case Node(d, l, r) =>
      DiffsNode(t);
      CutParts(ds, lo, Diffs(l), d, Diffs(r));
      SpellsDiffs(ds, lo, l);
      SpellsDiffs(ds, lo + Count(l), r);
    case _ =>
  }

  lemma DiffsNode(t: Tree)
    requires t.Node?
    ensures Diffs(t) == Diffs(t.left) + [t.diff] + Diffs(t.right)
  {
  }

  /** A rising tree is the Cartesian tree of its diffs: rebuilding its routes from the
      diffs alone gives the routes it has. */
  lemma RoutesAreCart(t: Tree)
    requires Rising(t)
    ensures CartRoutes(Diffs(t), 0, Count(t) - 1) == Routes(t)
  {
    hide *;
    var ds := Diffs(t);
    WholeSlice(ds);
    SpellsDiffs(ds, 0, t);
    SpelledRoutes(t, ds, 0);
  }

  lemma {:induction false} SpelledRoutes(t: Tree, ds: seq<nat>, lo: nat)
    requires Rising(t) && Spells(ds, lo, t)
    ensures CartRoutes(ds, lo, lo + Count(t) - 1) == Routes(t)
  {
    hide LastMin, Diffs, CartRoutes, Rising, Spells, Routes;
    SpelledNode(t, ds, lo);
    match t
    case Node(d, l, r) =>
      RisingParts(t);
      RootIsLastMin(t, ds, lo);
      SpelledRoutes(l, ds, lo);
      SpelledRoutes(r, ds, lo + Count(l));
      CartNode(ds, lo, lo + Count(l) - 1, lo + Count(t) - 1);
    case _ =>
      CartEmpty(ds, lo);
  }

  lemma SpelledNode(t: Tree, ds: seq<nat>, lo: nat)
    requires Spells(ds, lo, t)
    ensures lo + Count(t) - 1 <= |ds| && (!t.Node? ==> Routes(t) == [])
    ensures t.Node? ==> Routes(t) == [Route(t.diff, Count(t.left))] + Routes(t.left) + Routes(t.right)
    ensures t.Node? ==> Spells(ds, lo, t.left) && ds[lo + Count(t.left) - 1] == t.diff
    ensures t.Node? ==> Spells(ds, lo + Count(t.left), t.right)
  {
  }

  lemma RisingParts(t: Tree)
    requires Rising(t) && t.Node?
    ensures Rising(t.left) && Rising(t.right)
  {
  }

  lemma CartEmpty(ds: seq<nat>, lo: nat)
    requires lo <= |ds|
    ensures CartRoutes(ds, lo, lo) == []
  {
  }

  lemma CartNode(ds: seq<nat>, lo: nat, m: nat, hi: nat)
    requires lo <= m < hi <= |ds| && LastMin(ds, lo, hi) == m
    ensures CartRoutes(ds, lo, hi) == [Route(ds[m], m - lo + 1)] + CartRoutes(ds, lo, m) + CartRoutes(ds, m + 1, hi)
  {
  }

  lemma RootIsLastMin(t: Tree, ds: seq<nat>, lo: nat)
    requires Rising(t) && t.Node? && Spells(ds, lo, t)
    ensures LastMin(ds, lo, lo + Count(t) - 1) == lo + Count(t.left) - 1
  {
    var m := lo + Count(t.left) - 1;
    SpelledIn(t.left, ds, lo);
    SpelledIn(t.right, ds, m + 1);
    LastMinIsLast(ds, m, lo, lo + Count(t) - 1);
  }

  lemma {:induction false} SpelledIn(t: Tree, ds: seq<nat>, lo: nat)
    requires Spells(ds, lo, t)
    ensures forall j :: lo <= j < lo + Count(t) - 1 ==> ds[j] in Diffs(t)
  {
    match t
    case Node(d, l, r) =>
      SpelledIn(l, ds, lo);
      SpelledIn(r, ds, lo + Count(l));
    case _ =>
  }

  // --------------------------------------------------------- the node arrays

  /** left and right describe the Cartesian tree of [lo, hi), rooted at root. */
  ghost predicate Cart(ds: seq<nat>, left: seq<int>, right: seq<int>, root: int, lo: nat, hi: nat)
    requires |left| == |right| == |ds| && hi <= |ds|
    decreases hi - lo
  {
    && lo < hi
    && root == LastMin(ds, lo, hi)
    && (if root == lo then left[root] == -1 else Cart(ds, left, right, left[root], lo, root))
    && (if root + 1 == hi then right[root] == -1 else Cart(ds, left, right, right[root], root + 1, hi))
  }

  /** Cart looks only at the entries of its own range. */
  lemma {:induction false} CartFrame(ds: seq<nat>, left: seq<int>, right: seq<int>,
                                     left2: seq<int>, right2: seq<int>, root: int, lo: nat, hi: nat)
    requires |left| == |right| == |left2| == |right2| == |ds| && hi <= |ds|
    requires Cart(ds, left, right, root, lo, hi)
    requires forall j :: lo <= j < hi ==> left2[j] == left[j] && right2[j] == right[j]
    ensures Cart(ds, left2, right2, root, lo, hi)
    decreases hi - lo
  {
    if root != lo {
      CartFrame(ds, left, right, left2, right2, left[root], lo, root);
    }
    if root + 1 != hi {
      CartFrame(ds, left, right, left2, right2, right[root], root + 1, hi);
    }
  }

  /** Where the j-th open range starts: after the stack entry below it. */
  function Low(stack: seq<nat>, j: nat): nat
    requires j <= |stack|
  {
    if j == 0 then 0 else stack[j - 1] + 1
  }

  /** The stack holds the right spine of the tree of [0, n): each entry roots the range
      that starts after the entry below it, and the diffs rise along it. */
  ghost predicate Spine(ds: seq<nat>, left: seq<int>, right: seq<int>, stack: seq<nat>, n: nat)
    requires |left| == |right| == |ds| && n <= |ds|
  {
    && Ordered(ds, stack, n)
    && (forall j :: 0 <= j < |stack| ==> Rooted(ds, left, right, stack, n, j))
  }

  ghost predicate Rooted(ds: seq<nat>, left: seq<int>, right: seq<int>, stack: seq<nat>, n: nat, j: nat)
    requires |left| == |right| == |ds| && n <= |ds| && j < |stack|
  {
    Cart(ds, left, right, stack[j], Low(stack, j), n)
  }

  /** Appending n below the spine keeps the range of every spine entry a Cartesian tree. */
  lemma {:induction false} ExtendSpine(ds: seq<nat>, left: seq<int>, right: seq<int>,
                                       left2: seq<int>, right2: seq<int>, stack: seq<nat>, n: nat, j: nat)
    requires |left| == |right| == |left2| == |right2| == |ds| && n < |ds|
    requires Spine(ds, left, right, stack, n) && j < |stack|
    requires ds[stack[|stack| - 1]] < ds[n]
    requires SameBelow(left, left2, n, n) && SameBelow(right, right2, n, stack[|stack| - 1])
    requires right2[stack[|stack| - 1]] == n && Cart(ds, left2, right2, n, Low(stack, |stack|), n + 1)
    ensures Cart(ds, left2, right2, stack[j], Low(stack, j), n + 1)
    decreases |stack| - j
  {
    var s := stack[j];
    var lo := Low(stack, j);
    assert Rooted(ds, left, right, stack, n, j);
    assert ds[s] < ds[n] && s <= stack[|stack| - 1];
    if j + 1 < |stack| {
      ExtendSpine(ds, left, right, left2, right2, stack, n, j + 1);
      assert Rooted(ds, left, right, stack, n, j + 1);
      assert s < stack[j + 1] < n && Low(stack, j + 1) == s + 1;
      assert Cart(ds, left, right, right[s], s + 1, n);
      assert s < stack[|stack| - 1] && right2[s] == right[s];
      CartGrows(ds, left, right, left2, right2, s, stack[j + 1], lo, n);
    } else {
      CartGrows(ds, left, right, left2, right2, s, n, lo, n);
    }
  }

  ghost predicate SameBelow(a: seq<int>, b: seq<int>, n: nat, except: nat)
    requires |a| == |b| && n <= |a|
  {
    forall i :: 0 <= i < n && i != except ==> b[i] == a[i]
  }

  /** One more element on the right: the root stays, its left side stays, its right side is given. */
  lemma CartGrows(ds: seq<nat>, left: seq<int>, right: seq<int>, left2: seq<int>, right2: seq<int>,
                  s: nat, child: nat, lo: nat, n: nat)
    requires |left| == |right| == |left2| == |right2| == |ds| && lo <= s < n < |ds|
    requires Cart(ds, left, right, s, lo, n) && ds[s] < ds[n]
    requires forall j :: lo <= j <= s ==> left2[j] == left[j]
    requires forall j :: lo <= j < s ==> right2[j] == right[j]
    requires right2[s] == child && Cart(ds, left2, right2, child, s + 1, n + 1)
    ensures Cart(ds, left2, right2, s, lo, n + 1)
  {
    if s != lo {
      CartFrame(ds, left, right, left2, right2, left[s], lo, s);
    }
  }

  /** BuildCartesian: for any diffs the arrays describe their Cartesian tree. */
  method BuildCartesian(diffs: seq<nat>) returns (left: array<int>, right: array<int>, root: nat)
    requires |diffs| > 0
    ensures fresh(left) && fresh(right) && left.Length == right.Length == |diffs|
    ensures Cart(diffs, left[..], right[..], root, 0, |diffs|)
  {
    var n := |diffs|;
    left := new int[n](_ => -1);
    right := new int[n](_ => -1);
    var stack: seq<nat> := [];
    for i := 0 to n
      invariant left != right
      invariant Spine(diffs, left[..], right[..], stack, i)
      invariant if i == 0 then stack == [] else |stack| > 0 && stack[|stack| - 1] == i - 1
      invariant forall j :: i <= j < n ==> left[j] == -1 && right[j] == -1
    {
      ghost var left0, right0 := left[..], right[..];
      var last: int := -1;
      while |stack| > 0 && diffs[i] <= diffs[stack[|stack| - 1]]
        invariant left[..] == left0 && right[..] == right0
        invariant Spine(diffs, left0, right0, stack, i)
        invariant Popped(diffs, left0, right0, stack, i, last)
        decreases |stack|
      {
        SpinePop(diffs, left0, right0, stack, i, last);
        last := stack[|stack| - 1];
        stack := stack[..|stack| - 1];
      }
      assert |stack| > 0 ==> stack[|stack| - 1] < i;
      if last != -1 {
        left[i] := last;
      }
      if |stack| > 0 {
        right[stack[|stack| - 1]] := i;
      }
      SpinePush(diffs, left0, right0, left[..], right[..], stack, i, last);
      stack := stack + [i];
    }
    assert Rooted(diffs, left[..], right[..], stack, n, 0);
    root := stack[0];
  }

  /** last is the root of what was popped: everything between the stack top and n. */
  ghost predicate Popped(ds: seq<nat>, left: seq<int>, right: seq<int>, stack: seq<nat>, n: nat, last: int)
    requires |left| == |right| == |ds| && n < |ds|
  {
    if last == -1 then Low(stack, |stack|) == n
    else Cart(ds, left, right, last, Low(stack, |stack|), n) && ds[n] <= ds[last]
  }

  lemma SpinePop(ds: seq<nat>, left: seq<int>, right: seq<int>, stack: seq<nat>, n: nat, last: int)
    requires |left| == |right| == |ds| && n < |ds|
    requires Spine(ds, left, right, stack, n) && |stack| > 0 && ds[n] <= ds[stack[|stack| - 1]]
    ensures Spine(ds, left, right, stack[..|stack| - 1], n)
    ensures Popped(ds, left, right, stack[..|stack| - 1], n, stack[|stack| - 1])
  {
    var below := stack[..|stack| - 1];
    forall j | 0 <= j < |below| ensures Rooted(ds, left, right, below, n, j) {
      assert Rooted(ds, left, right, stack, n, j);
    }
    assert Rooted(ds, left, right, stack, n, |stack| - 1);
  }

  lemma SpinePush(ds: seq<nat>, left: seq<int>, right: seq<int>, left2: seq<int>, right2: seq<int>,
                  stack: seq<nat>, n: nat, last: int)
    requires |left| == |right| == |left2| == |right2| == |ds| && n < |ds|
    requires Spine(ds, left, right, stack, n)
    requires |stack| > 0 ==> ds[stack[|stack| - 1]] < ds[n]
    requires Popped(ds, left, right, stack, n, last)
    requires left2[n] == last && right2[n] == -1 && SameBelow(left, left2, n, n)
    requires SameBelow(right, right2, n, if |stack| > 0 then stack[|stack| - 1] else n)
    requires |stack| > 0 ==> right2[stack[|stack| - 1]] == n
    ensures Spine(ds, left2, right2, stack + [n], n + 1)
  {
    var grown, next := stack + [n], n + 1;
    forall j | 0 <= j < |grown| ensures Rooted(ds, left2, right2, grown, next, j) {
      RootedPush(ds, left, right, left2, right2, stack, n, last, j);
    }
    OrderedPush(ds, stack, n);
  }

  lemma RootedPush(ds: seq<nat>, left: seq<int>, right: seq<int>, left2: seq<int>, right2: seq<int>,
                   stack: seq<nat>, n: nat, last: int, j: nat)
    requires |left| == |right| == |left2| == |right2| == |ds| && n < |ds|
    requires Spine(ds, left, right, stack, n) && j <= |stack|
    requires |stack| > 0 ==> ds[stack[|stack| - 1]] < ds[n] && right2[stack[|stack| - 1]] == n
    requires Popped(ds, left, right, stack, n, last)
    requires left2[n] == last && right2[n] == -1 && SameBelow(left, left2, n, n)
    requires SameBelow(right, right2, n, if |stack| > 0 then stack[|stack| - 1] else n)
    ensures Rooted(ds, left2, right2, stack + [n], n + 1, j)
  {
    assert |stack| > 0 ==> stack[|stack| - 1] < n;
    RootAppended(ds, left, right, left2, right2, Low(stack, |stack|), n, last);
    assert Low(stack + [n], j) == Low(stack, j);
    if j < |stack| {
      ExtendSpine(ds, left, right, left2, right2, stack, n, j);
    }
  }

  ghost predicate Ordered(ds: seq<nat>, stack: seq<nat>, n: nat)
    requires n <= |ds|
  {
    && (forall j :: 0 <= j < |stack| ==> stack[j] < n)
    && (forall j, k :: 0 <= j < k < |stack| ==> stack[j] < stack[k] && ds[stack[j]] < ds[stack[k]])
  }

  lemma OrderedPush(ds: seq<nat>, stack: seq<nat>, n: nat)
    requires n < |ds| && Ordered(ds, stack, n)
    requires |stack| > 0 ==> ds[stack[|stack| - 1]] < ds[n]
    ensures Ordered(ds, stack + [n], n + 1)
  {
  }

  /** n roots its own range: what was popped is its left side. */
  lemma RootAppended(ds: seq<nat>, left: seq<int>, right: seq<int>, left2: seq<int>, right2: seq<int>,
                     low: nat, n: nat, last: int)
    requires |left| == |right| == |left2| == |right2| == |ds| && low <= n < |ds|
    requires if last == -1 then low == n else Cart(ds, left, right, last, low, n) && ds[n] <= ds[last]
    requires left2[n] == last && right2[n] == -1
    requires forall j :: low <= j < n ==> left2[j] == left[j] && right2[j] == right[j]
    ensures Cart(ds, left2, right2, n, low, n + 1)
  {
    if last != -1 {
      CartFrame(ds, left, right, left2, right2, last, low, n);
    }
  }

  /** The frame is a Cartesian subtree and w are its routes. */
  ghost predicate Writes(ds: seq<nat>, left: seq<int>, right: seq<int>, f: RouteFrame, w: seq<Route>) {
    && |left| == |right| == |ds|
    && f.leafL < f.leafR <= |ds| + 1
    && Cart(ds, left, right, f.node, f.leafL, f.leafR - 1)
    && w == CartRoutes(ds, f.leafL, f.leafR - 1)
  }

  ghost function Writer(ds: seq<nat>, left: seq<int>, right: seq<int>): (RouteFrame, seq<Route>) -> bool {
    (f, w) => Writes(ds, left, right, f, w)
  }

  lemma SplitRoutes(ds: seq<nat>, left: seq<int>, right: seq<int>, f: RouteFrame, w: seq<Route>)
    returns (l: seq<Route>, r: seq<Route>)
    requires Writes(ds, left, right, f, w)
    ensures f.leafL <= f.node < |ds|
    ensures w == [Route(ds[f.node], f.node - f.leafL + 1)] + l + r
    ensures if left[f.node] == -1 then l == []
      else Writes(ds, left, right, RouteFrame(left[f.node], f.leafL, f.node + 1), l)
    ensures if right[f.node] == -1 then r == []
      else Writes(ds, left, right, RouteFrame(right[f.node], f.node + 1, f.leafR), r)
  {
    l := CartRoutes(ds, f.leafL, f.node);
    r := CartRoutes(ds, f.node + 1, f.leafR - 1);
    assert f.node != f.leafL ==> Cart(ds, left, right, left[f.node], f.leafL, f.node);
    assert f.node + 1 != f.leafR - 1 ==> Cart(ds, left, right, right[f.node], f.node + 1, f.leafR - 1);
  }

  /** What is written so far and what the stack still writes make up all. */
  ghost predicate Writing(ds: seq<nat>, left: seq<int>, right: seq<int>, stack: seq<RouteFrame>,
                          pending: seq<seq<Route>>, done: seq<Route>, all: seq<Route>) {
    Pends(Writer(ds, left, right), stack, pending) && done + TopFirst(pending) == all
  }

  lemma WriteTop(ds: seq<nat>, left: seq<int>, right: seq<int>, stack: seq<RouteFrame>,
                 pending: seq<seq<Route>>, done: seq<Route>, all: seq<Route>)
    returns (pending2: seq<seq<Route>>)
    requires |left| == |right| == |ds| && stack != [] && Writing(ds, left, right, stack, pending, done, all)
    ensures var f := stack[|stack| - 1];
      && f.leafL <= f.node < |ds| && |done| < |all|
      && var stack1 := PushIf(right[f.node] != -1, stack[..|stack| - 1],
                              RouteFrame(right[f.node], f.node + 1, f.leafR));
      && var stack2 := PushIf(left[f.node] != -1, stack1, RouteFrame(left[f.node], f.leafL, f.node + 1));
      && Writing(ds, left, right, stack2, pending2, done + [Route(ds[f.node], f.node - f.leafL + 1)], all)
  {
    var does := Writer(ds, left, right);
    var f := stack[|stack| - 1];
    assert does(f, pending[|stack| - 1]);
    var l, r := SplitRoutes(ds, left, right, f, pending[|stack| - 1]);
    pending2 := PopPush(does, stack, pending,
      right[f.node] != -1, RouteFrame(right[f.node], f.node + 1, f.leafR), r,
      left[f.node] != -1, RouteFrame(left[f.node], f.leafL, f.node + 1), l);
    RegroupAfter(done, Route(ds[f.node], f.node - f.leafL + 1), l, r, TopFirst(pending[..|stack| - 1]));
  }

  lemma RegroupAfter<T>(done: seq<T>, x: T, l: seq<T>, r: seq<T>, rest: seq<T>)
    ensures done + [x] + (l + (r + rest)) == done + (([x] + l + r) + rest)
  {
  }

  lemma WriteStart(ds: seq<nat>, left: seq<int>, right: seq<int>, f: RouteFrame)
    requires |left| == |right| == |ds| && f.leafL == 0 && f.leafR == |ds| + 1
    requires Cart(ds, left, right, f.node, 0, |ds|)
    ensures Writing(ds, left, right, [f], [CartRoutes(ds, 0, |ds|)], [], CartRoutes(ds, 0, |ds|))
  {
    hide Cart, CartRoutes;
    TopFirstOne(CartRoutes(ds, 0, |ds|));
  }

  lemma WriteEnd(ds: seq<nat>, left: seq<int>, right: seq<int>, pending: seq<seq<Route>>,
                 done: seq<Route>, all: seq<Route>)
    requires Writing(ds, left, right, [], pending, done, all)
    ensures done == all
  {
  }

  lemma ArrayGrows<T>(before: seq<T>, after: seq<T>, n: nat, x: T)
    requires n < |before| && after == before[n := x]
    ensures after[..n + 1] == before[..n] + [x]
  {
  }

  /** WritePreorderRoutes: the out array receives the Cartesian tree in preorder. */
  method WritePreorderRoutes(out: array<Route>, diffs: seq<nat>, left: array<int>, right: array<int>,
                             root: nat, size: nat)
    requires size == |diffs| + 1 && out.Length >= |diffs| > 0
    requires left.Length == right.Length == |diffs|
    requires Cart(diffs, left[..], right[..], root, 0, |diffs|)
    modifies out
    ensures out[..|diffs|] == CartRoutes(diffs, 0, |diffs|)
    ensures out[|diffs|..] == old(out[|diffs|..])
  {
    hide *;
    ghost var ls, rs := left[..], right[..];
    var stack := [RouteFrame(root, 0, size)];
    var outIdx := 0;
    ghost var all := CartRoutes(diffs, 0, |diffs|);
    ghost var pending := [all];
    WriteStart(diffs, ls, rs, stack[0]);
    while stack != []
      invariant left[..] == ls && right[..] == rs
      invariant outIdx <= |diffs|
      invariant Writing(diffs, ls, rs, stack, pending, out[..outIdx], all)
      invariant out[|diffs|..] == old(out[|diffs|..])
      decreases |all| - outIdx
    {
      ghost var before := out[..];
      pending := WriteTop(diffs, ls, rs, stack, pending, out[..outIdx], all);
      var frame := stack[|stack| - 1];
      stack := stack[..|stack| - 1];
      var i := frame.node;
      out[outIdx] := Route(diffs[i], i - frame.leafL + 1);
      ArrayGrows(before, out[..], outIdx, out[outIdx]);
      outIdx := outIdx + 1;
      stack := PushIf(right[i] != -1, stack, RouteFrame(right[i], i + 1, frame.leafR));
      stack := PushIf(left[i] != -1, stack, RouteFrame(left[i], frame.leafL, i + 1));
    }
    WriteEnd(diffs, ls, rs, pending, out[..outIdx], all);
  }
}
