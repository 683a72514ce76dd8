/** Facts about sequences, maps and explicit stacks that the other modules share. */
module Sequences {

  lemma WholeSlice<T>(s: seq<T>)
    ensures s[0..|s|] == s
  {
  }

  lemma ConcatThree<T>(a: seq<T>, b: seq<T>, c: seq<T>)
    ensures a + (b + c) == (a + b) + c
  {
  }

  /** Taking out, or cutting at, a place inside the left or the right part. */
  lemma CutLeft<T>(a: seq<T>, b: seq<T>, i: nat, j: nat)
    requires i <= |a| && j <= |a|
    ensures (a + b)[..i] == a[..i] && (a + b)[j..] == a[j..] + b
    ensures (a + b)[..i] + (a + b)[j..] == (a[..i] + a[j..]) + b
  {
  }

  lemma CutRight<T>(a: seq<T>, b: seq<T>, i: nat, j: nat)
    requires |a| <= i <= |a| + |b| && |a| <= j <= |a| + |b|
    ensures (a + b)[..i] == a + b[..i - |a|] && (a + b)[j..] == b[j - |a|..]
    ensures (a + b)[..i] + (a + b)[j..] == a + (b[..i - |a|] + b[j - |a|..])
  {
  }

  lemma SliceLeft<T>(a: seq<T>, b: seq<T>, i: nat, j: nat)
    requires i <= j <= |a|
    ensures (a + b)[i..j] == a[i..j]
  {
  }

  lemma SliceRight<T>(a: seq<T>, b: seq<T>, i: nat, j: nat)
    requires |a| <= i <= j <= |a| + |b|
    ensures (a + b)[i..j] == b[i - |a|..j - |a|]
  {
  }

  lemma SliceOfSlice<T>(s: seq<T>, a: nat, b: nat, i: nat, j: nat)
    requires a <= b <= |s| && i <= j <= b - a
    ensures s[a..b][i..j] == s[a + i..a + j]
  {
    var t, u := s[a..b][i..j], s[a + i..a + j];
    assert |t| == |u| && forall x :: 0 <= x < |t| ==> t[x] == u[x];
  }

  lemma FourParts<T>(a: seq<T>, b: seq<T>, c: seq<T>, d: seq<T>)
    ensures var e := a + b + c + d;
      && e[0..|a|] == a && e[|a|..|a| + |b|] == b && e[|a| + |b|..|a| + |b| + |c|] == c
      && e[|a| + |b| + |c|..|e|] == d && e[|a| + |b|..|e|] == c + d
  {
  }

  lemma UpdateSlice<T>(s: seq<T>, lo: nat, hi: nat, i: nat, x: T)
    requires lo <= hi <= |s| && i < |s|
    ensures s[i := x][lo..hi] == if lo <= i < hi then s[lo..hi][i - lo := x] else s[lo..hi]
  {
  }

  lemma UpdateConcat<T>(a: seq<T>, b: seq<T>, i: nat, x: T)
    ensures i < |a| ==> a[i := x] + b == (a + b)[i := x]
    ensures i < |b| ==> a + b[i := x] == (a + b)[|a| + i := x]
  {
  }

  /** a with the elements [i, j) exchanged for m. */
  function Exchange<T>(a: seq<T>, i: nat, j: nat, m: seq<T>): seq<T>
    requires i <= j <= |a|
  {
    a[..i] + m + a[j..]
  }

  lemma ExchangeLeft<T>(a: seq<T>, b: seq<T>, i: nat, j: nat, m: seq<T>)
    requires i <= j <= |a|
    ensures Exchange(a, i, j, m) + b == Exchange(a + b, i, j, m)
  {
    assert (a + b)[..i] == a[..i] && (a + b)[j..] == a[j..] + b;
  }

  lemma ExchangeRight<T>(a: seq<T>, b: seq<T>, i: nat, j: nat, m: seq<T>)
    requires |a| <= i <= j <= |a| + |b|
    ensures a + Exchange(b, i - |a|, j - |a|, m) == Exchange(a + b, i, j, m)
  {
    assert (a + b)[..i] == a + b[..i - |a|] && (a + b)[j..] == b[j - |a|..];
  }

  /** Two neighbouring stretches written one after the other. */
  lemma ExchangeNext<T>(s: seq<T>, i: nat, j: nat, k: nat, a: seq<T>, b: seq<T>)
    requires i <= j <= k <= |s| && |a| == j - i && |b| == k - j
    ensures |Exchange(s, i, j, a)| == |s|
    ensures Exchange(Exchange(s, i, j, a), j, k, b) == Exchange(s, i, k, a + b)
  {
    var x, y := Exchange(Exchange(s, i, j, a), j, k, b), Exchange(s, i, k, a + b);
    assert |x| == |y| && forall n :: 0 <= n < |x| ==> x[n] == y[n];
  }

  /** Two stretches written, then the gap between them. */
  lemma ExchangeGap<T>(s: seq<T>, i: nat, j: nat, k: nat, l: nat, a: seq<T>, b: seq<T>, c: seq<T>)
    requires i <= j <= k <= l <= |s| && |a| == j - i && |b| == k - j && |c| == l - k
    ensures |Exchange(s, i, j, a)| == |s| && |Exchange(Exchange(s, i, j, a), k, l, c)| == |s|
    ensures Exchange(Exchange(Exchange(s, i, j, a), k, l, c), j, k, b) == Exchange(s, i, l, a + b + c)
    ensures Exchange(Exchange(s, i, j, a), k, l, c)[i..j] == a
    ensures Exchange(Exchange(s, i, j, a), k, l, c)[k..l] == c
  {
    var x, y := Exchange(Exchange(Exchange(s, i, j, a), k, l, c), j, k, b), Exchange(s, i, l, a + b + c);
    assert |x| == |y| && forall n :: 0 <= n < |x| ==> x[n] == y[n];
  }

  lemma CutConcat<T>(a: seq<T>, c: seq<T>)
    ensures (a + c)[..|a|] == a && (a + c)[|a|..] == c
  {
  }

  lemma CutMiddle<T>(a: seq<T>, x: T, c: seq<T>)
    ensures (a + [x] + c)[..|a|] == a && (a + [x] + c)[|a|] == x && (a + [x] + c)[|a| + 1..] == c
  {
  }

  lemma InParts<T>(x: T, a: seq<T>, b: seq<T>)
    ensures x in [x] + a + b && forall y :: y in a || y in b ==> y in [x] + a + b
  {
  }

  lemma CutAll<T>(a: seq<T>, b: seq<T>)
    ensures a[0..|a|] == a && Exchange(a, 0, |a|, b) == b
  {
    assert a[..0] == [] && a[|a|..] == [];
  }

  lemma OneLeft<T>(a: seq<T>, i: nat)
    requires |a| == 1 && i == 0
    ensures a[..i] + a[i + 1..] == [] && forall b: seq<T> :: [] + b == b && b + [] == b
  {
  }

  lemma HeadIndex<T>(x: T, a: seq<T>, b: seq<T>, j: nat)
    requires j < 1 + |a| + |b|
    ensures ([x] + a + b)[j] == if j == 0 then x else if j <= |a| then a[j - 1] else b[j - 1 - |a|]
  {
  }

  lemma MiddleIndex<T>(a: seq<T>, x: T, b: seq<T>, j: nat)
    requires j < |a| + 1 + |b|
    ensures (a + [x] + b)[j] == if j < |a| then a[j] else if j == |a| then x else b[j - |a| - 1]
  {
  }

  lemma ConcatAssoc<T>(a: seq<T>, b: seq<T>, c: seq<T>, d: seq<T>)
    ensures (a + b + c) + d == a + b + (c + d)
  {
  }

  lemma ConcatAssoc2<T>(a: seq<T>, b: seq<T>, c: seq<T>, d: seq<T>)
    ensures a + (b + c + d) == (a + b) + c + d
  {
  }

  /** The parts of a concatenation, cut back out of a sequence that contains it. */
  lemma CutParts<T>(s: seq<T>, lo: nat, a: seq<T>, x: T, b: seq<T>)
    requires lo + |a| + 1 + |b| <= |s| && s[lo..lo + |a| + 1 + |b|] == a + [x] + b
    ensures s[lo..lo + |a|] == a && s[lo + |a|] == x
    ensures s[lo + |a| + 1..lo + |a| + 1 + |b|] == b
  {
    var c := a + [x] + b;
    assert forall j :: lo <= j < lo + |c| ==> s[j] == c[j - lo];
  }

  lemma UnionPut<X, Y>(a: map<X, Y>, b: map<X, Y>, x: X, y: Y)
    ensures x !in b ==> a[x := y] + b == (a + b)[x := y]
    ensures a + b[x := y] == (a + b)[x := y]
  {
  }

  lemma UnionAssoc<X, Y>(a: map<X, Y>, b: map<X, Y>, c: map<X, Y>)
    ensures a + (b + c) == (a + b) + c
  {
  }

  lemma UnionSwap<X, Y>(a: map<X, Y>, b: map<X, Y>, c: map<X, Y>)
    requires b.Keys !! c.Keys
    ensures (a + b) + c == (a + c) + b
  {
  }

  lemma UnionKeys<X, Y>(a: map<X, Y>, b: map<X, Y>, c: map<X, Y>)
    ensures ((a + c) + b).Keys == ((a + b) + c).Keys
    ensures b.Keys !! c.Keys ==> (a + b) + c == (a + c) + b
  {
  }

  lemma UnionRemove<X, Y>(a: map<X, Y>, b: map<X, Y>, x: X)
    ensures x !in b ==> (a - {x}) + b == (a + b) - {x}
    ensures x !in a ==> a + (b - {x}) == (a + b) - {x}
  {
  }

  /** The remaining output of an explicit stack: the topmost entry is written first. */
  ghost function TopFirst<T>(parts: seq<seq<T>>): seq<T> {
    if parts == [] then [] else parts[|parts| - 1] + TopFirst(parts[..|parts| - 1])
  }

  lemma TopFirstOne<T>(part: seq<T>)
    ensures TopFirst([part]) == part
  {
    assert [part][..0] == [];
  }

  lemma TopFirstPush<T>(parts: seq<seq<T>>, part: seq<T>)
    ensures TopFirst(parts + [part]) == part + TopFirst(parts)
  {
    assert (parts + [part])[..|parts|] == parts;
  }

  /** Each frame of the stack does the part of the work recorded for it. */
  ghost predicate Pends<F(!new), T(!new)>(does: (F, seq<T>) -> bool, stack: seq<F>, pending: seq<seq<T>>) {
    && |pending| == |stack|
    && forall k :: 0 <= k < |stack| ==> does(stack[k], pending[k])
  }

  function PushIf<F>(c: bool, stack: seq<F>, f: F): seq<F> {
    if c then stack + [f] else stack
  }

  /** The top frame is replaced by frames for its right and its left part, left on top;
      a part without work gets no frame. */
  lemma PopPush<F(!new), T(!new)>(does: (F, seq<T>) -> bool, stack: seq<F>, pending: seq<seq<T>>,
                                  hasR: bool, rf: F, r: seq<T>, hasL: bool, lf: F, l: seq<T>)
    returns (pending2: seq<seq<T>>)
    requires stack != [] && Pends(does, stack, pending)
    requires if hasR then does(rf, r) else r == []
    requires if hasL then does(lf, l) else l == []
    ensures Pends(does, PushIf(hasL, PushIf(hasR, stack[..|stack| - 1], rf), lf), pending2)
    ensures TopFirst(pending) == pending[|stack| - 1] + TopFirst(pending[..|stack| - 1])
    ensures TopFirst(pending2) == l + (r + TopFirst(pending[..|stack| - 1]))
  {
    var rest := pending[..|stack| - 1];
    TopFirstPush(rest, r);
    var mid := PushIf(hasR, rest, r);
    assert TopFirst(mid) == r + TopFirst(rest);
    TopFirstPush(mid, l);
    pending2 := PushIf(hasL, mid, l);
  }

  lemma PendsTop<F(!new), T(!new)>(does: (F, seq<T>) -> bool, stack: seq<F>, pending: seq<seq<T>>)
    requires stack != [] && Pends(does, stack, pending)
    ensures |pending| == |stack| && does(stack[|stack| - 1], pending[|stack| - 1])
  {
  }

  lemma {:induction false} TopFirstLength<T>(parts: seq<seq<T>>)
    requires forall k :: 0 <= k < |parts| ==> parts[k] != []
    ensures |parts| <= |TopFirst(parts)|
  {
    if parts != [] {
      TopFirstLength(parts[..|parts| - 1]);
    }
  }

  lemma Regroup<T>(x: T, l: seq<T>, r: seq<T>, rest: seq<T>)
    ensures ([x] + l + r) + rest == [x] + (l + (r + rest))
  {
  }

  // ----------------------------------------------------------- counting ids

  function Range(n: nat): (ids: set<nat>)
    ensures forall i: nat :: i in ids <==> i < n
  {
    if n == 0 then {} else Range(n - 1) + {n - 1}
  }

  lemma {:induction false} RangeSize(n: nat)
    ensures |Range(n)| == n
  {
    if n > 0 {
      RangeSize(n - 1);
    }
  }

  function Elements(s: seq<nat>): set<nat> {
    set x | x in s
  }

  lemma {:induction false} DistinctSize(s: seq<nat>)
    requires forall j, k :: 0 <= j < k < |s| ==> s[j] != s[k]
    ensures |Elements(s)| == |s|
  {
    if s != [] {
      var n := |s| - 1;
      DistinctSize(s[..n]);
      assert Elements(s) == Elements(s[..n]) + {s[n]};
    }
  }

  /** Ids below n are either listed, each once, or in the set. */
  lemma SplitSize(ids: set<nat>, listed: seq<nat>, n: nat)
    requires forall j, k :: 0 <= j < k < |listed| ==> listed[j] != listed[k]
    requires forall i :: i in ids || i in listed ==> i < n
    requires forall i: nat :: i in Range(n) ==> i in ids || i in listed
    requires forall i :: i in listed ==> i !in ids
    ensures |ids| + |listed| == n
  {
    RangeSize(n);
    DistinctSize(listed);
    assert ids + Elements(listed) == Range(n);
    assert ids !! Elements(listed);
  }

  // ------------------------------------------------------------------------ chains

  /** Where a chain stands after its first i steps. */
  function Stop<T>(from: T, passed: seq<T>, i: nat): T
    requires i <= |passed|
  {
    if i == 0 then from else passed[i - 1]
  }

  /** passed leads from one state to another, each step allowed. */
  ghost predicate Chain<T(!new)>(step: (T, T) -> bool, from: T, passed: seq<T>, to: T) {
    && to == Stop(from, passed, |passed|)
    && forall i :: 0 <= i < |passed| ==> step(Stop(from, passed, i), passed[i])
  }

  lemma ChainAt<T(!new)>(step: (T, T) -> bool, from: T, passed: seq<T>, to: T, i: nat)
    requires Chain(step, from, passed, to) && i < |passed|
    ensures step(Stop(from, passed, i), passed[i])
  {
  }

  lemma ChainBy<T(!new)>(step: (T, T) -> bool, from: T, passed: seq<T>, to: T)
    requires to == Stop(from, passed, |passed|)
    requires forall i :: 0 <= i < |passed| ==> step(Stop(from, passed, i), passed[i])
    ensures Chain(step, from, passed, to)
  {
  }

  lemma ChainNone<T(!new)>(step: (T, T) -> bool, x: T)
    ensures Chain(step, x, [], x)
  {
  }

  lemma ChainOne<T(!new)>(step: (T, T) -> bool, x: T, y: T)
    requires step(x, y)
    ensures Chain(step, x, [y], y)
  {
  }

  lemma ChainConcat<T(!new)>(step: (T, T) -> bool, x: T, a: seq<T>, y: T, b: seq<T>, z: T)
    requires Chain(step, x, a, y) && Chain(step, y, b, z)
    ensures Chain(step, x, a + b, z)
  {
    var c := a + b;
    forall i | 0 <= i < |c| ensures step(Stop(x, c, i), c[i]) {
      if i < |a| {
        assert Stop(x, c, i) == Stop(x, a, i) && c[i] == a[i];
      } else {
        assert Stop(x, c, i) == Stop(y, b, i - |a|) && c[i] == b[i - |a|];
      }
    }
  }

  /** One more step. */
  lemma ChainSnoc<T(!new)>(step: (T, T) -> bool, x: T, a: seq<T>, y: T, z: T)
    requires Chain(step, x, a, y) && step(y, z)
    ensures Chain(step, x, a + [z], z)
  {
    ChainOne(step, y, z);
    ChainConcat(step, x, a, y, [z], z);
  }
}
