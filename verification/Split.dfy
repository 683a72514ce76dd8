/** Choosing what an overfull page moves out (ChooseSplitRange of index.h). */
module Split {
  import opened Wrappers
  import opened Cartesian
  import opened Sequences

  datatype SplitRange = SplitRange(start: nat, count: nat)

  /** The slot ranges of the nodes of the Cartesian tree of [lo, hi), in preorder. */
  ghost function Ranges(ds: seq<nat>, lo: nat, hi: nat): (rs: seq<SplitRange>)
    requires lo <= hi <= |ds|
    ensures |rs| == hi - lo
    decreases hi - lo
  {
    if lo == hi then []
    else
      var m := LastMin(ds, lo, hi);
      [SplitRange(lo, hi - lo + 1)] + Ranges(ds, lo, m) + Ranges(ds, m + 1, hi)
  }

  predicate Candidate(r: SplitRange, n: nat) {
    r.count >= 2 && r.count + 2 <= n
  }

  function Distance(a: nat, b: nat): nat {
    if a < b then b - a else a - b
  }

  /** Some node covers more than a third and at most two thirds of the slots: the first on
      the way down the heavier sides that is not too large. */
  lemma {:induction false} HeavyNode(ds: seq<nat>, lo: nat, hi: nat, n: nat) returns (r: SplitRange)
    requires lo <= hi <= |ds| && n >= 4 && 3 * (hi - lo + 1) > 2 * n
    ensures r in Ranges(ds, lo, hi) && n < 3 * r.count <= 2 * n
    decreases hi - lo
  {
    hide Ranges, LastMin;
    var m := LastMin(ds, lo, hi);
    var a, b := m - lo + 1, hi - m;
    RangesNode(ds, lo, hi);
    if 3 * a > 2 * n {
      r := HeavyNode(ds, lo, m, n);
    } else if 3 * b > 2 * n {
      r := HeavyNode(ds, m + 1, hi, n);
    } else if a >= b {
      r := SplitRange(lo, a);
      RangesNode(ds, lo, m);
    } else {
      r := SplitRange(m + 1, b);
      RangesNode(ds, m + 1, hi);
    }
  }

  lemma RangesNode(ds: seq<nat>, lo: nat, hi: nat)
    requires lo < hi <= |ds|
    ensures SplitRange(lo, hi - lo + 1) in Ranges(ds, lo, hi)
    ensures var m := LastMin(ds, lo, hi);
      forall r :: r in Ranges(ds, lo, m) || r in Ranges(ds, m + 1, hi) ==> r in Ranges(ds, lo, hi)
  {
    hide *;
    var m := LastMin(ds, lo, hi);
    RangesAre(ds, lo, hi);
    InParts(SplitRange(lo, hi - lo + 1), Ranges(ds, lo, m), Ranges(ds, m + 1, hi));
  }

  lemma RangesAre(ds: seq<nat>, lo: nat, hi: nat)
    requires lo < hi <= |ds|
    ensures var m := LastMin(ds, lo, hi);
      Ranges(ds, lo, hi) == [SplitRange(lo, hi - lo + 1)] + Ranges(ds, lo, m) + Ranges(ds, m + 1, hi)
  {
    hide LastMin;
  }

  // ----------------------------------------------------- walking the subtrees

  /** The frame stands for a Cartesian subtree; w are the ranges of its nodes. */
  ghost predicate Spans(ds: seq<nat>, left: seq<int>, right: seq<int>, f: RouteFrame, w: seq<SplitRange>) {
    && |left| == |right| == |ds|
    && f.leafL < f.leafR <= |ds| + 1
    && Cart(ds, left, right, f.node, f.leafL, f.leafR - 1)
    && w == Ranges(ds, f.leafL, f.leafR - 1)
  }

  ghost function Spanner(ds: seq<nat>, left: seq<int>, right: seq<int>): (RouteFrame, seq<SplitRange>) -> bool {
    (f, w) => Spans(ds, left, right, f, w)
  }

  ghost predicate Scanning(ds: seq<nat>, left: seq<int>, right: seq<int>, stack: seq<RouteFrame>,
                           pending: seq<seq<SplitRange>>, done: seq<SplitRange>) {
    && Pends(Spanner(ds, left, right), stack, pending)
    && done + TopFirst(pending) == Ranges(ds, 0, |ds|)
  }

  lemma ScanStart(ds: seq<nat>, left: seq<int>, right: seq<int>, f: RouteFrame)
    requires |left| == |right| == |ds| && f.leafL == 0 && f.leafR == |ds| + 1
    requires Cart(ds, left, right, f.node, 0, |ds|)
    ensures Scanning(ds, left, right, [f], [Ranges(ds, 0, |ds|)], [])
  {
    hide Cart, Ranges;
    TopFirstOne(Ranges(ds, 0, |ds|));
  }

  lemma SpanParts(ds: seq<nat>, left: seq<int>, right: seq<int>, f: RouteFrame, w: seq<SplitRange>)
    returns (l: seq<SplitRange>, r: seq<SplitRange>)
    requires Spans(ds, left, right, f, w)
    ensures f.leafL <= f.node < |ds|
    ensures w == [SplitRange(f.leafL, f.leafR - f.leafL)] + l + r
    ensures if left[f.node] == -1 then l == []
      else Spans(ds, left, right, RouteFrame(left[f.node], f.leafL, f.node + 1), l)
    ensures if right[f.node] == -1 then r == []
      else Spans(ds, left, right, RouteFrame(right[f.node], f.node + 1, f.leafR), r)
  {
    l := Ranges(ds, f.leafL, f.node);
    r := Ranges(ds, f.node + 1, f.leafR - 1);
    assert f.node != f.leafL ==> Cart(ds, left, right, left[f.node], f.leafL, f.node);
    assert f.node + 1 != f.leafR - 1 ==> Cart(ds, left, right, right[f.node], f.node + 1, f.leafR - 1);
  }

  lemma ScanStep(ds: seq<nat>, left: seq<int>, right: seq<int>, stack: seq<RouteFrame>,
                 pending: seq<seq<SplitRange>>, done: seq<SplitRange>)
    returns (pending2: seq<seq<SplitRange>>)
    requires |left| == |right| == |ds| && stack != [] && Scanning(ds, left, right, stack, pending, done)
    ensures var f := stack[|stack| - 1];
      && f.leafL <= f.node < |ds| && f.leafL < f.leafR && |done| < |ds|
      && SplitRange(f.leafL, f.leafR - f.leafL) in Ranges(ds, 0, |ds|)
      && var stack1 := PushIf(right[f.node] != -1, stack[..|stack| - 1],
                              RouteFrame(right[f.node], f.node + 1, f.leafR));
      && var stack2 := PushIf(left[f.node] != -1, stack1, RouteFrame(left[f.node], f.leafL, f.node + 1));
      && Scanning(ds, left, right, stack2, pending2, done + [SplitRange(f.leafL, f.leafR - f.leafL)])
  {
    hide Cart, Ranges;
    var does := Spanner(ds, left, right);
    var f := stack[|stack| - 1];
    PendsTop(does, stack, pending);
    assert does(f, pending[|stack| - 1]);
    var l, r := SpanParts(ds, left, right, f, pending[|stack| - 1]);
    pending2 := PopPush(does, stack, pending,
      right[f.node] != -1, RouteFrame(right[f.node], f.node + 1, f.leafR), r,
      left[f.node] != -1, RouteFrame(left[f.node], f.leafL, f.node + 1), l);
    var x := SplitRange(f.leafL, f.leafR - f.leafL);
    RegroupAfter(done, x, l, r, TopFirst(pending[..|stack| - 1]));
    assert Ranges(ds, 0, |ds|)[|done|] == x;
  }

  lemma ScanEnd(ds: seq<nat>, left: seq<int>, right: seq<int>, pending: seq<seq<SplitRange>>, done: seq<SplitRange>)
    requires Scanning(ds, left, right, [], pending, done)
    ensures done == Ranges(ds, 0, |ds|)
  {
  }

  // --------------------------------------------------- what is to be chosen

  /** best is the first of the largest ranges of rs that fit, if any does. */
  ghost predicate FirstLargest(rs: seq<SplitRange>, fits: SplitRange -> bool, best: Option<SplitRange>) {
    match best
    case None => forall r :: r in rs ==> !fits(r)
    case Some(b) => exists i :: 0 <= i < |rs| && rs[i] == b && LargestAt(rs, fits, i)
  }

  ghost predicate LargestAt(rs: seq<SplitRange>, fits: SplitRange -> bool, i: nat)
    requires i < |rs|
  {
    && fits(rs[i])
    && (forall j :: 0 <= j < i && fits(rs[j]) ==> rs[j].count < rs[i].count)
    && forall j :: i < j < |rs| && fits(rs[j]) ==> rs[j].count <= rs[i].count
  }

  /** best is the first of the candidates of rs that are nearest to half of n, if there is one. */
  ghost predicate FirstNearest(rs: seq<SplitRange>, n: nat, best: Option<SplitRange>) {
    match best
    case None => forall r :: r in rs ==> !Candidate(r, n)
    case Some(b) => exists i :: 0 <= i < |rs| && rs[i] == b && NearestAt(rs, n, i)
  }

  ghost predicate NearestAt(rs: seq<SplitRange>, n: nat, i: nat)
    requires i < |rs|
  {
    && Candidate(rs[i], n)
    && (forall j :: 0 <= j < i && Candidate(rs[j], n) ==>
          Distance(rs[j].count, n / 2) > Distance(rs[i].count, n / 2))
    && forall j :: i < j < |rs| && Candidate(rs[j], n) ==>
         Distance(rs[j].count, n / 2) >= Distance(rs[i].count, n / 2)
  }

  /** Candidates that the insertion does not touch. */
  function AwayFrom(slot: int, n: nat): SplitRange -> bool {
    (r: SplitRange) => Candidate(r, n) && !(r.start <= slot < r.start + r.count)
  }

  /** Candidates of a third to a half of the slots. */
  function Preferred(n: nat): SplitRange -> bool {
    (r: SplitRange) => Candidate(r, n) && n <= 3 * r.count && r.count <= n / 2
  }

  /** What an overfull page of n slots moves out when a record came in at slot: at an end the
      largest subtree beside it; else the largest of a third to a half of the slots; else the one
      nearest to half of them; of equal ones the first in preorder. */
  ghost predicate Chooses(rs: seq<SplitRange>, n: nat, slot: int, r: SplitRange) {
    if (slot == 0 || slot == n - 1) && exists x :: x in rs && AwayFrom(slot, n)(x) then
      FirstLargest(rs, AwayFrom(slot, n), Some(r))
    else if exists x :: x in rs && Preferred(n)(x) then FirstLargest(rs, Preferred(n), Some(r))
    else FirstNearest(rs, n, Some(r))
  }

  lemma LargestMore(rs: seq<SplitRange>, fits: SplitRange -> bool, best: Option<SplitRange>, x: SplitRange)
    requires FirstLargest(rs, fits, best)
    ensures FirstLargest(rs + [x], fits,
                         if fits(x) && (best.None? || x.count > best.value.count) then Some(x) else best)
  {
    var rs2 := rs + [x];
    if fits(x) && (best.None? || x.count > best.value.count) {
      if best.Some? {
        var i :| 0 <= i < |rs| && rs[i] == best.value && LargestAt(rs, fits, i);
      }
      assert rs2[|rs|] == x && LargestAt(rs2, fits, |rs|);
    } else if best.Some? {
      var i :| 0 <= i < |rs| && rs[i] == best.value && LargestAt(rs, fits, i);
      assert rs2[i] == best.value && LargestAt(rs2, fits, i);
    }
  }

  lemma NearestMore(rs: seq<SplitRange>, n: nat, best: Option<SplitRange>, x: SplitRange)
    requires FirstNearest(rs, n, best)
    ensures var better :=
        Candidate(x, n) && (best.None? || Distance(x.count, n / 2) < Distance(best.value.count, n / 2));
      FirstNearest(rs + [x], n, if better then Some(x) else best)
  {
    var rs2 := rs + [x];
    if Candidate(x, n) && (best.None? || Distance(x.count, n / 2) < Distance(best.value.count, n / 2)) {
      if best.Some? {
        var i :| 0 <= i < |rs| && rs[i] == best.value && NearestAt(rs, n, i);
      }
      assert rs2[|rs|] == x && NearestAt(rs2, n, |rs|);
    } else if best.Some? {
      var i :| 0 <= i < |rs| && rs[i] == best.value && NearestAt(rs, n, i);
      assert rs2[i] == best.value && NearestAt(rs2, n, i);
    }
  }

  lemma LargestMeans(rs: seq<SplitRange>, fits: SplitRange -> bool, best: Option<SplitRange>)
    requires FirstLargest(rs, fits, best)
    ensures best.Some? ==> best.value in rs && fits(best.value)
    ensures best.Some? <==> exists x :: x in rs && fits(x)
    ensures best.Some? ==> forall x :: x in rs && fits(x) ==> x.count <= best.value.count
  {
    if best.Some? {
      var i :| 0 <= i < |rs| && rs[i] == best.value && LargestAt(rs, fits, i);
      forall x | x in rs && fits(x) ensures x.count <= best.value.count {
        var j :| 0 <= j < |rs| && rs[j] == x;
      }
    }
  }

  lemma NearestMeans(rs: seq<SplitRange>, n: nat, best: Option<SplitRange>)
    requires FirstNearest(rs, n, best)
    ensures best.Some? ==> best.value in rs && Candidate(best.value, n)
    ensures best.None? ==> forall x :: x in rs ==> !Candidate(x, n)
    ensures best.Some? ==>
      forall x :: x in rs && Candidate(x, n) ==> Distance(best.value.count, n / 2) <= Distance(x.count, n / 2)
  {
    if best.Some? {
      var i :| 0 <= i < |rs| && rs[i] == best.value && NearestAt(rs, n, i);
      forall x | x in rs && Candidate(x, n)
        ensures Distance(best.value.count, n / 2) <= Distance(x.count, n / 2)
      {
        var j :| 0 <= j < |rs| && rs[j] == x;
      }
    }
  }

  lemma NothingChosen(n: nat, fits: SplitRange -> bool)
    ensures FirstLargest([], fits, None) && FirstNearest([], n, None)
  {
  }

  // ------------------------------------------------------------ edge inserts

  /** ChooseEdgeSplitRange: the largest subtree that the insertion at an end does not touch. */
  method ChooseEdgeSplitRange(diffs: seq<nat>, repCount: nat, insertSlot: nat) returns (best: Option<SplitRange>)
    requires repCount == |diffs| + 1 && |diffs| > 0
    ensures FirstLargest(Ranges(diffs, 0, |diffs|), AwayFrom(insertSlot, repCount), best)
  {
    hide *;
    var left, right, root := BuildCartesian(diffs);
    ghost var ls, rs := left[..], right[..];
    best := None;
    var stack := [RouteFrame(root, 0, repCount)];
    ghost var done: seq<SplitRange> := [];
    ghost var pending := [Ranges(diffs, 0, |diffs|)];
    ScanStart(diffs, ls, rs, stack[0]);
    NothingChosen(repCount, AwayFrom(insertSlot, repCount));
    while stack != []
      invariant left[..] == ls && right[..] == rs
      invariant Scanning(diffs, ls, rs, stack, pending, done)
      invariant FirstLargest(done, AwayFrom(insertSlot, repCount), best)
      decreases |diffs| - |done|
    {
      pending := ScanStep(diffs, ls, rs, stack, pending, done);
      var frame := stack[|stack| - 1];
      stack := stack[..|stack| - 1];
      var count := frame.leafR - frame.leafL;
      ghost var x := SplitRange(frame.leafL, count);
      LargestMore(done, AwayFrom(insertSlot, repCount), best, x);
      AwayIs(insertSlot, repCount, x);
      if count >= 2 && count + 2 <= repCount && (insertSlot < frame.leafL || insertSlot >= frame.leafR) {
        if best.None? || count > best.value.count {
          best := Some(SplitRange(frame.leafL, count));
        }
      }
      done := done + [x];
      var i := frame.node;
      stack := PushIf(right[i] != -1, stack, RouteFrame(right[i], i + 1, frame.leafR));
      stack := PushIf(left[i] != -1, stack, RouteFrame(left[i], frame.leafL, i + 1));
    }
    ScanEnd(diffs, ls, rs, pending, done);
  }

  lemma AwayIs(slot: int, n: nat, x: SplitRange)
    ensures AwayFrom(slot, n)(x) <==> x.count >= 2 && x.count + 2 <= n && (slot < x.start || slot >= x.start + x.count)
  {
  }

  lemma PreferredIs(n: nat, x: SplitRange)
    ensures Preferred(n)(x) <==> Candidate(x, n) && (n + 2) / 3 <= x.count <= n / 2
  {
  }

  // ------------------------------------------------------------- other splits

  /** ChooseSplitRange for n slots: a whole subtree of at least two and at most n - 2 slots.
      Away from the ends it covers about a third to two thirds of the slots. The middle half
      that the source falls back to when no subtree qualifies is never needed. */
  method ChooseSplitRange(diffs: seq<nat>, insertSlot: int) returns (range: SplitRange)
    requires |diffs| + 1 >= 4
    ensures range in Ranges(diffs, 0, |diffs|) && Candidate(range, |diffs| + 1)
    ensures Chooses(Ranges(diffs, 0, |diffs|), |diffs| + 1, insertSlot, range)
    ensures insertSlot != 0 && insertSlot != |diffs| ==> Balanced(range.count, |diffs| + 1)
    ensures |diffs| == 339 && insertSlot != 0 && insertSlot != 339 ==> 114 <= range.count <= 226
  {
    hide *;
    var repCount := |diffs| + 1;
    if insertSlot == 0 || insertSlot == |diffs| {
      var edge := ChooseEdgeSplitRange(diffs, repCount, insertSlot);
      EdgeChosen(Ranges(diffs, 0, |diffs|), repCount, insertSlot, edge);
      if edge.Some? {
        return edge.value;
      }
    }
    var left, right, root := BuildCartesian(diffs);
    ghost var ls, rs := left[..], right[..];
    var target := repCount / 2;
    var minPreferred := (repCount + 2) / 3;
    var best: Option<SplitRange> := None;
    var preferred: Option<SplitRange> := None;
    var stack := [RouteFrame(root, 0, repCount)];
    ghost var done: seq<SplitRange> := [];
    ghost var pending := [Ranges(diffs, 0, |diffs|)];
    ScanStart(diffs, ls, rs, stack[0]);
    NothingChosen(repCount, Preferred(repCount));
    while stack != []
      invariant left[..] == ls && right[..] == rs
      invariant Scanning(diffs, ls, rs, stack, pending, done)
      invariant FirstNearest(done, repCount, best) && FirstLargest(done, Preferred(repCount), preferred)
      decreases |diffs| - |done|
    {
      pending := ScanStep(diffs, ls, rs, stack, pending, done);
      var frame := stack[|stack| - 1];
      stack := stack[..|stack| - 1];
      var count := frame.leafR - frame.leafL;
      var x := SplitRange(frame.leafL, count);
      NearestMore(done, repCount, best, x);
      LargestMore(done, Preferred(repCount), preferred, x);
      PreferredIs(repCount, x);
      if Candidate(x, repCount) {
        var score := Distance(count, target);
        if best.None? || score < Distance(best.value.count, target) {
          best := Some(x);
        }
        if minPreferred <= count <= target && (preferred.None? || count > preferred.value.count) {
          preferred := Some(x);
        }
      }
      done := done + [x];
      var i := frame.node;
      stack := PushIf(right[i] != -1, stack, RouteFrame(right[i], i + 1, frame.leafR));
      stack := PushIf(left[i] != -1, stack, RouteFrame(left[i], frame.leafL, i + 1));
    }
    ScanEnd(diffs, ls, rs, pending, done);
    BestExists(diffs, insertSlot, best, preferred);
    if preferred.Some? {
      return preferred.value;
    }
    return best.value;
  }

  ghost predicate Balanced(c: nat, n: nat) {
    3 * c <= 2 * n && (if n % 2 == 0 then n <= 3 * c else n <= 3 * c + 3)
  }

  lemma EdgeChosen(rs: seq<SplitRange>, n: nat, slot: int, best: Option<SplitRange>)
    requires FirstLargest(rs, AwayFrom(slot, n), best) && (slot == 0 || slot == n - 1)
    ensures best.Some? ==> best.value in rs && Candidate(best.value, n) && Chooses(rs, n, slot, best.value)
    ensures best.None? ==> NoneAway(rs, n, slot)
  {
    LargestMeans(rs, AwayFrom(slot, n), best);
  }

  ghost predicate NoneAway(rs: seq<SplitRange>, n: nat, slot: int) {
    forall x :: x in rs ==> !AwayFrom(slot, n)(x)
  }

  lemma BestExists(ds: seq<nat>, slot: int, best: Option<SplitRange>, preferred: Option<SplitRange>)
    requires |ds| >= 3
    requires var rs, n := Ranges(ds, 0, |ds|), |ds| + 1;
      && FirstNearest(rs, n, best) && FirstLargest(rs, Preferred(n), preferred)
      && (slot == 0 || slot == n - 1 ==> NoneAway(rs, n, slot))
    ensures best.Some? && best.value in Ranges(ds, 0, |ds|)
    ensures Candidate(best.value, |ds| + 1) && Balanced(best.value.count, |ds| + 1)
    ensures preferred.Some? ==> preferred.value in Ranges(ds, 0, |ds|) && Candidate(preferred.value, |ds| + 1)
    ensures preferred.Some? ==> Balanced(preferred.value.count, |ds| + 1)
    ensures Chooses(Ranges(ds, 0, |ds|), |ds| + 1, slot, if preferred.Some? then preferred.value else best.value)
    ensures |ds| == 339 ==> 114 <= best.value.count <= 226
    ensures |ds| == 339 && preferred.Some? ==> 114 <= preferred.value.count <= 226
  {
    hide *;
    var rs, n := Ranges(ds, 0, |ds|), |ds| + 1;
    var h := HeavyNode(ds, 0, |ds|, n);
    HeavyFits(h, n);
    NearestMeans(rs, n, best);
    NearestBalanced(best.value.count, h.count, n);
    LargestMeans(rs, Preferred(n), preferred);
    if preferred.Some? {
      PreferredFits(n, preferred.value);
      PageBalance(preferred.value.count, n);
    }
    OtherChosen(rs, n, slot, best, preferred);
    PageBalance(best.value.count, n);
  }

  /** Away from the ends, what is chosen is about a third to two thirds of the slots. */
  lemma ChosenBalanced(ds: seq<nat>, slot: int, r: SplitRange)
    requires |ds| >= 3 && slot != 0 && slot != |ds| && Chooses(Ranges(ds, 0, |ds|), |ds| + 1, slot, r)
    ensures Balanced(r.count, |ds| + 1)
  {
    hide Ranges, FirstNearest, FirstLargest;
    var rs, n := Ranges(ds, 0, |ds|), |ds| + 1;
    if FirstLargest(rs, Preferred(n), Some(r)) {
      LargestMeans(rs, Preferred(n), Some(r));
      PreferredFits(n, r);
    } else {
      var h := HeavyNode(ds, 0, |ds|, n);
      HeavyFits(h, n);
      NearestMeans(rs, n, Some(r));
      NearestBalanced(r.count, h.count, n);
    }
  }

  lemma HeavyFits(h: SplitRange, n: nat)
    requires n >= 4 && n < 3 * h.count <= 2 * n
    ensures Candidate(h, n)
  {
  }

  /** What is as near to half of n as something between a third and two thirds is about there. */
  lemma NearestBalanced(c: nat, h: nat, n: nat)
    requires n < 3 * h <= 2 * n && Distance(c, n / 2) <= Distance(h, n / 2)
    ensures Balanced(c, n)
  {
  }

  lemma PreferredFits(n: nat, x: SplitRange)
    requires Preferred(n)(x)
    ensures Candidate(x, n) && Balanced(x.count, n)
  {
  }

  lemma PageBalance(c: nat, n: nat)
    requires Balanced(c, n)
    ensures n == 340 ==> 114 <= c <= 226
  {
  }

  lemma OtherChosen(rs: seq<SplitRange>, n: nat, slot: int, best: Option<SplitRange>, preferred: Option<SplitRange>)
    requires FirstNearest(rs, n, best) && FirstLargest(rs, Preferred(n), preferred) && best.Some?
    requires slot == 0 || slot == n - 1 ==> NoneAway(rs, n, slot)
    ensures Chooses(rs, n, slot, if preferred.Some? then preferred.value else best.value)
  {
    hide FirstNearest, FirstLargest;
    LargestMeans(rs, Preferred(n), preferred);
  }
}
