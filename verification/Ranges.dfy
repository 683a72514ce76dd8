/** What a range iteration has to visit, said without pages: the stored keys within the
    bounds, in order, up to the first one at which the caller stops. */
module Ranges {
  import opened Sequences
  import opened Wrappers
  import opened Keys
  import opened Patricia
  import opened Ranking

  datatype IterItem = IterItem(key: Key, pos: Position)

  /** Bounds on keys; lowIn and highIn say whether a bound itself belongs to the range. */
  datatype Bounds = Bounds(low: Option<Key>, lowIn: bool, high: Option<Key>, highIn: bool)

  predicate Inside(key: Key, b: Bounds) {
    && (b.low.Some? ==> if b.lowIn then !Less(key, b.low.value) else Less(b.low.value, key))
    && (b.high.Some? ==> if b.highIn then !Less(b.high.value, key) else Less(key, b.high.value))
  }

  ghost predicate Known(order: seq<Position>, k: Records) {
    forall i :: 0 <= i < |order| ==> order[i] in k
  }

  /** The items of the order that lie within the bounds. */
  ghost function Select(order: seq<Position>, k: Records, b: Bounds): (items: seq<IterItem>)
    requires Known(order, k)
    ensures forall x :: x in items ==> x.pos in order && x.pos in k && x.key == k[x.pos] && Inside(x.key, b)
    ensures forall p :: p in order && Inside(k[p], b) ==> IterItem(k[p], p) in items
  {
    if order == [] then []
    else
      var n := |order| - 1;
      assert order == order[..n] + [order[n]];
      Select(order[..n], k, b) + if Inside(k[order[n]], b) then [IterItem(k[order[n]], order[n])] else []
  }

  ghost function Backwards<T>(s: seq<T>): (r: seq<T>)
    ensures |r| == |s| && forall i :: 0 <= i < |s| ==> r[i] == s[|s| - 1 - i]
  {
    if s == [] then [] else [s[|s| - 1]] + Backwards(s[..|s| - 1])
  }

  /** out are the items visited: all of them, unless the caller stops at the last. */
  ghost predicate Visits(out: seq<IterItem>, items: seq<IterItem>, keep: (Key, Position) -> bool) {
    && out <= items
    && (forall i :: 0 <= i < |out| - 1 ==> keep(out[i].key, out[i].pos))
    && (out != items ==> out != [] && !keep(out[|out| - 1].key, out[|out| - 1].pos))
  }

  /** The ascending loop from the front of an order. */
  ghost function Ascending(order: seq<Position>, k: Records, upper: Option<Key>,
                           keep: (Key, Position) -> bool): seq<IterItem>
    requires Known(order, k)
  {
    if order == [] then []
    else
      var key := k[order[0]];
      if upper.Some? && !Less(key, upper.value) then []
      else [IterItem(key, order[0])] + if keep(key, order[0]) then Ascending(order[1..], k, upper, keep) else []
  }

  /** The descending loop from the back of an order. */
  ghost function Descending(order: seq<Position>, k: Records, lower: Option<Key>,
                            keep: (Key, Position) -> bool): seq<IterItem>
    requires Known(order, k)
    decreases |order|
  {
    if order == [] then []
    else
      var n := |order| - 1;
      var key := k[order[n]];
      if lower.Some? && !Less(lower.value, key) then []
      else [IterItem(key, order[n])] + if keep(key, order[n]) then Descending(order[..n], k, lower, keep) else []
  }

  /** From item r of the order on. */
  ghost function AscendingFrom(order: seq<Position>, k: Records, r: nat, upper: Option<Key>,
                               keep: (Key, Position) -> bool): seq<IterItem>
    requires Known(order, k) && r <= |order|
  {
    Ascending(order[r..], k, upper, keep)
  }

  /** From the item before place r on. */
  ghost function DescendingFrom(order: seq<Position>, k: Records, r: nat, lower: Option<Key>,
                                keep: (Key, Position) -> bool): seq<IterItem>
    requires Known(order, k) && r <= |order|
  {
    Descending(order[..r], k, lower, keep)
  }

  lemma AscendingStep(order: seq<Position>, k: Records, r: nat, upper: Option<Key>, keep: (Key, Position) -> bool)
    requires Known(order, k) && r < |order|
    ensures order[r] in k
    ensures var item := IterItem(k[order[r]], order[r]);
      AscendingFrom(order, k, r, upper, keep) ==
        if upper.Some? && !Less(item.key, upper.value) then []
        else if keep(item.key, item.pos) then [item] + AscendingFrom(order, k, r + 1, upper, keep)
        else [item]
    ensures AscendingFrom(order, k, |order|, upper, keep) == []
  {
    assert order[r..][1..] == order[r + 1..];
  }

  lemma DescendingStep(order: seq<Position>, k: Records, r: nat, lower: Option<Key>, keep: (Key, Position) -> bool)
    requires Known(order, k) && 0 < r <= |order|
    ensures order[r - 1] in k
    ensures var item := IterItem(k[order[r - 1]], order[r - 1]);
      DescendingFrom(order, k, r, lower, keep) ==
        if lower.Some? && !Less(lower.value, item.key) then []
        else if keep(item.key, item.pos) then [item] + DescendingFrom(order, k, r - 1, lower, keep)
        else [item]
    ensures DescendingFrom(order, k, 0, lower, keep) == []
  {
    assert order[..r][..r - 1] == order[..r - 1];
  }

  lemma SelectSnoc(order: seq<Position>, p: Position, k: Records, b: Bounds)
    requires Known(order, k) && Known(order + [p], k)
    ensures p in k && Select(order + [p], k, b)
      == Select(order, k, b) + if Inside(k[p], b) then [IterItem(k[p], p)] else []
  {
    hide Inside;
    assert (order + [p])[..|order|] == order && (order + [p])[|order|] == p;
  }

  lemma KnownConcat(a: seq<Position>, c: seq<Position>, k: Records)
    requires Known(a, k) && Known(c, k)
    ensures Known(a + c, k)
  {
  }

  lemma {:induction false} SelectConcat(a: seq<Position>, c: seq<Position>, k: Records, b: Bounds)
    requires Known(a, k) && Known(c, k)
    ensures Known(a + c, k) && Select(a + c, k, b) == Select(a, k, b) + Select(c, k, b)
    decreases |c|
  {
    KnownConcat(a, c, k);
    hide Known, Inside;
    if c == [] {
      assert a + c == a && Select(a, k, b) + [] == Select(a, k, b);
    } else {
      hide Select;
      var n := |c| - 1;
      var p, rest := c[n], c[..n];
      assert rest + [p] == c && (a + rest) + [p] == a + c;
      KnownFront(rest, p, k);
      KnownConcat(a, rest, k);
      SelectConcat(a, rest, k, b);
      SelectSnoc(a + rest, p, k, b);
      SelectSnoc(rest, p, k, b);
      ConcatThree(Select(a, k, b), Select(rest, k, b), if Inside(k[p], b) then [IterItem(k[p], p)] else []);
    }
  }

  lemma KnownFront(order: seq<Position>, p: Position, k: Records)
    requires Known(order + [p], k)
    ensures Known(order, k) && p in k
  {
    forall i | 0 <= i < |order| ensures order[i] in k {
      assert (order + [p])[i] in k;
    }
    assert (order + [p])[|order|] == p;
  }

  lemma {:induction false} SelectNone(order: seq<Position>, k: Records, b: Bounds)
    requires Known(order, k) && forall i :: 0 <= i < |order| ==> !Inside(k[order[i]], b)
    ensures Select(order, k, b) == []
  {
    if order != [] {
      SelectNone(order[..|order| - 1], k, b);
    }
  }

  lemma SelectFirst(order: seq<Position>, k: Records, b: Bounds)
    requires Known(order, k) && order != []
    ensures Known(order[1..], k)
    ensures Select(order, k, b) ==
      (if Inside(k[order[0]], b) then [IterItem(k[order[0]], order[0])] else []) + Select(order[1..], k, b)
  {
    assert order == [order[0]] + order[1..];
    SelectConcat([order[0]], order[1..], k, b);
    assert [order[0]][..0] == [];
  }

  ghost predicate Ordered(order: seq<Position>, k: Records) {
    Known(order, k) && forall i, j :: 0 <= i < j < |order| ==> Less(k[order[i]], k[order[j]])
  }

  /** Past the upper bound nothing is left to visit. */
  lemma BeyondHigh(order: seq<Position>, k: Records, b: Bounds)
    requires Ordered(order, k) && order != [] && b.high.Some? && !b.highIn && !Less(k[order[0]], b.high.value)
    ensures Select(order, k, b) == []
  {
    forall i | 0 <= i < |order| ensures !Inside(k[order[i]], b) {
      if i > 0 && Less(k[order[i]], b.high.value) {
        LessTransitive(k[order[0]], k[order[i]], b.high.value);
      }
    }
    SelectNone(order, k, b);
  }

  /** The loop visits just the items of the range, as long as the caller goes on. */
  lemma {:induction false} AscendingExact(order: seq<Position>, k: Records, b: Bounds, keep: (Key, Position) -> bool)
    requires Ordered(order, k) && !b.highIn
    requires forall i :: 0 <= i < |order| ==> Inside(k[order[i]], b.(high := None))
    ensures Visits(Ascending(order, k, b.high, keep), Select(order, k, b), keep)
    decreases |order|
  {
    if order != [] {
      if b.high.Some? && !Less(k[order[0]], b.high.value) {
        BeyondHigh(order, k, b);
      } else {
        SelectFirst(order, k, b);
        if keep(k[order[0]], order[0]) {
          AscendingExact(order[1..], k, b, keep);
          VisitsMore(IterItem(k[order[0]], order[0]), Ascending(order[1..], k, b.high, keep), Select(order[1..], k, b),
                     keep);
        }
      }
    }
  }

  lemma VisitsMore(x: IterItem, out: seq<IterItem>, items: seq<IterItem>, keep: (Key, Position) -> bool)
    requires Visits(out, items, keep) && keep(x.key, x.pos)
    ensures Visits([x] + out, [x] + items, keep)
  {
    assert [x] + out != [x] + items ==> out != items;
    assert ([x] + items)[..1 + |out|] == [x] + items[..|out|];
  }

  lemma BeyondLow(order: seq<Position>, k: Records, b: Bounds)
    requires Ordered(order, k) && order != [] && b.low.Some? && !b.lowIn && !Less(b.low.value, k[order[|order| - 1]])
    ensures Select(order, k, b) == []
  {
    var n := |order| - 1;
    forall i | 0 <= i < |order| ensures !Inside(k[order[i]], b) {
      if i < n && Less(b.low.value, k[order[i]]) {
        LessTransitive(b.low.value, k[order[i]], k[order[n]]);
      }
    }
    SelectNone(order, k, b);
  }

  lemma {:induction false} DescendingExact(order: seq<Position>, k: Records, b: Bounds, keep: (Key, Position) -> bool)
    requires Ordered(order, k) && !b.lowIn
    requires forall i :: 0 <= i < |order| ==> Inside(k[order[i]], b.(low := None))
    ensures Visits(Descending(order, k, b.low, keep), Backwards(Select(order, k, b)), keep)
    decreases |order|
  {
    if order != [] {
      var n := |order| - 1;
      if b.low.Some? && !Less(b.low.value, k[order[n]]) {
        BeyondLow(order, k, b);
      } else {
        var x := IterItem(k[order[n]], order[n]);
        var rest := Select(order[..n], k, b);
        assert (rest + [x])[..|rest|] == rest;
        assert Backwards(Select(order, k, b)) == [x] + Backwards(rest);
        if keep(x.key, x.pos) {
          DescendingExact(order[..n], k, b, keep);
          VisitsMore(x, Descending(order[..n], k, b.low, keep), Backwards(rest), keep);
        }
      }
    }
  }

  /** The items of a range come in key order, each key once. */
  lemma {:induction false} SelectOrdered(order: seq<Position>, k: Records, b: Bounds)
    requires Ordered(order, k)
    ensures forall i, j :: 0 <= i < j < |Select(order, k, b)| ==>
      Less(Select(order, k, b)[i].key, Select(order, k, b)[j].key)
  {
    if order != [] {
      var n := |order| - 1;
      SelectOrdered(order[..n], k, b);
      forall x | x in Select(order[..n], k, b) ensures Less(x.key, k[order[n]]) {
        assert x.pos in order[..n];
      }
    }
  }

  // ------------------------------------------------------------- from a place on

  /** Ascending from the first key that is not below the range. */
  lemma AscendFrom(order: seq<Position>, k: Records, b: Bounds, r: nat, keep: (Key, Position) -> bool)
    requires Ordered(order, k) && b.lowIn && !b.highIn && r <= |order|
    requires if b.low.Some? then SeekPlace(order, k, b.low.value, r) else r == 0
    ensures Visits(AscendingFrom(order, k, r, b.high, keep), Select(order, k, b), keep)
  {
    hide Less, Select, Ascending, Visits;
    assert order == order[..r] + order[r..];
    SelectConcat(order[..r], order[r..], k, b);
    SelectNone(order[..r], k, b);
    assert Select(order, k, b) == Select(order[r..], k, b);
    AscendingExact(order[r..], k, b, keep);
  }

  /** Descending from the last key that is not above the range. */
  lemma DescendFrom(order: seq<Position>, k: Records, b: Bounds, r: nat, keep: (Key, Position) -> bool)
    requires Ordered(order, k) && b.highIn && !b.lowIn && r <= |order|
    requires forall i :: 0 <= i < |order| ==> (i < r <==> Inside(k[order[i]], b.(low := None)))
    ensures Visits(DescendingFrom(order, k, r, b.low, keep), Backwards(Select(order, k, b)), keep)
  {
    hide Less, Select, Descending, Visits;
    assert order == order[..r] + order[r..];
    forall i | r <= i < |order| ensures !Inside(k[order[i]], b) {
      assert !Inside(k[order[i]], b.(low := None));
    }
    SelectConcat(order[..r], order[r..], k, b);
    SelectNone(order[r..], k, b);
    assert Select(order, k, b) == Select(order[..r], k, b);
    DescendingExact(order[..r], k, b, keep);
  }

  /** Which keys are at most high, given the place of high. */
  lemma HighPlace(order: seq<Position>, k: Records, b: Bounds, r: nat, equal: bool)
    requires Ordered(order, k) && b.high.Some? && b.highIn && SeekPlace(order, k, b.high.value, r)
    requires equal <==> r < |order| && k[order[r]] == b.high.value
    ensures forall i :: 0 <= i < |order| ==>
      (i < (if equal then r + 1 else r) <==> Inside(k[order[i]], b.(low := None)))
  {
    hide Less;
    forall i | 0 <= i < |order|
      ensures i < (if equal then r + 1 else r) <==> !Less(b.high.value, k[order[i]])
    {
      LessTotal(b.high.value, k[order[i]]);
      if i > r && equal {
        assert Less(k[order[r]], k[order[i]]);
      }
    }
  }
}
