/** Paths as places in the key order: how many records lie before a page or a slot reached
    through the pages. */
module Ranking {
  import opened Keys
  import opened Patricia
  import opened PageTree
  import opened NodePages
  import opened Paging
  import opened Boundary
  import opened Search
  import opened Insertion
  import opened Accounting
  import opened Sequences

  /** The records before the page at the end of the path. */
  ghost function Rank(w: Tree, path: seq<nat>): nat
    requires Leads(w, path)
    decreases |path|
  {
    if path == [] then 0 else Offset(w.body, path[0]) + Rank(LeafAt(w.body, path[0]), path[1..])
  }

  lemma {:induction false} RankUp(w: Tree, path: seq<nat>, leaf: nat)
    requires Leads(w, path + [leaf])
    ensures Leads(w, path) && leaf < Count(SubAt(w, path).body)
    ensures SubAt(w, path + [leaf]) == LeafAt(SubAt(w, path).body, leaf)
    ensures Rank(w, path + [leaf]) == Rank(w, path) + Offset(SubAt(w, path).body, leaf)
    decreases |path|
  {
    if path == [] {
      assert (path + [leaf])[1..] == [];
      assert Leads(LeafAt(w.body, leaf), []);
    } else {
      assert (path + [leaf])[1..] == path[1..] + [leaf];
      RankUp(LeafAt(w.body, path[0]), path[1..], leaf);
    }
  }

  /** The records of a page lie together in the order. */
  lemma {:induction false} RankFlat(w: Tree, path: seq<nat>)
    requires Leads(w, path)
    ensures Rank(w, path) + |Flat(SubAt(w, path))| <= |Flat(w)|
    ensures Flat(w)[Rank(w, path)..Rank(w, path) + |Flat(SubAt(w, path))|] == Flat(SubAt(w, path))
    decreases |path|
  {
    hide Flat, Offset;
    FlatSub(w);
    if path == [] {
      WholeSlice(Flat(w));
    } else {
      var leaf := LeafAt(w.body, path[0]);
      OffsetStep(w.body, path[0]);
      RankFlat(leaf, path[1..]);
      var a, n := Offset(w.body, path[0]), |Flat(SubAt(leaf, path[1..]))|;
      SliceOfSlice(Flat(w), a, Offset(w.body, path[0] + 1), Rank(leaf, path[1..]), Rank(leaf, path[1..]) + n);
    }
  }

  lemma ItemOfSlice<T>(s: seq<T>, a: nat, n: nat, o: nat, x: T)
    requires a + n <= |s| && o < n && s[a..a + n][o..o + 1] == [x]
    ensures s[a + o] == x
  {
    assert s[a..a + n][o..o + 1][0] == s[a..a + n][o];
  }

  /** The place of the slot that the last of the frames chooses. */
  ghost function Place(w: Tree, frames: seq<PutFrame>): nat
    requires frames != [] && Follows(w, frames)
  {
    var n := |frames| - 1;
    FollowsAt(w, frames, n);
    Rank(w, Slots(frames, n)) + Offset(SubAt(w, Slots(frames, n)).body, frames[n].leaf)
  }

  /** The frames lead to the record at place r. */
  ghost predicate AtRecord(w: Tree, frames: seq<PutFrame>, r: nat) {
    && frames != [] && Follows(w, frames) && Place(w, frames) == r
    && FollowsTo(w, frames, |frames| - 1)
    && LeafAt(SubAt(w, Slots(frames, |frames| - 1)).body, frames[|frames| - 1].leaf).Rec?
  }

  lemma AtRecordMeans(w: Tree, frames: seq<PutFrame>, r: nat)
    requires AtRecord(w, frames, r)
    ensures frames != [] && Follows(w, frames) && Place(w, frames) == r
    ensures var n := |frames| - 1;
      && Leads(w, Slots(frames, n)) && frames[n].leaf < Count(SubAt(w, Slots(frames, n)).body)
      && r < |Flat(w)| && LeafAt(SubAt(w, Slots(frames, n)).body, frames[n].leaf) == Rec(Flat(w)[r])
  {
    hide Flat, Offset, SubAt, LeafAt, Follows, Leads, Rank;
    var n := |frames| - 1;
    FollowsAt(w, frames, n);
    var s := SubAt(w, Slots(frames, n));
    RankFlat(w, Slots(frames, n));
    FlatSub(s);
    OffsetStep(s.body, frames[n].leaf);
    var leaf := LeafAt(s.body, frames[n].leaf);
    FlatRec(leaf);
    ItemOfSlice(Flat(w), Rank(w, Slots(frames, n)), |Flat(s)|, Offset(s.body, frames[n].leaf), leaf.pos);
  }

  // ------------------------------------------------------------ moving the frames

  /** The frames lead to the page cur, with r records before it. */
  ghost predicate OnPage(w: Tree, frames: seq<PutFrame>, cur: Tree, r: nat) {
    && Follows(w, frames) && Leads(w, Slots(frames, |frames|)) && cur == SubAt(w, Slots(frames, |frames|))
    && Rank(w, Slots(frames, |frames|)) == r
  }

  lemma OnRoot(w: Tree)
    requires w.Sub?
    ensures OnPage(w, [], w, 0)
  {
    assert Slots([], 0) == [];
  }

  lemma {:induction false} FollowsPrefix(w: Tree, frames: seq<PutFrame>, n: nat)
    requires Follows(w, frames) && n <= |frames|
    ensures Follows(w, frames[..n])
  {
    forall m: nat | m < n ensures FollowsTo(w, frames[..n], m) {
      assert FollowsTo(w, frames, m);
      assert Slots(frames[..n], m) == Slots(frames, m);
    }
  }

  /** Choosing slot i of the page cur. */
  lemma Choose(w: Tree, frames: seq<PutFrame>, cur: Tree, r: nat, i: nat)
    requires OnPage(w, frames, cur, r) && cur.Sub? && i < Count(cur.body)
    ensures var frames2 := frames + [PutFrame(cur.id, i)];
      var leaf := LeafAt(cur.body, i);
      && Follows(w, frames2) && Place(w, frames2) == r + Offset(cur.body, i)
      && (leaf.Rec? ==> AtRecord(w, frames2, r + Offset(cur.body, i)))
      && (leaf.Sub? ==> OnPage(w, frames2, leaf, r + Offset(cur.body, i)) && leaf < cur)
  {
    hide Offset, LeafAt, Rank;
    var f := PutFrame(cur.id, i);
    var frames2 := frames + [f];
    forall n: nat | n < |frames2| ensures FollowsTo(w, frames2, n) {
      SlotsPrefix(frames, f, n);
      assert n < |frames| ==> FollowsTo(w, frames, n);
    }
    SlotsPrefix(frames, f, |frames|);
    var leaf := LeafAt(cur.body, i);
    if leaf.Sub? {
      SlotsNext(frames2, |frames|);
      LeadsDown(w, Slots(frames, |frames|), i);
      RankUp(w, Slots(frames, |frames|), i);
      LeafSmaller(cur.body, i);
    }
  }

  /** The page of the last frame. */
  lemma TopPage(w: Tree, frames: seq<PutFrame>)
    requires frames != [] && Follows(w, frames)
    ensures var n := |frames| - 1;
      && Leads(w, Slots(frames, n)) && frames[n].id == SubAt(w, Slots(frames, n)).id
      && frames[n].leaf < Count(SubAt(w, Slots(frames, n)).body)
      && var cur, r := SubAt(w, Slots(frames, n)), Rank(w, Slots(frames, n));
      && OnPage(w, frames[..n], cur, r) && Place(w, frames) == r + Offset(cur.body, frames[n].leaf)
      && (forall i: nat :: frames[n := frames[n].(leaf := i)] == frames[..n] + [PutFrame(cur.id, i)])
  {
    var n := |frames| - 1;
    FollowsAt(w, frames, n);
    FollowsPrefix(w, frames, n);
    assert Slots(frames[..n], n) == Slots(frames, n);
  }

  /** The page of the last frame is what the frame before it chose. */
  lemma PopPage(w: Tree, frames: seq<PutFrame>, cur: Tree, r: nat)
    requires frames != [] && OnPage(w, frames, cur, r)
    ensures Follows(w, frames) && Place(w, frames) == r
    ensures var n := |frames| - 1;
      && Leads(w, Slots(frames, n)) && frames[n].leaf < Count(SubAt(w, Slots(frames, n)).body)
      && LeafAt(SubAt(w, Slots(frames, n)).body, frames[n].leaf) == cur
  {
    var n := |frames| - 1;
    SlotsNext(frames, n);
    RankUp(w, Slots(frames, n), frames[n].leaf);
  }

  // ------------------------------------------------------------- insertion places

  /** A record that enters a page enters its order at the slot it gets. */
  lemma {:induction false} FlatInsert(t: Tree, key: Key, diff: nat, pos: Position)
    ensures var o := Offset(t, InsertSlot(t, key, diff));
      Flat(InsertHere(t, key, diff, pos)) == Exchange(Flat(t), o, o, [pos])
  {
    hide Flat, Offset;
    OffsetEnds(t);
    match t
    case Node(d, l, r) =>
      FlatNode(t);
      OffsetNode(t, InsertSlot(t, key, diff));
      FlatNode(InsertHere(t, key, diff, pos));
      if diff < d {
        FlatJoin(t, key, diff, pos);
      } else if !Bit(key, d) {
        FlatInsert(l, key, diff, pos);
        ExchangeLeft(Flat(l), Flat(r), Offset(l, InsertSlot(l, key, diff)), Offset(l, InsertSlot(l, key, diff)), [pos]);
      } else {
        FlatInsert(r, key, diff, pos);
        ExchangeRight(Flat(l), Flat(r), |Flat(l)| + Offset(r, InsertSlot(r, key, diff)),
                      |Flat(l)| + Offset(r, InsertSlot(r, key, diff)), [pos]);
      }
    case _ => FlatJoin(t, key, diff, pos);
  }

  lemma FlatJoin(t: Tree, key: Key, diff: nat, pos: Position)
    ensures var o := if Bit(key, diff) then |Flat(t)| else 0;
      Flat(Join(t, key, diff, pos)) == Exchange(Flat(t), o, o, [pos])
  {
  }

  lemma OffsetNode(t: Tree, i: nat)
    requires t.Node? && i <= Count(t)
    ensures i <= Count(t.left) ==> Offset(t, i) == Offset(t.left, i)
    ensures i >= Count(t.left) ==> Offset(t, i) == |Flat(t.left)| + Offset(t.right, i - Count(t.left))
  {
    OffsetEnds(t.left);
    OffsetEnds(t.right);
  }

  /** Refilling a slot exchanges its stretch of the order. */
  lemma {:induction false} FlatSetLeaf(t: Tree, i: nat, s: Tree)
    requires i < Count(t)
    ensures Offset(t, i + 1) == Offset(t, i) + |Flat(LeafAt(t, i))|
    ensures Flat(SetLeaf(t, i, s)) == Exchange(Flat(t), Offset(t, i), Offset(t, i + 1), Flat(s))
  {
    hide Flat, Offset;
    OffsetStep(t, i);
    match t
    case Node(_, l, r) =>
      hide Exchange;
      FlatNode(t);
      OffsetNode(t, i);
      OffsetNode(t, i + 1);
      if i < Count(l) {
        FlatNode(Node(t.diff, SetLeaf(l, i, s), r));
        FlatSetLeaf(l, i, s);
        ExchangeLeft(Flat(l), Flat(r), Offset(l, i), Offset(l, i + 1), Flat(s));
      } else {
        FlatNode(Node(t.diff, l, SetLeaf(r, i - Count(l), s)));
        FlatSetLeaf(r, i - Count(l), s);
        ExchangeRight(Flat(l), Flat(r), Offset(t, i), Offset(t, i + 1), Flat(s));
      }
    case _ =>
      OffsetEnds(t);
      CutAll(Flat(t), Flat(s));
  }

  /** Exchanging a page exchanges its stretch of the order. */
  lemma {:induction false} FlatGraft(w: Tree, path: seq<nat>, s: Tree)
    requires Leads(w, path) && s.Sub? && s.id == SubAt(w, path).id
    ensures var r := Rank(w, path);
      && r + |Flat(SubAt(w, path))| <= |Flat(w)|
      && Flat(Graft(w, path, s)) == Exchange(Flat(w), r, r + |Flat(SubAt(w, path))|, Flat(s))
    decreases |path|
  {
    hide Flat, Offset;
    RankFlat(w, path);
    FlatSub(w);
    FlatSub(Graft(w, path, s));
    if path == [] {
      CutAll(Flat(w), Flat(s));
    } else {
      var i := path[0];
      var leaf := LeafAt(w.body, i);
      var g := Graft(leaf, path[1..], s);
      FlatGraft(leaf, path[1..], s);
      FlatSetLeaf(w.body, i, g);
      OffsetStep(w.body, i);
      ExchangeInside(Flat(w), Offset(w.body, i), Offset(w.body, i + 1), Rank(leaf, path[1..]),
                     Rank(leaf, path[1..]) + |Flat(SubAt(leaf, path[1..]))|, Flat(s));
    }
  }

  lemma ExchangeInside<T>(s: seq<T>, a: nat, b: nat, i: nat, j: nat, m: seq<T>)
    requires a <= b <= |s| && i <= j <= b - a
    ensures Exchange(s, a, b, Exchange(s[a..b], i, j, m)) == Exchange(s, a + i, a + j, m)
  {
  }

  /** The place where key is, or would be: everything before is smaller. */
  ghost predicate SeekPlace(order: seq<Position>, k: Records, key: Key, r: nat) {
    && r <= |order|
    && (forall i :: 0 <= i < r ==> order[i] in k && Less(k[order[i]], key))
    && (forall i :: r <= i < |order| ==> order[i] in k && !Less(k[order[i]], key))
  }

  /** A position not yet in use. */
  ghost function Beyond(s: seq<Position>): (p: Position)
    ensures forall q :: q in s ==> q < p
  {
    if s == [] then 0
    else
      var p := Beyond(s[..|s| - 1]);
      assert s == s[..|s| - 1] + [s[|s| - 1]];
      if s[|s| - 1] < p then p else s[|s| - 1] + 1
  }

  /** Where InsertSlotFromPath points to, everything before is smaller than the new key and
      everything behind is greater. */
  lemma InsertionPlace(w: Tree, k: Records, frames: seq<PutFrame>, key: Key, diff: nat, target: nat)
    requires w.Sub? && Valid(w, k) && Reached(w, frames, key) && Target(w, frames, key, diff, target)
    requires Best(w, key) in k && FirstDiff(key, k[Best(w, key)], diff)
    ensures target < |frames| && Leads(w, Slots(frames, target))
    ensures var body := BodyAt(w, frames, target);
      var r := Rank(w, Slots(frames, target)) + Offset(body, InsertSlot(body, key, diff));
      SeekPlace(Flat(w), k, key, r) && forall i :: r <= i < |Flat(w)| ==> Less(key, k[Flat(w)[i]])
  {
    hide Flat, Offset, Insert, InsertHere, Rank, Graft, SubAt, Leads, Best, Reached, InsertSlot, Patricia.Valid, Less;
    var path, body := Slots(frames, target), BodyAt(w, frames, target);
    BodyOf(w, frames, target);
    var s := SubAt(w, path);
    var pos := Beyond(Flat(w));
    var k2 := k[pos := key];
    FlatIsAll(w);
    ValidRecords(w, k);
    RecordsMayGrow(w, k, k2);
    InsertValid(w, k2, key, diff, pos);
    FlatSorted(Insert(w, key, diff, pos), k2);
    InsertDown(w, frames, key, diff, pos, target);
    InsertAtTarget(w, frames, key, diff, pos, target);
    FlatGraft(w, path, Insert(s, key, diff, pos));
    FlatSub(s);
    FlatSub(Insert(s, key, diff, pos));
    FlatInsert(body, key, diff, pos);
    RankFlat(w, path);
    var a, o := Rank(w, path), Offset(body, InsertSlot(body, key, diff));
    ExchangeInside(Flat(w), a, a + |Flat(s)|, o, o, [pos]);
    SortedAround(Flat(w), k, key, a + o, pos);
  }

  /** Every slot holds records, so only the first begins at 0 and only the end is at the end. */
  lemma {:induction false} OffsetInside(t: Tree, i: nat)
    requires i <= Count(t)
    ensures Offset(t, i) == 0 <==> i == 0
    ensures Offset(t, i) <= |Flat(t)| && (Offset(t, i) == |Flat(t)| <==> i == Count(t))
  {
    hide Flat, Offset;
    OffsetEnds(t);
    match t
    case Node(_, l, r) =>
      FlatNode(t);
      OffsetNode(t, i);
      if i <= Count(l) {
        OffsetInside(l, i);
      }
      if i >= Count(l) {
        OffsetInside(r, i - Count(l));
      }
    case _ =>
  }

  /** The first records of the whole index lie below the first slots, the last ones below the
      last slots. */
  lemma {:induction false} RankEnds(w: Tree, path: seq<nat>)
    requires Leads(w, path)
    ensures Rank(w, path) + |Flat(SubAt(w, path))| <= |Flat(w)|
    ensures Rank(w, path) == 0 <==> forall i :: 0 <= i < |path| ==> path[i] == 0
    ensures Rank(w, path) + |Flat(SubAt(w, path))| == |Flat(w)| <==> LastSlots(w, path)
    decreases |path|
  {
    hide Flat, Offset;
    if path != [] {
      var leaf, rest := LeafAt(w.body, path[0]), path[1..];
      FlatSub(w);
      OffsetInside(w.body, path[0]);
      OffsetInside(w.body, path[0] + 1);
      OffsetStep(w.body, path[0]);
      RankEnds(leaf, rest);
      assert forall i :: 0 <= i < |rest| ==> rest[i] == path[i + 1];
      if forall i :: 0 <= i < |rest| ==> rest[i] == 0 {
        assert path[0] == 0 ==> forall i :: 0 <= i < |path| ==> path[i] == if i == 0 then path[0] else rest[i - 1];
      }
    }
  }

  /** The path takes the last slot on every page. */
  ghost predicate LastSlots(w: Tree, path: seq<nat>)
    requires Leads(w, path)
    decreases |path|
  {
    path == [] || (path[0] + 1 == Count(w.body) && LastSlots(LeafAt(w.body, path[0]), path[1..]))
  }

  lemma {:induction false} LastSlotsUp(w: Tree, path: seq<nat>, leaf: nat)
    requires Leads(w, path + [leaf]) && Leads(w, path)
    ensures LastSlots(w, path + [leaf]) <==> LastSlots(w, path) && leaf + 1 == Count(SubAt(w, path).body)
    decreases |path|
  {
    if path == [] {
      assert (path + [leaf])[1..] == [];
    } else {
      assert (path + [leaf])[1..] == path[1..] + [leaf];
      LastSlotsUp(LeafAt(w.body, path[0]), path[1..], leaf);
    }
  }

  lemma {:induction false} FramesLast(w: Tree, frames: seq<PutFrame>, key: Key, n: nat, view: map<nat, PageView>)
    requires Reached(w, frames, key) && n < |frames| && Distinct(w) && view == Views(w)
    ensures Leads(w, Slots(frames, n)) && forall i :: 0 <= i < n ==> frames[i].id in view
    ensures LastSlots(w, Slots(frames, n)) <==>
      forall i :: 0 <= i < n ==> frames[i].leaf + 1 == |view[frames[i].id].reps|
    decreases n
  {
    hide Reached, Views, Distinct, Leads, SubAt;
    ReachedPage(w, frames, key, n, view);
    if n == 0 {
      assert Slots(frames, 0) == [];
    } else {
      FramesLast(w, frames, key, n - 1, view);
      ReachedPage(w, frames, key, n - 1, view);
      SlotsNext(frames, n - 1);
      LastSlotsUp(w, Slots(frames, n - 1), frames[n - 1].leaf);
    }
  }

  /** The slot is an end of the whole index exactly when the new key sorts before all stored
      keys or behind all of them. */
  lemma EdgeIsEnd(w: Tree, k: Records, frames: seq<PutFrame>, key: Key, diff: nat, target: nat,
                  view: map<nat, PageView>)
    requires w.Sub? && Valid(w, k) && Reached(w, frames, key) && Target(w, frames, key, diff, target)
    requires Best(w, key) in k && FirstDiff(key, k[Best(w, key)], diff) && Distinct(w) && view == Views(w)
    ensures target < |frames| && Leads(w, Slots(frames, target))
    ensures forall i :: 0 <= i < target ==> frames[i].id in view
    ensures var body := BodyAt(w, frames, target);
      AtEdge(frames, view, target, InsertSlot(body, key, diff), Count(body)) <==>
        (forall p :: p in Flat(w) ==> p in k && Less(key, k[p]))
        || (forall p :: p in Flat(w) ==> p in k && Less(k[p], key))
  {
    hide Flat, Offset, Rank, SubAt, Leads, Best, Reached, InsertSlot, Patricia.Valid, Less, Views, Distinct, Target,
         LastSlots;
    InsertionPlace(w, k, frames, key, diff, target);
    var path, body := Slots(frames, target), BodyAt(w, frames, target);
    var slot := InsertSlot(body, key, diff);
    var o := Offset(body, slot);
    FramesLast(w, frames, key, target, view);
    RankEnds(w, path);
    BodyOf(w, frames, target);
    FlatSub(SubAt(w, path));
    OffsetInside(body, slot);
    FlatIsAll(w);
    ValidRecords(w, k);
    EndsDecide(Flat(w), k, key, Rank(w, path) + o);
    assert forall i :: 0 <= i < target ==> path[i] == frames[i].leaf;
    var r := Rank(w, path) + o;
    var ids := forall i :: 0 <= i < target ==> frames[i].leaf == 0;
    assert ids <==> forall i :: 0 <= i < |path| ==> path[i] == 0;
    assert r == 0 <==> slot == 0 && ids;
    assert r == |Flat(w)| <==> slot == Count(body) && LastSlots(w, path);
  }

  lemma EndsDecide(order: seq<Position>, k: Records, key: Key, r: nat)
    requires SeekPlace(order, k, key, r) && r <= |order| && |order| > 0 && forall p :: p in order ==> p in k
    requires forall i :: r <= i < |order| ==> Less(key, k[order[i]])
    ensures r == 0 <==> forall p :: p in order ==> p in k && Less(key, k[p])
    ensures r == |order| <==> forall p :: p in order ==> p in k && Less(k[p], key)
  {
    hide Less;
    if r > 0 {
      LessTotal(key, k[order[0]]);
      assert order[0] in order;
    }
    if r < |order| {
      LessTotal(key, k[order[r]]);
      assert order[r] in order;
    }
  }

  lemma SortedAround(order: seq<Position>, k: Records, key: Key, r: nat, pos: Position)
    requires r <= |order| && pos !in order && forall p :: p in order ==> p in k
    requires SortedKeys(Exchange(order, r, r, [pos]), k[pos := key])
    ensures SeekPlace(order, k, key, r) && forall i :: r <= i < |order| ==> Less(key, k[order[i]])
  {
    hide Less;
    var all, k2 := Exchange(order, r, r, [pos]), k[pos := key];
    assert all[r] == pos;
    forall i | 0 <= i < r ensures order[i] in k && Less(k[order[i]], key) {
      assert all[i] == order[i] && order[i] in order;
    }
    forall i | r <= i < |order| ensures order[i] in k && Less(key, k[order[i]]) && !Less(k[order[i]], key) {
      assert all[i + 1] == order[i] && order[i] in order;
      LessTotal(key, k[order[i]]);
    }
  }

  /** At the place of a stored key. */
  lemma StoredPlace(order: seq<Position>, k: Records, r: nat)
    requires SortedKeys(order, k) && r < |order|
    ensures order[r] in k && SeekPlace(order, k, k[order[r]], r)
    ensures forall i :: r < i < |order| ==> order[i] in k && Less(k[order[r]], k[order[i]])
  {
    hide Less;
    forall i | r <= i < |order| ensures !Less(k[order[i]], k[order[r]]) {
      LessTotal(k[order[i]], k[order[r]]);
    }
  }
}
