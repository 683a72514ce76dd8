/** Stepping and seeking over the records in key order (the second half of index.h). */
module Iteration {
  import opened Wrappers
  import opened Keys
  import opened Patricia
  import opened PageTree
  import opened NodePages
  import opened NodeStore
  import opened Paging
  import opened PageBuilder
  import opened Boundary
  import opened Search
  import opened Deletion
  import opened Accounting
  import opened Ranking
  import opened Ranges
  import opened IterPaths

  /** The pages of w are stored, and the path is none of their objects. */
  ghost predicate Ready(nodes: HeapNodeStore, path: IterPath, w: Tree)
    reads nodes, nodes.Repr, path
  {
    && nodes.Valid() && path.Valid() && w.Sub? && WellPaged(w) && nodes.View() == Views(w)
    && path !in nodes.Repr && path.stack !in nodes.Repr
  }

  lemma ReadyMeans(nodes: HeapNodeStore, path: IterPath, w: Tree)
    requires Ready(nodes, path, w)
    ensures nodes.Valid() && path.Valid() && w.Sub? && WellPaged(w) && nodes.View() == Views(w)
    ensures path !in nodes.Repr && path.stack !in nodes.Repr && |path.Frames()| == path.len
  {
  }

  lemma IsReady(nodes: HeapNodeStore, path: IterPath, w: Tree)
    requires nodes.Valid() && path.Valid() && w.Sub? && WellPaged(w) && nodes.View() == Views(w)
    requires path !in nodes.Repr && path.stack !in nodes.Repr
    ensures Ready(nodes, path, w)
  {
  }

  /** The page at the end of the frames is stored. */
  lemma OnPageStored(w: Tree, frames: seq<PutFrame>, cur: Tree, r: nat, view: map<nat, PageView>)
    requires OnPage(w, frames, cur, r) && WellPaged(w) && view == Views(w)
    ensures cur.Sub? && cur.id in view && view[cur.id] == PageOf(cur.body) && |view[cur.id].reps| == Count(cur.body)
  {
    PageStored(w, Slots(frames, |frames|), view);
  }

  /** Slot 0 holds the first records of a page, the last slot the last ones. */
  lemma EndSlots(cur: Tree)
    requires cur.Sub?
    ensures Offset(cur.body, 0) == 0
    ensures Offset(cur.body, Count(cur.body) - 1) + |Flat(LeafAt(cur.body, Count(cur.body) - 1))| == |Flat(cur)|
  {
    OffsetEnds(cur.body);
    OffsetStep(cur.body, Count(cur.body) - 1);
  }

  lemma OneRecord(s: Tree)
    requires s.Rec?
    ensures |Flat(s)| == 1
  {
  }

  method LeftmostRecord(nodes: HeapNodeStore, path: IterPath, start: nat, ghost w: Tree, ghost page: Tree, ghost r: nat)
    requires Ready(nodes, path, w) && OnPage(w, path.Frames(), page, r) && page.Sub? && page.id == start
    modifies path, path.stack
    ensures Ready(nodes, path, w) && AtRecord(w, path.Frames(), r)
  {
    hide *;
    ReadyMeans(nodes, path, w);
    var id := start;
    ghost var cur := page;
    while true
      invariant path.Valid() && nodes.View() == Views(w) && nodes.Valid()
      invariant OnPage(w, path.Frames(), cur, r) && cur.Sub? && cur.id == id
      decreases cur
    {
      OnPageStored(w, path.Frames(), cur, r, nodes.View());
      var node := nodes.Get(id);
      node.RepAt(cur.body, 0);
      ghost var leaf := LeafAt(cur.body, 0);
      RepMeans(leaf);
      EndSlots(cur);
      Choose(w, path.Frames(), cur, r, 0);
      var rep := node.reps[0];
      path.Push(PutFrame(id, 0));
      if rep.Child? {
        id := rep.id;
        cur := leaf;
        continue;
      }
      IsReady(nodes, path, w);
      return;
    }
  }

  method RightmostRecord(nodes: HeapNodeStore, path: IterPath, start: nat, ghost w: Tree, ghost page: Tree,
                         ghost r0: nat)
    requires Ready(nodes, path, w) && OnPage(w, path.Frames(), page, r0) && page.Sub? && page.id == start
    modifies path, path.stack
    ensures Ready(nodes, path, w) && |Flat(page)| > 0 && AtRecord(w, path.Frames(), r0 + |Flat(page)| - 1)
  {
    hide *;
    ReadyMeans(nodes, path, w);
    var id := start;
    ghost var cur := page;
    ghost var r: nat := r0;
    while true
      invariant path.Valid() && nodes.View() == Views(w) && nodes.Valid()
      invariant OnPage(w, path.Frames(), cur, r) && cur.Sub? && cur.id == id
      invariant r + |Flat(cur)| == r0 + |Flat(page)|
      decreases cur
    {
      OnPageStored(w, path.Frames(), cur, r, nodes.View());
      var node := nodes.Get(id);
      var last := node.size - 1;
      node.RepAt(cur.body, last);
      ghost var leaf := LeafAt(cur.body, last);
      RepMeans(leaf);
      EndSlots(cur);
      Choose(w, path.Frames(), cur, r, last);
      var rep := node.reps[last];
      path.Push(PutFrame(id, last));
      if rep.Child? {
        id := rep.id;
        r := r + Offset(cur.body, last);
        cur := leaf;
        continue;
      }
      OneRecord(leaf);
      IsReady(nodes, path, w);
      return;
    }
  }

  // ---------------------------------------------------------------------- stepping

  /** The slot chosen last is done with; next is the place behind it. */
  ghost predicate Leaving(w: Tree, frames: seq<PutFrame>, next: nat) {
    if frames == [] then next == |Flat(w)|
    else
      && Follows(w, frames) && FollowsTo(w, frames, |frames| - 1)
      && var n := |frames| - 1;
      Place(w, frames) + |Flat(LeafAt(SubAt(w, Slots(frames, n)).body, frames[n].leaf))| == next
  }

  lemma LeavingStart(w: Tree, frames: seq<PutFrame>, r: nat)
    requires AtRecord(w, frames, r)
    ensures Leaving(w, frames, r + 1) && frames != []
  {
  }

  lemma LeavingStep(w: Tree, frames: seq<PutFrame>, next: nat)
    requires Leaving(w, frames, next) && frames != []
    ensures Follows(w, frames) && Leads(w, Slots(frames, |frames| - 1))
    ensures var n := |frames| - 1;
      var cur := SubAt(w, Slots(frames, n));
      var r0 := Rank(w, Slots(frames, n));
      && OnPage(w, frames[..n], cur, r0) && frames[n].id == cur.id && frames[n].leaf < Count(cur.body)
      && frames[n := frames[n].(leaf := frames[n].leaf + 1)] == frames[..n] + [PutFrame(cur.id, frames[n].leaf + 1)]
      && r0 + Offset(cur.body, frames[n].leaf + 1) == next
      && (frames[n].leaf + 1 == Count(cur.body) ==> Leaving(w, frames[..n], next))
  {
    hide Offset, Rank, Flat, LeafAt, SubAt, Leads;
    TopPage(w, frames);
    var n := |frames| - 1;
    var cur, r0 := SubAt(w, Slots(frames, n)), Rank(w, Slots(frames, n));
    OffsetStep(cur.body, frames[n].leaf);
    if frames[n].leaf + 1 == Count(cur.body) {
      OffsetEnds(cur.body);
      FlatSub(cur);
      if n == 0 {
        WholePage(w, frames, cur, r0);
      } else {
        PopPage(w, frames[..n], cur, r0);
      }
    }
  }

  lemma WholePage(w: Tree, frames: seq<PutFrame>, cur: Tree, r0: nat)
    requires frames != [] && OnPage(w, frames[..0], cur, r0)
    ensures cur == w && r0 == 0
  {
    assert Slots(frames[..0], 0) == [];
  }

  lemma LeavingDone(w: Tree, frames: seq<PutFrame>, next: nat)
    requires Leaving(w, frames, next)
    ensures frames == [] ==> next == |Flat(w)|
  {
  }

  lemma AtRecordRange(w: Tree, frames: seq<PutFrame>, r: nat)
    requires AtRecord(w, frames, r)
    ensures r < |Flat(w)| && frames != []
  {
    AtRecordMeans(w, frames, r);
  }

  /** NextPath: on to the next record in key order, or off the end. */
  method NextPath(nodes: HeapNodeStore, path: IterPath, ghost w: Tree, ghost r: nat) returns (ok: bool)
    requires Ready(nodes, path, w) && AtRecord(w, path.Frames(), r)
    modifies path, path.stack
    ensures Ready(nodes, path, w)
    ensures ok <==> r + 1 < |Flat(w)|
    ensures ok ==> AtRecord(w, path.Frames(), r + 1)
    ensures !ok ==> path.len == 0
  {
    hide *;
    ReadyMeans(nodes, path, w);
    LeavingStart(w, path.Frames(), r);
    while path.len > 0
      invariant path.Valid() && nodes.View() == Views(w) && nodes.Valid()
      invariant Leaving(w, path.Frames(), r + 1)
      decreases path.len
    {
      ghost var frames := path.Frames();
      LeavingStep(w, frames, r + 1);
      ghost var n := |frames| - 1;
      ghost var cur, r0 := SubAt(w, Slots(frames, n)), Rank(w, Slots(frames, n));
      var frame := path.At(path.len - 1);
      OnPageStored(w, frames[..n], cur, r0, nodes.View());
      var node := nodes.Get(frame.id);
      var next := frame.leaf + 1;
      if next < node.size {
        path.SetLeaf(path.len - 1, next);
        node.RepAt(cur.body, next);
        ghost var leaf := LeafAt(cur.body, next);
        RepMeans(leaf);
        Choose(w, frames[..n], cur, r0, next);
        IsReady(nodes, path, w);
        var rep := node.reps[next];
        if rep.Child? {
          LeftmostRecord(nodes, path, rep.id, w, leaf, r + 1);
        }
        ReadyMeans(nodes, path, w);
        AtRecordRange(w, path.Frames(), r + 1);
        return true;
      }
      path.Truncate(path.len - 1);
    }
    LeavingDone(w, path.Frames(), r + 1);
    IsReady(nodes, path, w);
    return false;
  }

  /** The slot chosen last starts at place r. */
  ghost predicate Starting(w: Tree, frames: seq<PutFrame>, r: nat) {
    if frames == [] then r == 0 else Follows(w, frames) && Place(w, frames) == r
  }

  lemma StartingAt(w: Tree, frames: seq<PutFrame>, r: nat)
    requires AtRecord(w, frames, r)
    ensures Starting(w, frames, r) && frames != []
  {
  }

  lemma StartingDone(w: Tree, frames: seq<PutFrame>, r: nat)
    requires Starting(w, frames, r)
    ensures frames == [] ==> r == 0
  {
  }

  lemma StartingStep(w: Tree, frames: seq<PutFrame>, r: nat)
    requires Starting(w, frames, r) && frames != []
    ensures Follows(w, frames) && Leads(w, Slots(frames, |frames| - 1))
    ensures var n := |frames| - 1;
      var cur := SubAt(w, Slots(frames, n));
      var r0 := Rank(w, Slots(frames, n));
      && OnPage(w, frames[..n], cur, r0) && frames[n].id == cur.id && frames[n].leaf < Count(cur.body)
      && r0 + Offset(cur.body, frames[n].leaf) == r
      && (frames[n].leaf == 0 ==> Starting(w, frames[..n], r))
      && (frames[n].leaf > 0 ==>
            frames[n := frames[n].(leaf := frames[n].leaf - 1)] == frames[..n] + [PutFrame(cur.id, frames[n].leaf - 1)]
            && r0 + Offset(cur.body, frames[n].leaf - 1) + |Flat(LeafAt(cur.body, frames[n].leaf - 1))| == r)
  {
    hide Offset, Rank, Flat, LeafAt, SubAt, Leads;
    TopPage(w, frames);
    var n := |frames| - 1;
    var cur, r0 := SubAt(w, Slots(frames, n)), Rank(w, Slots(frames, n));
    if frames[n].leaf == 0 {
      OffsetEnds(cur.body);
      if n == 0 {
        WholePage(w, frames, cur, r0);
      } else {
        PopPage(w, frames[..n], cur, r0);
      }
    } else {
      OffsetStep(cur.body, frames[n].leaf - 1);
    }
  }

  /** PrevPath: back to the previous record, or off the beginning. */
  method PrevPath(nodes: HeapNodeStore, path: IterPath, ghost w: Tree, ghost r: nat) returns (ok: bool)
    requires Ready(nodes, path, w) && AtRecord(w, path.Frames(), r)
    modifies path, path.stack
    ensures Ready(nodes, path, w)
    ensures ok <==> r > 0
    ensures ok ==> AtRecord(w, path.Frames(), r - 1)
    ensures !ok ==> path.len == 0
  {
    hide *;
    ReadyMeans(nodes, path, w);
    StartingAt(w, path.Frames(), r);
    while path.len > 0
      invariant path.Valid() && nodes.View() == Views(w) && nodes.Valid()
      invariant Starting(w, path.Frames(), r)
      decreases path.len
    {
      ghost var frames := path.Frames();
      StartingStep(w, frames, r);
      ghost var n := |frames| - 1;
      ghost var cur, r0 := SubAt(w, Slots(frames, n)), Rank(w, Slots(frames, n));
      var frame := path.At(path.len - 1);
      OnPageStored(w, frames[..n], cur, r0, nodes.View());
      var node := nodes.Get(frame.id);
      var prev := frame.leaf - 1;
      if prev >= 0 {
        path.SetLeaf(path.len - 1, prev);
        node.RepAt(cur.body, prev);
        ghost var leaf := LeafAt(cur.body, prev);
        RepMeans(leaf);
        Choose(w, frames[..n], cur, r0, prev);
        IsReady(nodes, path, w);
        var rep := node.reps[prev];
        if rep.Child? {
          RightmostRecord(nodes, path, rep.id, w, leaf, r0 + Offset(cur.body, prev));
        } else {
          OneRecord(leaf);
        }
        return true;
      }
      path.Truncate(path.len - 1);
    }
    StartingDone(w, path.Frames(), r);
    IsReady(nodes, path, w);
    return false;
  }

  // ----------------------------------------------------------------------- seeking

  /** The place before the given slot of the page of the last frame is r. */
  ghost predicate Seeking(w: Tree, frames: seq<PutFrame>, slot: nat, r: nat) {
    && frames != [] && Follows(w, frames) && FollowsTo(w, frames, |frames| - 1)
    && var n := |frames| - 1;
    && slot <= Count(SubAt(w, Slots(frames, n)).body)
    && Rank(w, Slots(frames, n)) + Offset(SubAt(w, Slots(frames, n)).body, slot) == r
  }

  lemma SeekingStart(w: Tree, frames: seq<PutFrame>, target: nat, slot: nat, r: nat)
    requires Follows(w, frames) && target < |frames| && Leads(w, Slots(frames, target))
    requires slot <= Count(SubAt(w, Slots(frames, target)).body)
    requires Rank(w, Slots(frames, target)) + Offset(SubAt(w, Slots(frames, target)).body, slot) == r
    ensures Seeking(w, frames[..target + 1], slot, r)
  {
    FollowsPrefix(w, frames, target + 1);
    var frames2 := frames[..target + 1];
    assert Slots(frames2, target) == Slots(frames, target);
    assert FollowsTo(w, frames2, |frames2| - 1);
  }

  lemma SeekingStep(w: Tree, frames: seq<PutFrame>, slot: nat, r: nat)
    requires Seeking(w, frames, slot, r)
    ensures frames != [] && Follows(w, frames) && Leads(w, Slots(frames, |frames| - 1))
    ensures var n := |frames| - 1;
      var cur := SubAt(w, Slots(frames, n));
      var r0 := Rank(w, Slots(frames, n));
      && OnPage(w, frames[..n], cur, r0) && cur.Sub? && frames[n].id == cur.id && slot <= Count(cur.body)
      && (forall i: nat :: frames[n := frames[n].(leaf := i)] == frames[..n] + [PutFrame(cur.id, i)])
      && r0 + Offset(cur.body, slot) == r
      && (slot > 0 ==> r0 + Offset(cur.body, slot - 1) + |Flat(LeafAt(cur.body, slot - 1))| == r)
      && (slot == Count(cur.body) && n == 0 ==> r == |Flat(w)|)
      && (slot == Count(cur.body) && n > 0 ==> Seeking(w, frames[..n], frames[n - 1].leaf + 1, r))
      && (slot == 0 && n == 0 ==> r == 0)
      && (slot == 0 && n > 0 ==> Seeking(w, frames[..n], frames[n - 1].leaf, r))
  {
    hide Offset, Rank, Flat, LeafAt, SubAt, Leads;
    TopPage(w, frames);
    var n := |frames| - 1;
    var cur, r0 := SubAt(w, Slots(frames, n)), Rank(w, Slots(frames, n));
    OffsetEnds(cur.body);
    FlatSub(cur);
    if slot > 0 {
      OffsetStep(cur.body, slot - 1);
    }
    if n == 0 {
      WholePage(w, frames, cur, r0);
    } else {
      SeekingUp(w, frames[..n], cur, r0);
    }
  }

  lemma SeekingUp(w: Tree, frames: seq<PutFrame>, cur: Tree, r0: nat)
    requires frames != [] && OnPage(w, frames, cur, r0)
    ensures Seeking(w, frames, frames[|frames| - 1].leaf, r0)
    ensures Seeking(w, frames, frames[|frames| - 1].leaf + 1, r0 + |Flat(cur)|)
  {
    hide Offset, Rank, Flat, LeafAt, SubAt, Leads;
    PopPage(w, frames, cur, r0);
    var n := |frames| - 1;
    FollowsAt(w, frames, n);
    OffsetStep(SubAt(w, Slots(frames, n)).body, frames[n].leaf);
  }

  /** PositionAtOrAfter: the path is set to the record at place r, if there is one. */
  method PositionAtOrAfter(nodes: HeapNodeStore, path: IterPath, target: nat, slot0: nat, ghost w: Tree, ghost r: nat)
    returns (ok: bool)
    requires Ready(nodes, path, w) && target < path.len && Seeking(w, path.Frames()[..target + 1], slot0, r)
    modifies path, path.stack
    ensures Ready(nodes, path, w)
    ensures ok <==> r < |Flat(w)|
    ensures ok ==> AtRecord(w, path.Frames(), r)
  {
    hide *;
    ReadyMeans(nodes, path, w);
    path.Truncate(target + 1);
    var slot: nat := slot0;
    while true
      invariant path.Valid() && nodes.View() == Views(w) && nodes.Valid()
      invariant Seeking(w, path.Frames(), slot, r)
      decreases path.len
    {
      ghost var frames := path.Frames();
      SeekingStep(w, frames, slot, r);
      ghost var n := |frames| - 1;
      ghost var cur, r0 := SubAt(w, Slots(frames, n)), Rank(w, Slots(frames, n));
      var frame := path.At(path.len - 1);
      OnPageStored(w, frames[..n], cur, r0, nodes.View());
      var node := nodes.Get(frame.id);
      if slot < node.size {
        path.SetLeaf(path.len - 1, slot);
        node.RepAt(cur.body, slot);
        ghost var leaf := LeafAt(cur.body, slot);
        RepMeans(leaf);
        Choose(w, frames[..n], cur, r0, slot);
        IsReady(nodes, path, w);
        var rep := node.reps[slot];
        if rep.Child? {
          LeftmostRecord(nodes, path, rep.id, w, leaf, r);
        }
        ReadyMeans(nodes, path, w);
        AtRecordRange(w, path.Frames(), r);
        return true;
      }
      if path.len == 1 {
        IsReady(nodes, path, w);
        return false;
      }
      path.Truncate(path.len - 1);
      var parent := path.At(path.len - 1);
      slot := parent.leaf + 1;
    }
  }

  /** PositionAtOrBefore: the path is set to the record before place r, if there is one. */
  method PositionAtOrBefore(nodes: HeapNodeStore, path: IterPath, target: nat, slot0: nat, ghost w: Tree, ghost r: nat)
    returns (ok: bool)
    requires Ready(nodes, path, w) && target < path.len && Seeking(w, path.Frames()[..target + 1], slot0, r)
    modifies path, path.stack
    ensures Ready(nodes, path, w)
    ensures ok <==> r > 0
    ensures ok ==> AtRecord(w, path.Frames(), r - 1)
  {
    hide *;
    ReadyMeans(nodes, path, w);
    path.Truncate(target + 1);
    var slot: nat := slot0;
    while true
      invariant path.Valid() && nodes.View() == Views(w) && nodes.Valid()
      invariant Seeking(w, path.Frames(), slot, r)
      decreases path.len
    {
      ghost var frames := path.Frames();
      SeekingStep(w, frames, slot, r);
      ghost var n := |frames| - 1;
      ghost var cur, r0 := SubAt(w, Slots(frames, n)), Rank(w, Slots(frames, n));
      var frame := path.At(path.len - 1);
      OnPageStored(w, frames[..n], cur, r0, nodes.View());
      var node := nodes.Get(frame.id);
      if slot > 0 {
        var prev := slot - 1;
        path.SetLeaf(path.len - 1, prev);
        node.RepAt(cur.body, prev);
        ghost var leaf := LeafAt(cur.body, prev);
        RepMeans(leaf);
        Choose(w, frames[..n], cur, r0, prev);
        IsReady(nodes, path, w);
        var rep := node.reps[prev];
        if rep.Child? {
          RightmostRecord(nodes, path, rep.id, w, leaf, r0 + Offset(cur.body, prev));
        } else {
          OneRecord(leaf);
        }
        return true;
      }
      if path.len == 1 {
        IsReady(nodes, path, w);
        return false;
      }
      path.Truncate(path.len - 1);
      var parent := path.At(path.len - 1);
      slot := parent.leaf;
    }
  }

  /** The search from the root page, with the frames pushed on the path. */
  method WalkPath(nodes: HeapNodeStore, path: IterPath, key: Key, ghost w: Tree) returns (pos: Position)
    requires Ready(nodes, path, w) && w.id == 0
    modifies path, path.stack
    ensures Ready(nodes, path, w) && Reached(w, path.Frames(), key) && pos == Best(w, key)
  {
    hide *;
    ReadyMeans(nodes, path, w);
    path.Reset();
    var id := 0;
    ghost var cur := w;
    StandingStart(w, key);
    while true
      invariant path.Valid() && nodes.View() == Views(w) && nodes.Valid()
      invariant Standing(w, path.Frames(), key, cur) && cur.Sub? && cur.id == id
      decreases cur
    {
      StandingPage(w, path.Frames(), key, cur, nodes.View());
      var node := nodes.Get(id);
      node.ViewHolds(cur.body);
      var leaf, ok := node.LookupRouteOnly(key, cur.body);
      StandingNext(w, path.Frames(), key, cur);
      node.RepAt(cur.body, leaf);
      ghost var s := LeafAt(cur.body, leaf);
      RepMeans(s);
      var rep := node.reps[leaf];
      path.Push(PutFrame(id, leaf));
      if rep.Record? {
        IsReady(nodes, path, w);
        return rep.pos;
      }
      id := rep.id;
      cur := s;
    }
  }

  lemma ReachedRecord(w: Tree, frames: seq<PutFrame>, key: Key, k: Records)
    requires w.Sub? && Readable(w, k) && Reached(w, frames, key)
    ensures frames != [] && Follows(w, frames) && AtRecord(w, frames, Place(w, frames))
    ensures Place(w, frames) < |Flat(w)| && Flat(w)[Place(w, frames)] == Best(w, key) && Best(w, key) in k
    ensures SeekPlace(Flat(w), k, k[Best(w, key)], Place(w, frames)) && |k[Best(w, key)]| <= MAX_KEY_SIZE
  {
    assert FollowsTo(w, frames, |frames| - 1) by { FollowsAt(w, frames, |frames| - 1); }
    hide Flat, Offset, SubAt, LeafAt, Leads, Rank, SeekPlace;
    AtRecordMeans(w, frames, Place(w, frames));
    FlatSorted(w, k);
    StoredPlace(Flat(w), k, Place(w, frames));
    FlatIsAll(w);
  }

  /** Where a key that is not stored would be. */
  lemma AbsentPlace(w: Tree, k: Records, frames: seq<PutFrame>, key: Key, diff: nat, target: nat)
    requires w.Sub? && Readable(w, k) && Reached(w, frames, key) && Target(w, frames, key, diff, target)
    requires Best(w, key) in k && FirstDiff(key, k[Best(w, key)], diff)
    ensures Follows(w, frames) && target < |frames| && Leads(w, Slots(frames, target))
    ensures var body := BodyAt(w, frames, target);
      var slot := InsertSlot(body, key, diff);
      var r := Rank(w, Slots(frames, target)) + Offset(body, slot);
      && SeekPlace(Flat(w), k, key, r) && Seeking(w, frames[..target + 1], slot, r)
  {
    hide Flat, Offset, LeafAt, Leads, Rank, SeekPlace, InsertSlot;
    InsertionPlace(w, k, frames, key, diff, target);
    SeekingStart(w, frames, target, InsertSlot(BodyAt(w, frames, target), key, diff),
                 Rank(w, Slots(frames, target))
                 + Offset(BodyAt(w, frames, target), InsertSlot(BodyAt(w, frames, target), key, diff)));
  }

  /** Whether the key of the item r is key itself. */
  ghost predicate KeyAt(order: seq<Position>, k: Records, r: nat, key: Key) {
    r < |order| && order[r] in k && k[order[r]] == key
  }

  lemma KeyAtIs(order: seq<Position>, k: Records, r: nat, key: Key)
    requires r < |order| && order[r] in k && k[order[r]] == key
    ensures KeyAt(order, k, r, key)
  {
  }

  lemma AbsentKey(order: seq<Position>, k: Records, r: nat, key: Key)
    requires forall p :: p in order ==> p in k && k[p] != key
    ensures !KeyAt(order, k, r, key)
  {
  }

  lemma NotStored(w: Tree, k: Records, key: Key)
    requires Readable(w, k) && Best(w, key) in k && k[Best(w, key)] != key
    ensures forall p :: p in Flat(w) ==> p in k && k[p] != key
  {
    BestExact(w, k, key);
    ContentsAre(w, k);
    FlatIsAll(w);
  }

  /** CompareAndDiffBit on the searched key and the record reached, as both seeks use it:
      the place of the key, and whether it is stored there. */
  method FindPlace(nodes: HeapNodeStore, path: IterPath, key: Key, k: Records, ghost w: Tree)
    returns (equal: bool, target: nat, slot: nat, ghost r: nat)
    requires Ready(nodes, path, w) && w.id == 0 && Readable(w, k) && |key| <= MAX_KEY_SIZE
    modifies path, path.stack
    ensures Ready(nodes, path, w) && SeekPlace(Flat(w), k, key, r)
    ensures equal <==> KeyAt(Flat(w), k, r, key)
    ensures equal ==> AtRecord(w, path.Frames(), r)
    ensures !equal ==> target < path.len && Seeking(w, path.Frames()[..target + 1], slot, r)
  {
    hide *;
    var pos := WalkPath(nodes, path, key, w);
    ReadyMeans(nodes, path, w);
    ReachedRecord(w, path.Frames(), key, k);
    var cmp := CompareAndDiffBit(key, k[pos]);
    if cmp.Err? {
      r := Place(w, path.Frames());
      KeyAtIs(Flat(w), k, r, key);
      return true, 0, 0, r;
    }
    var frames := path.FramesForInsert();
    BitDecides(key, k[pos], cmp.value.diff);
    target, slot := InsertSlotFromPath(nodes, frames, key, cmp.value.compare, cmp.value.diff, w);
    AbsentPlace(w, k, frames, key, cmp.value.diff, target);
    r := Rank(w, Slots(frames, target)) + Offset(BodyAt(w, frames, target), slot);
    NotStored(w, k, key);
    AbsentKey(Flat(w), k, r, key);
    equal := false;
  }

  lemma BitDecides(key: Key, other: Key, diff: nat)
    requires FirstDiff(key, other, diff)
    ensures Less(key, other) <==> !Bit(key, diff)
  {
    FirstDiffUnique(key, other, diff);
    DiffIsFirst(key, other);
  }

  /** SeekGreaterOrEqual: to the first record whose key is not smaller. */
  method SeekGreaterOrEqual(nodes: HeapNodeStore, path: IterPath, key: Key, k: Records, ghost w: Tree)
    returns (ok: bool, ghost r: nat)
    requires Ready(nodes, path, w) && w.id == 0 && Readable(w, k) && |key| <= MAX_KEY_SIZE
    modifies path, path.stack
    ensures Ready(nodes, path, w) && SeekPlace(Flat(w), k, key, r)
    ensures ok <==> r < |Flat(w)|
    ensures ok ==> AtRecord(w, path.Frames(), r)
  {
    hide *;
    var equal, target, slot;
    equal, target, slot, r := FindPlace(nodes, path, key, k, w);
    if equal {
      KeyAtMeans(Flat(w), k, r, key);
      return true, r;
    }
    ok := PositionAtOrAfter(nodes, path, target, slot, w, r);
  }

  lemma KeyAtMeans(order: seq<Position>, k: Records, r: nat, key: Key)
    requires KeyAt(order, k, r, key)
    ensures r < |order| && order[r] in k && k[order[r]] == key
  {
  }

  /** SeekLessOrEqual: to the last record whose key is not greater. */
  method SeekLessOrEqual(nodes: HeapNodeStore, path: IterPath, key: Key, k: Records, ghost w: Tree)
    returns (ok: bool, ghost r: nat)
    requires Ready(nodes, path, w) && w.id == 0 && Readable(w, k) && |key| <= MAX_KEY_SIZE
    modifies path, path.stack
    ensures Ready(nodes, path, w) && SeekPlace(Flat(w), k, key, r)
    ensures ok <==> r > 0 || KeyAt(Flat(w), k, r, key)
    ensures ok ==> AtRecord(w, path.Frames(), if KeyAt(Flat(w), k, r, key) then r else r - 1)
  {
    hide *;
    var equal, target, slot;
    equal, target, slot, r := FindPlace(nodes, path, key, k, w);
    if equal {
      return true, r;
    }
    ok := PositionAtOrBefore(nodes, path, target, slot, w, r);
  }

  // ------------------------------------------------------------------- the loops

  /** CurrentRecord: the item the path stands on. */
  method CurrentRecord(nodes: HeapNodeStore, path: IterPath, k: Records, ghost w: Tree, ghost r: nat)
    returns (item: IterItem)
    requires Ready(nodes, path, w) && AtRecord(w, path.Frames(), r) && Known(Flat(w), k)
    ensures r < |Flat(w)| && Flat(w)[r] in k && item == IterItem(k[Flat(w)[r]], Flat(w)[r])
  {
    hide *;
    ReadyMeans(nodes, path, w);
    ghost var frames := path.Frames();
    AtRecordMeans(w, frames, r);
    TopPage(w, frames);
    ghost var n := |frames| - 1;
    ghost var cur, r0 := SubAt(w, Slots(frames, n)), Rank(w, Slots(frames, n));
    OnPageStored(w, frames[..n], cur, r0, nodes.View());
    var frame := path.At(path.len - 1);
    var node := nodes.Get(frame.id);
    node.RepAt(cur.body, frame.leaf);
    RepMeans(LeafAt(cur.body, frame.leaf));
    var pos := node.reps[frame.leaf].pos;
    KnownAt(Flat(w), k, r);
    return IterItem(k[pos], pos);
  }

  lemma KnownAt(order: seq<Position>, k: Records, r: nat)
    requires Known(order, k) && r < |order|
    ensures order[r] in k && Known(order[r..], k) && Known(order[..r], k)
  {
  }

  /** AscendFromPath: from the record the path stands on, in key order, below the bound, as
      long as the caller goes on. */
  method AscendFromPath(nodes: HeapNodeStore, path: IterPath, k: Records, upper: Option<Key>,
                        keep: (Key, Position) -> bool, ghost w: Tree, ghost r0: nat)
    returns (out: seq<IterItem>)
    requires Ready(nodes, path, w) && AtRecord(w, path.Frames(), r0) && Known(Flat(w), k)
    modifies path, path.stack
    ensures r0 < |Flat(w)| && out == AscendingFrom(Flat(w), k, r0, upper, keep)
  {
    hide *;
    ReadyMeans(nodes, path, w);
    AtRecordRange(w, path.Frames(), r0);
    out := [];
    ghost var goal := AscendingFrom(Flat(w), k, r0, upper, keep);
    ghost var r: nat := r0;
    while path.len > 0
      invariant Ready(nodes, path, w) && path.Valid() && path.len > 0
      invariant AtRecord(w, path.Frames(), r) && r < |Flat(w)|
      invariant goal == out + AscendingFrom(Flat(w), k, r, upper, keep)
      decreases |Flat(w)| - r
    {
      var item := CurrentRecord(nodes, path, k, w, r);
      AscendingStep(Flat(w), k, r, upper, keep);
      if upper.Some? && CompareKeys(item.key, upper.value) >= 0 {
        return out;
      }
      Onward(goal, out, item, AscendingFrom(Flat(w), k, r + 1, upper, keep));
      out := out + [item];
      if !keep(item.key, item.pos) {
        return out;
      }
      var ok := NextPath(nodes, path, w, r);
      r := r + 1;
      if !ok {
        return out;
      }
      ReadyMeans(nodes, path, w);
      AtRecordRange(w, path.Frames(), r);
    }
  }

  lemma Onward<T>(goal: seq<T>, out: seq<T>, x: T, rest: seq<T>)
    ensures goal == out + ([x] + rest) ==> goal == (out + [x]) + rest
    ensures goal == out + [x] ==> goal == out + [x]
    ensures (out + [x]) + [] == out + [x] && out + [] == out
  {
  }

  /** DescendFromPath: from the record the path stands on, in reverse key order, above the
      bound, as long as the caller goes on. */
  method DescendFromPath(nodes: HeapNodeStore, path: IterPath, k: Records, lower: Option<Key>,
                         keep: (Key, Position) -> bool, ghost w: Tree, ghost r0: nat)
    returns (out: seq<IterItem>)
    requires Ready(nodes, path, w) && AtRecord(w, path.Frames(), r0) && Known(Flat(w), k)
    modifies path, path.stack
    ensures r0 < |Flat(w)| && out == DescendingFrom(Flat(w), k, r0 + 1, lower, keep)
  {
    hide *;
    ReadyMeans(nodes, path, w);
    AtRecordRange(w, path.Frames(), r0);
    out := [];
    ghost var goal := DescendingFrom(Flat(w), k, r0 + 1, lower, keep);
    ghost var r: nat := r0;
    while path.len > 0
      invariant Ready(nodes, path, w) && path.Valid() && path.len > 0
      invariant AtRecord(w, path.Frames(), r) && r < |Flat(w)|
      invariant goal == out + DescendingFrom(Flat(w), k, r + 1, lower, keep)
      decreases r
    {
      var item := CurrentRecord(nodes, path, k, w, r);
      DescendingStep(Flat(w), k, r + 1, lower, keep);
      if lower.Some? && CompareKeys(item.key, lower.value) <= 0 {
        return out;
      }
      Onward(goal, out, item, DescendingFrom(Flat(w), k, r, lower, keep));
      out := out + [item];
      if !keep(item.key, item.pos) {
        return out;
      }
      var ok := PrevPath(nodes, path, w, r);
      if !ok {
        return out;
      }
      r := r - 1;
      ReadyMeans(nodes, path, w);
      AtRecordRange(w, path.Frames(), r);
    }
  }

  // -------------------------------------------------------------------- the ranges

  /** The records of the tree in key order. */
  ghost function Order(tree: Option<Tree>): seq<Position> {
    match tree
    case None => []
    case Some(w) => Flat(w)
  }

  ghost predicate Usable(tree: Option<Tree>, k: Records) {
    tree.Some? ==> Readable(tree.value, k)
  }

  lemma UsableOrder(tree: Option<Tree>, k: Records)
    requires Usable(tree, k)
    ensures Known(Order(tree), k) && Ordered(Order(tree), k)
    ensures tree.None? ==> Order(tree) == []
    ensures tree.Some? ==> Order(tree) == Flat(tree.value) && Readable(tree.value, k) && |Flat(tree.value)| > 0
  {
    if tree.Some? {
      FlatSorted(tree.value, k);
    }
  }

  lemma NothingToVisit(k: Records, b: Bounds, keep: (Key, Position) -> bool)
    ensures Visits([], Select([], k, b), keep) && Visits([], Backwards(Select([], k, b)), keep)
  {
  }

  lemma NoBounds(order: seq<Position>, k: Records, b: Bounds)
    requires Ordered(order, k)
    ensures b.high.None? ==> forall i :: 0 <= i < |order| ==> Inside(k[order[i]], b.(low := None))
  {
  }

  lemma FreshPath(nodes: HeapNodeStore, path: IterPath, tree: Option<Tree>)
    requires nodes.Valid() && path.Valid() && Paged(nodes.View(), tree) && tree.Some?
    requires path !in nodes.Repr && path.stack !in nodes.Repr && path.Frames() == []
    ensures Ready(nodes, path, tree.value) && OnPage(tree.value, path.Frames(), tree.value, 0) && tree.value.id == 0
  {
    OnRoot(tree.value);
  }

  lemma SeekPlaceRange(order: seq<Position>, k: Records, key: Key, r: nat)
    requires SeekPlace(order, k, key, r)
    ensures r <= |order|
  {
  }

  lemma PlaceEnd(order: seq<Position>, k: Records, upper: Option<Key>, keep: (Key, Position) -> bool)
    requires Known(order, k)
    ensures AscendingFrom(order, k, |order|, upper, keep) == []
    ensures DescendingFrom(order, k, 0, upper, keep) == []
  {
  }

  /** The ascending iterations: from the leftmost record or from a seek to low. */
  method AscendWithin(nodes: HeapNodeStore, k: Records, low: Option<Key>, high: Option<Key>,
                      keep: (Key, Position) -> bool, ghost tree: Option<Tree>)
    returns (out: seq<IterItem>)
    requires nodes.Valid() && Paged(nodes.View(), tree) && Usable(tree, k)
    requires low.Some? ==> |low.value| <= MAX_KEY_SIZE
    ensures Known(Order(tree), k) && Visits(out, Select(Order(tree), k, Bounds(low, true, high, false)), keep)
  {
    hide *;
    UsableOrder(tree, k);
    ghost var b := Bounds(low, true, high, false);
    NothingToVisit(k, b, keep);
    PagedRoot(nodes.View(), tree);
    var root := nodes.Get(0);
    if root.size == 0 {
      return [];
    }
    ghost var w := tree.value;
    var path := new IterPath();
    FreshPath(nodes, path, tree);
    PlaceEnd(Flat(w), k, high, keep);
    if low.None? {
      AscendFrom(Flat(w), k, b, 0, keep);
      LeftmostRecord(nodes, path, 0, w, w, 0);
      out := AscendFromPath(nodes, path, k, high, keep, w, 0);
      return out;
    }
    var ok; ghost var r;
    ok, r := SeekGreaterOrEqual(nodes, path, low.value, k, w);
    SeekPlaceRange(Flat(w), k, low.value, r);
    AscendFrom(Flat(w), k, b, r, keep);
    if !ok {
      return [];
    }
    out := AscendFromPath(nodes, path, k, high, keep, w, r);
  }

  lemma KeyAtEquals(order: seq<Position>, k: Records, r: nat, key: Key)
    requires Known(order, k) && r <= |order|
    ensures KeyAt(order, k, r, key) <==> r < |order| && k[order[r]] == key
  {
  }

  /** The descending iterations: from the rightmost record or from a seek to high. */
  method DescendWithin(nodes: HeapNodeStore, k: Records, high: Option<Key>, low: Option<Key>,
                       keep: (Key, Position) -> bool, ghost tree: Option<Tree>)
    returns (out: seq<IterItem>)
    requires nodes.Valid() && Paged(nodes.View(), tree) && Usable(tree, k)
    requires high.Some? ==> |high.value| <= MAX_KEY_SIZE
    ensures Known(Order(tree), k)
    ensures Visits(out, Backwards(Select(Order(tree), k, Bounds(low, false, high, true))), keep)
  {
    hide *;
    UsableOrder(tree, k);
    ghost var b := Bounds(low, false, high, true);
    NothingToVisit(k, b, keep);
    PagedRoot(nodes.View(), tree);
    var root := nodes.Get(0);
    if root.size == 0 {
      return [];
    }
    ghost var w := tree.value;
    var path := new IterPath();
    FreshPath(nodes, path, tree);
    PlaceEnd(Flat(w), k, low, keep);
    if high.None? {
      NoBounds(Flat(w), k, b);
      DescendFrom(Flat(w), k, b, |Flat(w)|, keep);
      RightmostRecord(nodes, path, 0, w, w, 0);
      out := DescendFromPath(nodes, path, k, low, keep, w, |Flat(w)| - 1);
      return out;
    }
    var ok; ghost var r;
    ok, r := SeekLessOrEqual(nodes, path, high.value, k, w);
    SeekPlaceRange(Flat(w), k, high.value, r);
    KeyAtEquals(Flat(w), k, r, high.value);
    HighPlace(Flat(w), k, b, r, KeyAt(Flat(w), k, r, high.value));
    DescendFrom(Flat(w), k, b, if KeyAt(Flat(w), k, r, high.value) then r + 1 else r, keep);
    if !ok {
      return [];
    }
    out := DescendFromPath(nodes, path, k, low, keep, w, if KeyAt(Flat(w), k, r, high.value) then r else r - 1);
  }
}
