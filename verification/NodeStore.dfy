/** The heap of pages (node_store.h): pages by id, a stack of freed ids, a live count. */
module NodeStore {
  import opened Wrappers
  import opened Keys
  import opened Patricia
  import opened PageTree
  import opened Cartesian
  import opened NodePages
  import opened Sequences

  /** Ids share a word with the child tag, so they stay below it. */
  const CHILD_TAG: nat := 0x8000_0000_0000_0000

  /** The free stack lists exactly the ids without a page, each once. */
  ghost predicate FreeListed(nodes: seq<NodePage?>, free: seq<nat>, live: nat) {
    && (forall k :: 0 <= k < |free| ==> free[k] < |nodes| && nodes[free[k]] == null)
    && (forall i :: 0 <= i < |nodes| && nodes[i] == null ==> i in free)
    && (forall j, k :: 0 <= j < k < |free| ==> free[j] != free[k])
    && live + |free| == |nodes|
  }

  lemma FreePop(nodes: seq<NodePage?>, free: seq<nat>, live: nat, page: NodePage)
    requires FreeListed(nodes, free, live) && free != []
    ensures var id := free[|free| - 1];
      id < |nodes| && nodes[id] == null && FreeListed(nodes[id := page], free[..|free| - 1], live + 1)
  {
    var id := free[|free| - 1];
    var free2 := free[..|free| - 1];
    forall i | 0 <= i < |nodes| && nodes[id := page][i] == null ensures i in free2 {
      assert i in free;
      assert free == free2 + [id];
    }
  }

  lemma FreePush(nodes: seq<NodePage?>, free: seq<nat>, live: nat, id: nat)
    requires FreeListed(nodes, free, live) && id < |nodes| && nodes[id] != null && live > 0
    ensures FreeListed(nodes[id := null], free + [id], live - 1)
  {
    assert id !in free;
    var free2 := free + [id];
    forall i | 0 <= i < |nodes| && nodes[id := null][i] == null ensures i in free2 {
      assert i != id ==> i in free;
    }
  }

  lemma FreeGrow(nodes: seq<NodePage?>, free: seq<nat>, live: nat, page: NodePage)
    requires FreeListed(nodes, free, live)
    ensures FreeListed(nodes + [page], free, live + 1)
  {
  }

  class HeapNodeStore {
    var nodes: seq<NodePage?>
    var free: seq<nat>
    var live: nat
    ghost var Repr: set<object>

    ghost predicate Owns(i: nat)
      reads this, Repr
    {
      i < |nodes| && nodes[i] != null ==>
        nodes[i] in Repr && nodes[i].routes in Repr && nodes[i].reps in Repr && nodes[i].Sized()
    }

    ghost predicate Apart(i: nat, j: nat)
      reads this
    {
      i < |nodes| && j < |nodes| && i != j && nodes[i] != null && nodes[j] != null ==>
        nodes[i] != nodes[j] && nodes[i].routes != nodes[j].routes && nodes[i].reps != nodes[j].reps
    }

    ghost predicate Valid()
      reads this, Repr
    {
      && this in Repr
      && |nodes| > 0 && nodes[0] != null
      && (forall i: nat :: Owns(i))
      && (forall i: nat, j: nat :: Apart(i, j))
      && FreeListed(nodes, free, live)
    }

    /** The live pages by id. */
    ghost function View(): map<nat, PageView>
      reads this, Repr
      requires Valid()
    {
      map i: nat | i < |nodes| && nodes[i] != null && Owns(i) :: nodes[i].View()
    }

    /** The id that the next page gets: the one freed last, or else a new one. */
    function NextId(): nat
      reads this
    {
      if free != [] then free[|free| - 1] else |nodes|
    }

    lemma NextIdFree()
      requires Valid()
      ensures NextId() !in View()
    {
      assert Owns(NextId());
    }

    /** LiveNodes counts the live pages. */
    lemma LiveCount()
      requires Valid()
      ensures |View()| == live && 0 in View()
    {
      forall i: nat | i in Range(|nodes|) ensures i in View().Keys || i in free {
        assert Owns(i);
      }
      SplitSize(View().Keys, free, |nodes|);
      assert Owns(0);
    }

    constructor ()
      ensures Valid() && fresh(Repr)
      ensures View() == map[0 := EMPTY_PAGE] && live == 1
    {
      var page := new NodePage();
      nodes := [page];
      free := [];
      live := 1;
      new;
      Repr := {this, page, page.routes, page.reps};
    }

    method Get(id: nat) returns (page: NodePage?)
      requires Valid()
      ensures page != null <==> id in View()
      ensures page != null ==> id < |nodes| && page == nodes[id] && page.Sized() && page.View() == View()[id]
      ensures page != null ==>
        page.size == |View()[id].reps| && page.firstPos == View()[id].first && page.lastPos == View()[id].last
    {
      assert Owns(id);
      page := if id >= |nodes| then null else nodes[id];
    }

    /** Alloc hands out the id freed last, or a new one; the page is empty either way. It
        fails only when no id is left below the child tag. */
    method Alloc() returns (r: Result<nat>)
      requires Valid()
      modifies this
      ensures Valid() && fresh(Repr - old(Repr))
      ensures r.Err? <==> old(free) == [] && |old(nodes)| >= CHILD_TAG
      ensures r.Err? ==> r == Err(PositionTag) && View() == old(View()) && live == old(live)
      ensures r.Err? ==> |nodes| >= CHILD_TAG
      ensures r.Ok? ==> r.value !in old(View()) && r.value != 0
      ensures r.Ok? ==> r.value == old(NextId())
      ensures free == if old(free) != [] then old(free[..|free| - 1]) else []
      ensures |nodes| == |old(nodes)| + if r.Ok? && old(free) == [] then 1 else 0
      ensures r.Ok? ==> View() == old(View())[r.value := EMPTY_PAGE] && live == old(live) + 1
    {
      if free != [] {
        var id := free[|free| - 1];
        var page := new NodePage();
        FreePop(nodes, free, live, page);
        free := free[..|free| - 1];
        nodes := nodes[id := page];
        live := live + 1;
        Repr := Repr + {page, page.routes, page.reps};
        Placed(id);
        return Ok(id);
      }
      var id := |nodes|;
      if id >= CHILD_TAG {
        return Err(PositionTag);
      }
      var page := new NodePage();
      FreeGrow(nodes, free, live, page);
      nodes := nodes + [page];
      live := live + 1;
      Repr := Repr + {page, page.routes, page.reps};
      Placed(id);
      return Ok(id);
    }

    /** Only the store's own fields changed; the pages did not. */
    twostate predicate OthersSame()
      reads *
    {
      forall o :: o in old(Repr) && o != this ==> unchanged(o)
    }

    twostate lemma SamePage(i: nat)
      requires old(Valid()) && OthersSame() && old(Repr) <= Repr
      requires i < |nodes| && i < |old(nodes)| && nodes[i] == old(nodes)[i]
      ensures Owns(i)
      ensures nodes[i] != null ==> nodes[i].Sized() && old(nodes[i].Sized()) && nodes[i].View() == old(nodes[i].View())
    {
      assert old(Owns(i));
      if nodes[i] != null {
        assert nodes[i] in old(Repr) && nodes[i].routes in old(Repr) && nodes[i].reps in old(Repr);
        assert unchanged(nodes[i]) && unchanged(nodes[i].routes) && unchanged(nodes[i].reps);
      }
    }

    /** A fresh page put under an id that had none keeps the heap valid. */
    twostate predicate PlacedPage(id: nat)
      reads *
    {
      && old(Valid()) && id < |nodes| && (id < |old(nodes)| ==> old(nodes)[id] == null)
      && |old(nodes)| <= |nodes|
      && nodes[id] != null && fresh(nodes[id]) && fresh(nodes[id].routes) && fresh(nodes[id].reps)
      && Repr == old(Repr) + {nodes[id], nodes[id].routes, nodes[id].reps}
      && nodes[id].Sized() && nodes[id].View() == EMPTY_PAGE
      && (forall i :: 0 <= i < |nodes| && i != id ==> i < |old(nodes)| && nodes[i] == old(nodes)[i])
      && OthersSame()
    }

    twostate lemma Placed(id: nat)
      requires PlacedPage(id) && FreeListed(nodes, free, live)
      ensures Valid() && id !in old(View()) && id != 0 && View() == old(View())[id := EMPTY_PAGE]
    {
      hide Owns, Apart, FreeListed;
      PlacedOwned(id);
      PlacedApart(id);
      PlacedView(id);
    }

    twostate lemma PlacedOwned(id: nat)
      requires PlacedPage(id)
      ensures forall i: nat :: Owns(i)
    {
      forall i: nat ensures Owns(i) {
        if i < |nodes| && i != id {
          var page := nodes[i];
          SamePage(i);
        }
      }
    }

    twostate lemma PlacedApart(id: nat)
      requires PlacedPage(id)
      ensures forall i: nat, j: nat :: Apart(i, j)
    {
      forall i: nat, j: nat ensures Apart(i, j) {
        assert old(Owns(i)) && old(Owns(j)) && old(Apart(i, j));
      }
    }

    twostate lemma PlacedPages(id: nat)
      requires PlacedPage(id)
      ensures forall i: nat :: i < |nodes| && i != id && nodes[i] != null ==>
        nodes[i].Sized() && old(nodes[i].Sized()) && nodes[i].View() == old(nodes[i].View())
    {
      forall i: nat | i < |nodes| && i != id && nodes[i] != null
        ensures nodes[i].Sized() && old(nodes[i].Sized()) && nodes[i].View() == old(nodes[i].View())
      {
        SamePage(i);
      }
    }

    twostate lemma PlacedView(id: nat)
      requires PlacedPage(id) && Valid()
      ensures id !in old(View()) && View() == old(View())[id := EMPTY_PAGE]
    {
      PlacedPages(id);
      forall i: nat
        ensures i in View() <==> i == id || i in old(View())
        ensures i in old(View()) && i != id ==> View()[i] == old(View())[i]
      {
        assert Owns(i) && old(Owns(i));
      }
    }

    lemma IdStored(id: nat)
      requires Valid()
      ensures id in View() <==> id < |nodes| && nodes[id] != null
      ensures id in View() ==> live > 0
      ensures FreeListed(nodes, free, live)
    {
      hide FreeListed;
      assert Owns(id);
      LiveCount();
    }

    /** Free gives back any live page but the root. */
    method Free(id: nat) returns (ok: bool)
      requires Valid()
      modifies this
      ensures Valid() && Repr == old(Repr)
      ensures ok <==> id != 0 && id in old(View())
      ensures ok ==> View() == old(View()) - {id} && live == old(live) - 1
      ensures !ok ==> View() == old(View()) && live == old(live) && free == old(free)
      ensures ok ==> free == old(free) + [id] && NextId() == id
      ensures |nodes| == |old(nodes)|
    {
      hide Owns, Apart, FreeListed, View, Valid;
      IdStored(id);
      if id == 0 || id >= |nodes| || nodes[id] == null {
        return false;
      }
      FreePush(nodes, free, live, id);
      nodes := nodes[id := null];
      free := free + [id];
      live := live - 1;
      Dropped(id);
      return true;
    }

    twostate lemma Dropped(id: nat)
      requires old(Valid()) && 0 < id < |nodes|
      requires |old(nodes)| == |nodes| && nodes == old(nodes)[id := null] && Repr == old(Repr)
      requires OthersSame() && FreeListed(nodes, free, live)
      ensures Valid() && View() == old(View()) - {id}
    {
      hide Owns, Apart, FreeListed;
      DroppedOwned(id);
      DroppedApart(id);
      DroppedView(id);
    }

    twostate lemma DroppedOwned(id: nat)
      requires old(Valid()) && 0 < id < |nodes|
      requires |old(nodes)| == |nodes| && nodes == old(nodes)[id := null] && Repr == old(Repr)
      requires OthersSame()
      ensures forall i: nat :: Owns(i)
    {
      forall i: nat ensures Owns(i) {
        if i < |nodes| && i != id {
          SamePage(i);
        }
      }
    }

    twostate lemma DroppedApart(id: nat)
      requires old(Valid()) && 0 < id < |nodes|
      requires |old(nodes)| == |nodes| && nodes == old(nodes)[id := null]
      ensures forall i: nat, j: nat :: Apart(i, j)
    {
      forall i: nat, j: nat ensures Apart(i, j) {
        assert old(Apart(i, j));
      }
    }

    twostate lemma DroppedView(id: nat)
      requires old(Valid()) && Valid() && 0 < id < |nodes|
      requires |old(nodes)| == |nodes| && nodes == old(nodes)[id := null] && Repr == old(Repr)
      requires OthersSame()
      ensures View() == old(View()) - {id}
    {
      forall i: nat ensures i in View() <==> i != id && i in old(View()) {
        assert Owns(i) && old(Owns(i));
      }
      forall i: nat | i in View() ensures View()[i] == old(View())[i] {
        SamePage(i);
      }
    }

    // ------------------------------------------------------- editing one page

    /** Only the page under id changed, with its arrays. */
    twostate predicate OnlyPage(id: nat)
      reads *
    {
      && old(Valid()) && id < |nodes| && nodes[id] != null && nodes[id].Sized()
      && nodes == old(nodes) && free == old(free) && live == old(live) && Repr == old(Repr)
      && forall o :: o in old(Repr) && o != nodes[id] && o != nodes[id].routes && o != nodes[id].reps ==> unchanged(o)
    }

    twostate predicate PageKept(i: nat)
      reads *
    {
      i < |nodes| && i < |old(nodes)| && nodes[i] == old(nodes)[i] && Owns(i) && old(Owns(i))
      && (nodes[i] != null ==> nodes[i].View() == old(nodes[i].View()))
    }

    twostate lemma OtherPages(id: nat)
      requires OnlyPage(id)
      ensures forall i: nat :: i != id && i < |nodes| ==> PageKept(i)
    {
      forall i: nat | i != id && i < |nodes| ensures PageKept(i) {
        assert old(Owns(i)) && old(Owns(id)) && old(Apart(i, id));
        assert nodes[i] != null ==> unchanged(nodes[i]) && unchanged(nodes[i].routes) && unchanged(nodes[i].reps);
      }
    }

    twostate lemma Edited(id: nat)
      requires OnlyPage(id)
      ensures Valid()
      ensures View() == old(View())[id := nodes[id].View()]
    {
      hide Owns, Apart, FreeListed, PageKept;
      OtherPages(id);
      EditedOwned(id);
      EditedApart(id);
      EditedView(id);
    }

    twostate lemma EditedOwned(id: nat)
      requires OnlyPage(id)
      requires forall i: nat :: i != id && i < |nodes| ==> PageKept(i)
      ensures forall i: nat :: Owns(i)
    {
      forall i: nat ensures Owns(i) {
        assert old(Owns(i));
        assert i != id && i < |nodes| ==> PageKept(i);
      }
    }

    twostate lemma EditedApart(id: nat)
      requires OnlyPage(id)
      ensures forall i: nat, j: nat :: Apart(i, j)
    {
      forall i: nat, j: nat ensures Apart(i, j) {
        assert old(Apart(i, j));
      }
    }

    lemma ViewAt(i: nat)
      requires Valid()
      ensures i in View() <==> i < |nodes| && nodes[i] != null
      ensures i in View() ==> nodes[i].Sized() && View()[i] == nodes[i].View()
    {
      assert Owns(i);
    }

    twostate lemma EditedAll(id: nat)
      requires OnlyPage(id) && Valid()
      requires forall i: nat :: i != id && i < |nodes| ==> PageKept(i)
      ensures forall i: nat :: i in View() <==> i in old(View())
      ensures forall i: nat :: i in View() ==> View()[i] == if i == id then nodes[id].View() else old(View())[i]
    {
      forall i: nat
        ensures i in View() <==> i in old(View())
        ensures i in View() ==> View()[i] == if i == id then nodes[id].View() else old(View())[i]
      {
        assert old(Owns(i)) && Owns(i);
        assert i != id && i < |nodes| ==> PageKept(i);
      }
    }

    twostate lemma EditedView(id: nat)
      requires OnlyPage(id) && Valid()
      requires forall i: nat :: i != id && i < |nodes| ==> PageKept(i)
      ensures View() == old(View())[id := nodes[id].View()]
    {
      EditedAll(id);
      hide View, Valid, PageKept;
      ViewAt(id);
    }

    method InsertRecordIn(id: nat, slot: nat, pos: Position, key: Key, diff: nat, ghost t: Tree)
      requires Valid() && id in View() && |View()[id].reps| < MAX_NODE_REPS
      requires View()[id].reps == [] ==> slot == 0
      requires View()[id].reps != [] ==> View()[id] == PageOf(t) && slot == InsertSlot(t, key, diff)
      modifies Repr
      ensures Valid() && unchanged(this)
      ensures View()
        == old(View())[id := PageOf(if old(View()[id].reps) == [] then Rec(pos) else InsertHere(t, key, diff, pos))]
    {
      hide PageOf, InsertHere, InsertSlot;
      assert Owns(id);
      nodes[id].InsertRecord(slot, pos, key, diff, t);
      Edited(id);
    }

    method RemoveSlotIn(id: nat, slot: nat, first: Position, last: Position, ghost t: Tree)
      requires Valid() && id in View() && View()[id] == PageOf(t) && slot < Count(t)
      modifies Repr
      ensures Valid() && unchanged(this)
      ensures View() == old(View())[id := if Count(t) == 1 then EMPTY_PAGE
        else PageView(Reps(DeleteHere(t, slot)), Routes(DeleteHere(t, slot)), first, last)]
    {
      hide Reps, Routes, DeleteHere;
      assert Owns(id);
      assert nodes[id].size == Count(t) by { nodes[id].ViewHolds(t); }
      nodes[id].RemoveSlot(slot, first, last, t);
      Edited(id);
    }

    method WriteIn(id: nat, reps: seq<Rep>, diffs: seq<nat>, first: Position, last: Position)
      requires Valid() && id in View()
      requires 1 <= |reps| <= MAX_NODE_REPS && |diffs| == |reps| - 1
      modifies Repr
      ensures Valid() && unchanged(this)
      ensures View() == old(View())[id := PageView(reps, CartRoutes(diffs, 0, |diffs|), first, last)]
    {
      hide CartRoutes;
      assert Owns(id);
      nodes[id].Write(reps, diffs, first, last);
      Edited(id);
    }

    method SetBoundsIn(id: nat, first: Position, last: Position)
      requires Valid() && id in View()
      modifies Repr
      ensures Valid() && unchanged(this)
      ensures View() == old(View())[id := old(View()[id]).(first := first, last := last)]
    {
      assert Owns(id);
      nodes[id].firstPos := first;
      nodes[id].lastPos := last;
      Edited(id);
    }

    method SetRepIn(id: nat, slot: nat, rep: Rep)
      requires Valid() && id in View() && slot < |View()[id].reps|
      modifies Repr
      ensures Valid() && unchanged(this)
      ensures View() == old(View())[id := old(View()[id]).(reps := old(View()[id].reps)[slot := rep])]
    {
      assert Owns(id);
      var page := nodes[id];
      ghost var before := page.View();
      page.reps[slot] := rep;
      assert page.View().reps == before.reps[slot := rep];
      Edited(id);
    }

    method CopyPage(to: nat, from: nat)
      requires Valid() && to in View() && from in View() && to != from
      modifies Repr
      ensures Valid() && unchanged(this)
      ensures View() == old(View())[to := old(View()[from])]
    {
      assert Owns(to) && Owns(from) && Apart(to, from);
      nodes[to].CopyFrom(nodes[from]);
      Edited(to);
    }
  }
}
