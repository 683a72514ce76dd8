/** The meaning of the paged index: one Patricia tree cut into pages.

    A `Tree` is the whole index seen as a single binary tree whose inner nodes test one
    bit of the key. `Sub(id, body)` marks where a page begins: seen from the page above
    it is one slot that holds the child page `id`. Pages are therefore connected pieces of
    one tree, and moving a page boundary does not change the tree with its boundaries erased. */
module Patricia {
  import opened Wrappers
  import opened Keys
  import opened Sequences

  type Position = nat
  type Records = map<Position, Key>

  datatype Rep = Record(pos: Position) | Child(id: nat)
  datatype Route = Route(diff: nat, leftCount: nat)

  datatype Tree =
    | Rec(pos: Position)
    | Sub(id: nat, body: Tree)
    | Node(diff: nat, left: Tree, right: Tree)

  // ---------------------------------------------------------------- one page

  /** Slots of the page whose body is t. */
  function Count(t: Tree): (n: nat)
    ensures n >= 1
  {
    match t
    case Node(_, l, r) => Count(l) + Count(r)
    case _ => 1
  }

  function Reps(t: Tree): (s: seq<Rep>)
    ensures |s| == Count(t)
  {
    match t
    case Rec(p) => [Record(p)]
    case Sub(id, _) => [Child(id)]
    case Node(_, l, r) => Reps(l) + Reps(r)
  }

  /** The route array: preorder, each route with the number of slots to its left. */
  function Routes(t: Tree): (s: seq<Route>)
    ensures |s| == Count(t) - 1
  {
    match t
    case Node(d, l, r) => [Route(d, Count(l))] + Routes(l) + Routes(r)
    case _ => []
  }

  /** The tested bits in slot order: entry i lies between slots i and i + 1. */
  function Diffs(t: Tree): (s: seq<nat>)
    ensures |s| == Count(t) - 1
  {
    match t
    case Node(d, l, r) => Diffs(l) + [d] + Diffs(r)
    case _ => []
  }

  // ---------------------------------------------------------- the whole index

  function Flat(t: Tree): (s: seq<Position>)
    ensures |s| >= 1
  {
    match t
    case Rec(p) => [p]
    case Sub(_, b) => Flat(b)
    case Node(_, l, r) => Flat(l) + Flat(r)
  }

  function All(t: Tree): set<Position> {
    match t
    case Rec(p) => {p}
    case Sub(_, b) => All(b)
    case Node(_, l, r) => All(l) + All(r)
  }

  function First(t: Tree): (p: Position)
    ensures p in All(t) && p == Flat(t)[0]
  {
    match t
    case Rec(p) => p
    case Sub(_, b) => First(b)
    case Node(_, l, _) => First(l)
  }

  function Last(t: Tree): (p: Position)
    ensures p in All(t) && p == Flat(t)[|Flat(t)| - 1]
  {
    match t
    case Rec(p) => p
    case Sub(_, b) => Last(b)
    case Node(_, _, r) => Last(r)
  }

  /** The tree without its page boundaries. */
  function Erase(t: Tree): Tree {
    match t
    case Rec(p) => t
    case Sub(_, b) => Erase(b)
    case Node(d, l, r) => Node(d, Erase(l), Erase(r))
  }

  /** The sorted map the index stands for. */
  function Contents(t: Tree, k: Records): map<Key, Position> {
    match t
    case Rec(p) => if p in k then map[k[p] := p] else map[]
    case Sub(_, b) => Contents(b, k)
    case Node(_, l, r) => Contents(l, k) + Contents(r, k)
  }

  /** The bit d sends every key of A left and every key of B right, and is the first bit
      where a key of A and a key of B differ. */
  ghost predicate Parted(a: set<Position>, b: set<Position>, d: nat, k: Records) {
    && (forall p :: p in a ==> p in k && !Bit(k[p], d))
    && (forall q :: q in b ==> q in k && Bit(k[q], d))
    && (forall p, q :: p in a && q in b ==> Agree(k[p], k[q], d))
  }

  ghost predicate Valid(t: Tree, k: Records) {
    match t
    case Rec(p) => p in k
    case Sub(_, b) => Valid(b, k)
    case Node(d, l, r) => Valid(l, k) && Valid(r, k) && Parted(All(l), All(r), d, k)
  }

  lemma {:induction false} EraseKeeps(t: Tree, k: Records)
    ensures Flat(Erase(t)) == Flat(t) && All(Erase(t)) == All(t)
    ensures First(Erase(t)) == First(t) && Last(Erase(t)) == Last(t)
    ensures Contents(Erase(t), k) == Contents(t, k)
    ensures Valid(Erase(t), k) == Valid(t, k)
  {
    match t
    case Rec(p) =>
    case Sub(_, b) => EraseKeeps(b, k);
    case Node(_, l, r) => EraseKeeps(l, k); EraseKeeps(r, k);
  }

  lemma {:induction false} ValidRecords(t: Tree, k: Records)
    requires Valid(t, k)
    ensures forall p :: p in All(t) ==> p in k
  {
    match t
    case Rec(p) =>
    case Sub(_, b) => ValidRecords(b, k);
    case Node(_, l, r) => ValidRecords(l, k); ValidRecords(r, k);
  }

  /** A record store that only grows, or rewrites positions the index does not hold,
      leaves the index as it was. */
  lemma {:induction false} RecordsMayGrow(t: Tree, k: Records, k2: Records)
    requires Valid(t, k)
    requires forall p :: p in All(t) ==> p in k && p in k2 && k2[p] == k[p]
    ensures Valid(t, k2) && Contents(t, k2) == Contents(t, k)
  {
    match t
    case Rec(p) =>
    case Sub(_, b) => RecordsMayGrow(b, k, k2);
    case Node(_, l, r) => RecordsMayGrow(l, k, k2); RecordsMayGrow(r, k, k2);
  }

  lemma {:induction false} FlatIsAll(t: Tree)
    ensures forall p :: p in Flat(t) <==> p in All(t)
  {
    match t
    case Rec(p) =>
    case Sub(_, b) => FlatIsAll(b);
    case Node(_, l, r) => FlatIsAll(l); FlatIsAll(r);
  }

  ghost predicate KeyOf(t: Tree, k: Records, key: Key, p: Position) {
    p in All(t) && p in k && k[p] == key
  }

  /** Contents holds exactly the records, each under its own key. */
  lemma {:induction false} ContentsAre(t: Tree, k: Records)
    requires Valid(t, k)
    ensures forall key :: key in Contents(t, k) ==> KeyOf(t, k, key, Contents(t, k)[key])
    ensures forall p :: p in All(t) ==> p in k && k[p] in Contents(t, k) && Contents(t, k)[k[p]] == p
  {
    ValidRecords(t, k);
    match t
    case Rec(p) =>
    case Sub(_, b) => ContentsAre(b, k);
    case Node(d, l, r) =>
      ContentsAre(l, k);
      ContentsAre(r, k);
      forall p | p in All(l) ensures k[p] !in Contents(r, k) {
        assert !Bit(k[p], d);
        assert forall key :: key in Contents(r, k) ==> KeyOf(r, k, key, Contents(r, k)[key]);
      }
  }

  /** The tested bit of a key says on which side it can be stored. */
  lemma ContentsSides(t: Tree, k: Records)
    requires Valid(t, k) && t.Node?
    ensures forall key :: key in Contents(t.left, k) ==> !Bit(key, t.diff)
    ensures forall key :: key in Contents(t.right, k) ==> Bit(key, t.diff)
    ensures Contents(t.left, k).Keys !! Contents(t.right, k).Keys
  {
    ContentsAre(t.left, k);
    ContentsAre(t.right, k);
  }

  ghost predicate SortedKeys(s: seq<Position>, k: Records) {
    && (forall i :: 0 <= i < |s| ==> s[i] in k)
    && forall i, j :: 0 <= i < j < |s| ==> Less(k[s[i]], k[s[j]])
  }

  /** In-order traversal lists the records in increasing key order. */
  lemma {:induction false} FlatSorted(t: Tree, k: Records)
    requires Valid(t, k)
    ensures SortedKeys(Flat(t), k)
  {
    match t
    case Rec(p) =>
    case Sub(_, b) => FlatSorted(b, k);
    case Node(d, l, r) =>
      FlatSorted(l, k);
      FlatSorted(r, k);
      FlatIsAll(l);
      FlatIsAll(r);
      forall p, q | p in All(l) && q in All(r) ensures Less(k[p], k[q]) {
        PartedLess(All(l), All(r), d, k, p, q);
      }
  }

  lemma PartedLess(a: set<Position>, b: set<Position>, d: nat, k: Records, p: Position, q: Position)
    requires Parted(a, b, d, k) && p in a && q in b
    ensures FirstDiff(k[p], k[q], d) && Less(k[p], k[q])
  {
    assert FirstDiff(k[p], k[q], d);
    FirstDiffUnique(k[p], k[q], d);
    DiffIsFirst(k[p], k[q]);
  }

  lemma {:induction false} ContentsSize(t: Tree, k: Records)
    requires Valid(t, k)
    ensures |Contents(t, k)| == |Flat(t)|
  {
    match t
    case Rec(p) =>
    case Sub(_, b) => ContentsSize(b, k);
    case Node(d, l, r) =>
      ContentsSize(l, k);
      ContentsSize(r, k);
      ContentsSides(t, k);
      assert Contents(t, k).Keys == Contents(l, k).Keys + Contents(r, k).Keys;
  }

  // ------------------------------------------------------------------ lookup

  /** The slot the routes of one page lead to. */
  function Find(t: Tree, key: Key): (i: nat)
    ensures i < Count(t)
  {
    match t
    case Node(d, l, r) => if !Bit(key, d) then Find(l, key) else Count(l) + Find(r, key)
    case _ => 0
  }

  /** The record reached through all pages. */
  function Best(t: Tree, key: Key): (p: Position)
    ensures p in All(t)
  {
    match t
    case Rec(p) => p
    case Sub(_, b) => Best(b, key)
    case Node(d, l, r) => if !Bit(key, d) then Best(l, key) else Best(r, key)
  }

  /** No stored key shares a longer encoded prefix with the searched key than the record
      the search ends at. */
  lemma {:induction false} BestMatch(t: Tree, k: Records, key: Key, p: Position, n: nat)
    requires Valid(t, k) && p in All(t)
    requires p in k && Agree(key, k[p], n)
    ensures Best(t, key) in k && Agree(key, k[Best(t, key)], n)
  {
    ValidRecords(t, k);
    match t
    case Rec(_) =>
    case Sub(_, b) => BestMatch(b, k, key, p, n);
    case Node(d, l, r) =>
      var best := Best(t, key);
      if p in All(l) && !Bit(key, d) {
        BestMatch(l, k, key, p, n);
      } else if p in All(r) && Bit(key, d) {
        BestMatch(r, k, key, p, n);
      } else {
        // key and p part at d, so n <= d, and best agrees with p below d
        assert Bit(key, d) != Bit(k[p], d);
        assert Agree(k[p], k[best], d) by {
          if p in All(l) {
            assert best in All(r);
          } else {
            assert best in All(l);
          }
        }
      }
  }

  /** Lookup is exact: the key is stored iff the record reached carries it. */
  lemma {:induction false} BestExact(t: Tree, k: Records, key: Key)
    requires Valid(t, k)
    ensures Best(t, key) in k
    ensures key in Contents(t, k) <==> k[Best(t, key)] == key
    ensures key in Contents(t, k) ==> Contents(t, k)[key] == Best(t, key)
  {
    ValidRecords(t, k);
    ContentsAre(t, k);
    if key in Contents(t, k) {
      var p := Contents(t, k)[key];
      var best := Best(t, key);
      if k[best] != key {
        DiffIsFirst(key, k[best]);
        BestMatch(t, k, key, p, Diff(key, k[best]) + 1);
        assert false;
      }
    }
  }

  // ------------------------------------------------------------------ insert

  /** A new record beside t, on the side its bit says. */
  function Join(t: Tree, key: Key, diff: nat, pos: Position): Tree {
    if Bit(key, diff) then Node(diff, t, Rec(pos)) else Node(diff, Rec(pos), t)
  }

  /** Insertion: above the first node on the path that tests a later bit than diff. */
  function Insert(t: Tree, key: Key, diff: nat, pos: Position): Tree {
    match t
    case Rec(_) => Join(t, key, diff, pos)
    case Sub(id, b) => Sub(id, Insert(b, key, diff, pos))
    case Node(d, l, r) =>
      if diff < d then Join(t, key, diff, pos)
      else if !Bit(key, d) then Node(d, Insert(l, key, diff, pos), r)
      else Node(d, l, Insert(r, key, diff, pos))
  }

  /** What the caller knows when it inserts: diff is where the new key leaves the record
      that the search ended at. */
  ghost predicate Fresh(t: Tree, k: Records, key: Key, diff: nat, pos: Position) {
    && pos in k && k[pos] == key
    && Best(t, key) in k
    && FirstDiff(key, k[Best(t, key)], diff)
  }

  lemma {:induction false} InsertAll(t: Tree, key: Key, diff: nat, pos: Position)
    ensures All(Insert(t, key, diff, pos)) == All(t) + {pos}
  {
    match t
    case Rec(_) =>
    case Sub(_, b) => InsertAll(b, key, diff, pos);
    case Node(d, l, r) =>
      InsertAll(l, key, diff, pos);
      InsertAll(r, key, diff, pos);
  }

  /** Every key of t agrees with the record reached, up to and including bits tested
      before diff, when diff lies above t's own node. */
  lemma AgreeAbove(t: Tree, k: Records, key: Key, diff: nat)
    requires Valid(t, k) && (t.Node? ==> diff < t.diff) && !t.Sub?
    ensures Best(t, key) in k
    ensures forall p :: p in All(t) ==>
      p in k && Agree(k[p], k[Best(t, key)], diff) && Bit(k[p], diff) == Bit(k[Best(t, key)], diff)
  {
    ValidRecords(t, k);
    var best := Best(t, key);
    forall p | p in All(t)
      ensures Agree(k[p], k[best], diff) && Bit(k[p], diff) == Bit(k[best], diff)
    {
      if t.Node? {
        AgreeWithin(t, k, p, best);
        assert Bit(k[p], diff) == Bit(k[best], diff);
      }
    }
  }

  lemma AgreeWithin(t: Tree, k: Records, p: Position, q: Position)
    requires Valid(t, k) && t.Node? && p in All(t) && q in All(t)
    ensures p in k && q in k && Agree(k[p], k[q], t.diff)
  {
    ValidRecords(t, k);
    var a, b := First(t.left), First(t.right);
    if p in All(t.left) && q in All(t.left) {
      assert Agree(k[p], k[b], t.diff) && Agree(k[q], k[b], t.diff);
    } else if p in All(t.right) && q in All(t.right) {
      assert Agree(k[a], k[p], t.diff) && Agree(k[a], k[q], t.diff);
    } else if p in All(t.left) {
      assert Agree(k[p], k[q], t.diff);
    } else {
      assert Agree(k[q], k[p], t.diff);
    }
  }

  lemma {:induction false} InsertValid(t: Tree, k: Records, key: Key, diff: nat, pos: Position)
    requires Valid(t, k) && Fresh(t, k, key, diff, pos)
    ensures Valid(Insert(t, key, diff, pos), k)
  {
    ValidRecords(t, k);
    var best := Best(t, key);
    match t
    case Rec(_) =>
      JoinValid(t, k, key, diff, pos);
    case Sub(_, b) =>
      InsertValid(b, k, key, diff, pos);
    case Node(d, l, r) =>
      if diff < d {
        JoinValid(t, k, key, diff, pos);
      } else if diff == d {
        assert false;
      } else {
        var side := if !Bit(key, d) then l else r;
        InsertValid(side, k, key, diff, pos);
        InsertAll(side, key, diff, pos);
        assert Agree(key, k[best], d);
        forall p | p in All(if !Bit(key, d) then r else l) ensures Agree(k[p], key, d) {
          AgreeWithin(t, k, p, best);
        }
      }
  }

  lemma JoinValid(t: Tree, k: Records, key: Key, diff: nat, pos: Position)
    requires Valid(t, k) && Fresh(t, k, key, diff, pos)
    requires !t.Sub? && (t.Node? ==> diff < t.diff)
    ensures Valid(Join(t, key, diff, pos), k)
  {
    AgreeAbove(t, k, key, diff);
    forall p | p in All(t)
      ensures p in k && Agree(k[p], key, diff) && Bit(k[p], diff) != Bit(key, diff)
    {
    }
  }

  lemma FreshAbsent(t: Tree, k: Records, key: Key, diff: nat, pos: Position)
    requires Valid(t, k) && Fresh(t, k, key, diff, pos)
    ensures key !in Contents(t, k)
  {
    FirstDiffUnique(key, k[Best(t, key)], diff);
    BestExact(t, k, key);
  }

  /** Insertion adds exactly the new key. */
  lemma {:induction false} InsertContents(t: Tree, k: Records, key: Key, diff: nat, pos: Position)
    requires Valid(t, k) && Fresh(t, k, key, diff, pos) && key !in Contents(t, k)
    ensures Contents(Insert(t, key, diff, pos), k) == Contents(t, k)[key := pos]
  {
    match t
    case Rec(p) =>
    case Sub(_, b) => InsertContents(b, k, key, diff, pos);
    case Node(d, l, r) =>
      if diff > d {
        InsertContents(if !Bit(key, d) then l else r, k, key, diff, pos);
        UnionPut(Contents(l, k), Contents(r, k), key, pos);
      }
  }

  // ----------------------------------------------------------------- replace

  /** The record the search ends at gets a new position. */
  function Replace(t: Tree, key: Key, pos: Position): Tree {
    match t
    case Rec(_) => Rec(pos)
    case Sub(id, b) => Sub(id, Replace(b, key, pos))
    case Node(d, l, r) =>
      if !Bit(key, d) then Node(d, Replace(l, key, pos), r) else Node(d, l, Replace(r, key, pos))
  }

  lemma {:induction false} ReplaceAll(t: Tree, key: Key, pos: Position)
    ensures All(Replace(t, key, pos)) <= All(t) + {pos} && pos in All(Replace(t, key, pos))
  {
    match t
    case Rec(_) =>
    case Sub(_, b) => ReplaceAll(b, key, pos);
    case Node(d, l, r) => ReplaceAll(l, key, pos); ReplaceAll(r, key, pos);
  }

  lemma {:induction false} ReplaceValid(t: Tree, k: Records, key: Key, pos: Position)
    requires Valid(t, k) && pos in k && k[pos] == key
    requires Best(t, key) in k && k[Best(t, key)] == key
    ensures Valid(Replace(t, key, pos), k)
  {
    ValidRecords(t, k);
    match t
    case Rec(_) =>
    case Sub(_, b) => ReplaceValid(b, k, key, pos);
    case Node(d, l, r) =>
      var side := if !Bit(key, d) then l else r;
      ReplaceValid(side, k, key, pos);
      ReplaceAll(side, key, pos);
      assert k[Best(t, key)] == k[pos];
  }

  /** Replacing rebinds exactly the one key. */
  lemma {:induction false} ReplaceContents(t: Tree, k: Records, key: Key, pos: Position)
    requires Valid(t, k) && pos in k && k[pos] == key
    requires Best(t, key) in k && k[Best(t, key)] == key
    ensures key in Contents(t, k)
    ensures Contents(Replace(t, key, pos), k) == Contents(t, k)[key := pos]
  {
    match t
    case Rec(_) =>
    case Sub(_, b) => ReplaceContents(b, k, key, pos);
    case Node(d, l, r) =>
      ReplaceContents(if !Bit(key, d) then l else r, k, key, pos);
      ContentsSides(t, k);
      UnionPut(Contents(l, k), Contents(r, k), key, pos);
  }

  /** The stored key of the record reached leads to that record on the same path. */
  lemma {:induction false} SamePath(t: Tree, k: Records, key: Key, pos: Position)
    requires Valid(t, k)
    ensures Best(t, key) in k
    ensures Best(t, k[Best(t, key)]) == Best(t, key)
    ensures Replace(t, k[Best(t, key)], pos) == Replace(t, key, pos)
  {
    ValidRecords(t, k);
    match t
    case Rec(_) =>
    case Sub(_, b) => SamePath(b, k, key, pos);
    case Node(d, l, r) => SamePath(if !Bit(key, d) then l else r, k, key, pos);
  }

  lemma {:induction false} ContentsHonest(t: Tree, k: Records)
    ensures forall key :: key in Contents(t, k) ==> Contents(t, k)[key] in k && k[Contents(t, k)[key]] == key
  {
    match t
    case Rec(_) =>
    case Sub(_, b) => ContentsHonest(b, k);
    case Node(_, l, r) => ContentsHonest(l, k); ContentsHonest(r, k);
  }

  /** Retarget compares positions, not keys: it rebinds the stored key exactly when the new
      position carries the same key as the old one. */
  lemma RetargetExact(t: Tree, k: Records, key: Key, pos: Position)
    requires Valid(t, k) && pos in k
    ensures Best(t, key) in k && k[Best(t, key)] in Contents(t, k)
    ensures Contents(Replace(t, key, pos), k) == Contents(t, k)[k[Best(t, key)] := pos] <==> k[pos] == k[Best(t, key)]
  {
    SamePath(t, k, key, pos);
    ContentsAre(t, k);
    var stored := k[Best(t, key)];
    if k[pos] == stored {
      ReplaceContents(t, k, stored, pos);
    } else {
      ContentsHonest(Replace(t, key, pos), k);
      assert Contents(t, k)[stored := pos][stored] == pos;
    }
  }

  /** A position that carries another key: the stored key is lost. */
  lemma RetargetToOtherKey()
    ensures var k: Records := map[0 := [], 1 := [1]];
      && Valid(Rec(0), k) && [] in Contents(Rec(0), k)
      && [] !in Contents(Replace(Rec(0), [], 1), k)
  {
  }

  // ------------------------------------------------------------------ delete

  /** Removal of the record the search ends at; its sibling takes its parent's place. */
  function Delete(t: Tree, key: Key): Option<Tree> {
    match t
    case Rec(_) => None
    case Sub(id, b) =>
      (match Delete(b, key)
       case None => None
       case Some(b') => Some(Sub(id, b')))
    case Node(d, l, r) =>
      if !Bit(key, d) then
        (match Delete(l, key)
         case None => Some(r)
         case Some(l') => Some(Node(d, l', r)))
      else
        (match Delete(r, key)
         case None => Some(l)
         case Some(r') => Some(Node(d, l, r')))
  }

  lemma {:induction false} DeleteAll(t: Tree, key: Key)
    ensures Delete(t, key).Some? ==> All(Delete(t, key).value) <= All(t)
  {
    match t
    case Rec(_) =>
    case Sub(_, b) => DeleteAll(b, key);
    case Node(_, l, r) => DeleteAll(l, key); DeleteAll(r, key);
  }

  lemma {:induction false} DeleteValid(t: Tree, k: Records, key: Key)
    requires Valid(t, k)
    ensures Delete(t, key).None? <==> |Flat(t)| == 1
    ensures Delete(t, key).Some? ==> Valid(Delete(t, key).value, k)
  {
    match t
    case Rec(_) =>
    case Sub(_, b) => DeleteValid(b, k, key);
    case Node(d, l, r) =>
      var side := if !Bit(key, d) then l else r;
      DeleteValid(side, k, key);
      DeleteAll(side, key);
  }

  /** Deleting a stored key removes exactly that key. */
  lemma {:induction false} DeleteContents(t: Tree, k: Records, key: Key)
    requires Valid(t, k)
    requires Best(t, key) in k && k[Best(t, key)] == key
    ensures Delete(t, key).None? ==> Contents(t, k) == map[key := Best(t, key)]
    ensures Delete(t, key).Some? ==> Contents(Delete(t, key).value, k) == Contents(t, k) - {key}
  {
    match t
    case Rec(_) =>
    case Sub(_, b) => DeleteContents(b, k, key);
    case Node(d, l, r) =>
      DeleteContents(if !Bit(key, d) then l else r, k, key);
      ContentsSides(t, k);
      UnionRemove(Contents(l, k), Contents(r, k), key);
  }
}
