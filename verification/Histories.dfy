/** Whole runs of a store: the calls lead from directory to directory in single steps, and wherever
    a crash cuts a run off, the directory recovers the outcome of a contiguous prefix of them. */
module Histories {
  import opened Wrappers
  import opened Keys
  import opened Codec
  import opened WalFormat
  import opened WalSegments
  import opened WalLog
  import opened WalFiles
  import opened CheckpointFiles
  import opened Recovery
  import opened Disks
  import opened LiveItems
  import opened Checkpoints
  import opened Stores
  import opened Sequences

  datatype Call = PutCall(key: Key, value: Bytes) | DeleteCall(key: Key)

  function Apply(m: Values, c: Call): Values {
    match c
    case PutCall(key, value) => m[key := value]
    case DeleteCall(key) => m - {key}
  }

  /** The map after the first n calls, of which only the acknowledged ones count. */
  function Outcome(m: Values, calls: seq<Call>, acks: seq<bool>, n: nat): Values
    requires n <= |acks| <= |calls|
  {
    if n == 0 then m
    else if acks[n - 1] then Apply(Outcome(m, calls, acks, n - 1), calls[n - 1])
    else Outcome(m, calls, acks, n - 1)
  }

  lemma {:induction false} OutcomeKept(m: Values, calls: seq<Call>, acks: seq<bool>, more: seq<bool>, n: nat)
    requires n <= |acks| && |acks + more| <= |calls|
    ensures Outcome(m, calls, acks + more, n) == Outcome(m, calls, acks, n)
  {
    if n > 0 {
      OutcomeKept(m, calls, acks, more, n - 1);
    }
  }

  /** Whether a call succeeds, from the directory it meets and the map that one recovers. */
  ghost predicate Acceptable(walSize: nat, d: Disk, m: Values, c: Call) {
    && Loadable(walSize, d)
    && var view := OpenView(walSize, DiskFiles(d));
       match c
       case PutCall(key, value) => |key| <= MAX_KEY_SIZE && TakesRecord(walSize, view, key, value)
       case DeleteCall(key) => |key| <= MAX_KEY_SIZE && (key !in m || TakesRecord(walSize, view, key, []))
  }

  /** The record a call writes, if it writes one. */
  function OpOf(c: Call): bv8 { if c.PutCall? then OP_PUT else OP_DELETE }
  function ValueOf(c: Call): Bytes { if c.PutCall? then c.value else [] }

  predicate Writes(m: Values, c: Call) {
    |c.key| <= MAX_KEY_SIZE && (c.PutCall? || c.key in m)
  }

  /** Where a call leads: to the directory with its record in the last WAL file, or in a new one;
      and after success, if these are more than four, to the checkpoint of the next generation. */
  ghost predicate Lands(walSize: nat, d: Disk, m: Values, c: Call, ack: bool, d2: Disk, m2: Values) {
    && Loadable(walSize, d) && walSize >= HEADER && Opens(walSize, DiskFiles(d))
    && if Writes(m, c) then
         exists active: nat :: Highest(OpenView(walSize, DiskFiles(d)), active) && (
           var g, view := DiskGeneration(d).value,
               WithRecord(walSize, OpenView(walSize, DiskFiles(d)), active, OpOf(c), c.key, ValueOf(c));
           if ack && |view| > CHECKPOINT_SEGMENTS then LandsAhead(walSize, g, d2, m2)
           else d2 == WithFiles(d, g, FilesOf(view)))
       else d2 == d
  }

  ghost predicate LandsAhead(walSize: nat, g: nat, d2: Disk, m2: Values)
    requires walSize >= HEADER
  {
    exists live :: InKeyOrder(live) && SnapshotValues(live) == m2 && d2 == Checkpointed(walSize, g + 1, live)
  }

  /** One call: it leads from one directory to the next in single steps, it is acknowledged
      exactly when it is acceptable, it leads where its record does or to the checkpoint behind it,
      and on the way a crash recovers the map from before up to some step, and the map from after
      behind it. */
  ghost predicate CallStep(walSize: nat, d: Disk, m: Values, c: Call, ack: bool, images: seq<Disk>, d2: Disk,
                           m2: Values) {
    && Recovers(walSize, d, m) && Recovers(walSize, d2, m2)
    && Chain(DiskStep, d, images, d2) && Turns(walSize, images, m, m2)
    && (ack <==> Acceptable(walSize, d, m, c)) && m2 == (if ack then Apply(m, c) else m)
    && Lands(walSize, d, m, c, ack, d2, m2)
  }

  /** A run: disks[i] is the directory that call i meets, and passed[i] those on its way. */
  ghost predicate History(walSize: nat, m: Values, calls: seq<Call>, acks: seq<bool>, disks: seq<Disk>,
                          passed: seq<seq<Disk>>) {
    && |acks| <= |calls| && |disks| == |acks| + 1 && |passed| == |acks|
    && forall i :: 0 <= i < |acks| ==>
         CallStep(walSize, disks[i], Outcome(m, calls, acks, i), calls[i], acks[i], passed[i], disks[i + 1],
                  Outcome(m, calls, acks, i + 1))
  }

  /** Wherever two crashes cut off a run, one not before the other, each recovers the outcome of
      a contiguous prefix of its calls, the one before or after the call it hit, and the later
      crash never recovers less. */
  lemma CrashesRecoverPrefixes(walSize: nat, m: Values, calls: seq<Call>, acks: seq<bool>, disks: seq<Disk>,
                               passed: seq<seq<Disk>>, i: nat, j: nat, i2: nat, j2: nat)
    returns (n: nat, n2: nat)
    requires History(walSize, m, calls, acks, disks, passed)
    requires i < |passed| && j < |passed[i]| && i2 < |passed| && j2 < |passed[i2]|
    requires i < i2 || (i == i2 && j <= j2)
    ensures i <= n <= i + 1 && i2 <= n2 <= i2 + 1 && n <= n2
    ensures Recovers(walSize, passed[i][j], Outcome(m, calls, acks, n))
    ensures Recovers(walSize, passed[i2][j2], Outcome(m, calls, acks, n2))
  {
    hide Recovers, Apply, Acceptable, Outcome;
    var a, b := Outcome(m, calls, acks, i), Outcome(m, calls, acks, i + 1);
    assert CallStep(walSize, disks[i], a, calls[i], acks[i], passed[i], disks[i + 1], b);
    var k: nat :| TurnsAt(walSize, passed[i], k, a, b);
    n := if j < k then i else i + 1;
    if i == i2 {
      n2 := if j2 < k then i else i + 1;
    } else {
      var a2, b2 := Outcome(m, calls, acks, i2), Outcome(m, calls, acks, i2 + 1);
      assert CallStep(walSize, disks[i2], a2, calls[i2], acks[i2], passed[i2], disks[i2 + 1], b2);
      var k2: nat :| TurnsAt(walSize, passed[i2], k2, a2, b2);
      n2 := if j2 < k2 then i2 else i2 + 1;
    }
  }

  /** One more call. */
  lemma OneMoreCall(walSize: nat, m: Values, calls: seq<Call>, acks: seq<bool>, disks: seq<Disk>,
                    passed: seq<seq<Disk>>, ack: bool, images: seq<Disk>, d2: Disk, m2: Values)
    requires History(walSize, m, calls, acks, disks, passed) && |acks| < |calls|
    requires CallStep(walSize, disks[|acks|], Outcome(m, calls, acks, |acks|), calls[|acks|], ack, images, d2, m2)
    ensures Outcome(m, calls, acks + [ack], |acks| + 1) == m2
    ensures History(walSize, m, calls, acks + [ack], disks + [d2], passed + [images])
  {
    hide *;
    HistorySizes(walSize, m, calls, acks, disks, passed);
    var k, acks2 := |acks|, acks + [ack];
    StepEnds(walSize, disks[k], Outcome(m, calls, acks, k), calls[k], ack, images, d2, m2);
    OutcomeKept(m, calls, acks, [ack], k);
    OutcomeNext(m, calls, acks2, k);
    var disks2, passed2 := disks + [d2], passed + [images];
    forall i | 0 <= i < |acks2| ensures StepAt(walSize, m, calls, acks2, disks2, passed2, i) {
      if i < k {
        HistoryAt(walSize, m, calls, acks, disks, passed, i);
        OutcomeKept(m, calls, acks, [ack], i);
        OutcomeKept(m, calls, acks, [ack], i + 1);
        IsStepAt(walSize, m, calls, acks2, disks2, passed2, i);
      } else {
        IsStepAt(walSize, m, calls, acks2, disks2, passed2, i);
      }
    }
    HistoryBy(walSize, m, calls, acks2, disks2, passed2);
  }

  ghost predicate StepAt(walSize: nat, m: Values, calls: seq<Call>, acks: seq<bool>, disks: seq<Disk>,
                         passed: seq<seq<Disk>>, i: nat) {
    && i < |acks| <= |calls| && |disks| == |acks| + 1 && |passed| == |acks|
    && CallStep(walSize, disks[i], Outcome(m, calls, acks, i), calls[i], acks[i], passed[i], disks[i + 1],
                Outcome(m, calls, acks, i + 1))
  }

  lemma IsStepAt(walSize: nat, m: Values, calls: seq<Call>, acks: seq<bool>, disks: seq<Disk>,
                 passed: seq<seq<Disk>>, i: nat)
    requires i < |acks| <= |calls| && |disks| == |acks| + 1 && |passed| == |acks|
    requires CallStep(walSize, disks[i], Outcome(m, calls, acks, i), calls[i], acks[i], passed[i], disks[i + 1],
                      Outcome(m, calls, acks, i + 1))
    ensures StepAt(walSize, m, calls, acks, disks, passed, i)
  {
    hide CallStep, Outcome;
  }

  lemma HistorySizes(walSize: nat, m: Values, calls: seq<Call>, acks: seq<bool>, disks: seq<Disk>,
                     passed: seq<seq<Disk>>)
    requires History(walSize, m, calls, acks, disks, passed)
    ensures |acks| <= |calls| && |disks| == |acks| + 1 && |passed| == |acks|
  {
    hide CallStep, Outcome;
  }

  lemma HistoryAt(walSize: nat, m: Values, calls: seq<Call>, acks: seq<bool>, disks: seq<Disk>,
                  passed: seq<seq<Disk>>, i: nat)
    requires History(walSize, m, calls, acks, disks, passed) && i < |acks|
    ensures |acks| <= |calls| && |disks| == |acks| + 1 && |passed| == |acks|
    ensures CallStep(walSize, disks[i], Outcome(m, calls, acks, i), calls[i], acks[i], passed[i], disks[i + 1],
                     Outcome(m, calls, acks, i + 1))
  {
    hide CallStep, Outcome;
  }

  lemma HistoryBy(walSize: nat, m: Values, calls: seq<Call>, acks: seq<bool>, disks: seq<Disk>,
                  passed: seq<seq<Disk>>)
    requires |acks| <= |calls| && |disks| == |acks| + 1 && |passed| == |acks|
    requires forall i :: 0 <= i < |acks| ==> StepAt(walSize, m, calls, acks, disks, passed, i)
    ensures History(walSize, m, calls, acks, disks, passed)
  {
    hide CallStep, Outcome;
    forall i | 0 <= i < |acks|
      ensures CallStep(walSize, disks[i], Outcome(m, calls, acks, i), calls[i], acks[i], passed[i], disks[i + 1],
                       Outcome(m, calls, acks, i + 1))
    {
      assert StepAt(walSize, m, calls, acks, disks, passed, i);
    }
  }

  lemma StepEnds(walSize: nat, d: Disk, m: Values, c: Call, ack: bool, images: seq<Disk>, d2: Disk, m2: Values)
    requires CallStep(walSize, d, m, c, ack, images, d2, m2)
    ensures m2 == if ack then Apply(m, c) else m
  {
  }

  lemma OutcomeNext(m: Values, calls: seq<Call>, acks: seq<bool>, n: nat)
    requires n < |acks| <= |calls|
    ensures Outcome(m, calls, acks, n + 1)
      == if acks[n] then Apply(Outcome(m, calls, acks, n), calls[n]) else Outcome(m, calls, acks, n)
  {
  }

  /** Any run of puts and deletes. The calls lead from the directory at the start to the one at
      the end in single steps; each is acknowledged exactly when it is acceptable; and the store
      ends with the outcome of the acknowledged ones. The run stops early only when checkpoints
      run out of room. */
  method Run(store: Store, calls: seq<Call>)
    returns (acks: seq<bool>, ghost disks: seq<Disk>, ghost passed: seq<seq<Disk>>)
    requires store.Valid() && store.records.Held()
    modifies store, store.records.Repr
    ensures store.Valid() && store.records.Held()
    ensures History(store.walSize, old(store.Contents()), calls, acks, disks, passed)
    ensures disks[0] == old(store.OnDisk()) && disks[|acks|] == store.OnDisk()
    ensures store.Contents() == Outcome(old(store.Contents()), calls, acks, |acks|)
    ensures |acks| < |calls| ==> !(|store.index| < MAX_ITEMS && store.CanCheckpoint())
  {
    hide *;
    ghost var m := store.Contents();
    acks, disks, passed := [], [store.OnDisk()], [];
    NoCalls(store.walSize, m, calls, store.OnDisk());
    var bounds := Roomy(store);
    while |acks| < |calls| && bounds
      invariant store.Valid() && store.records.Held() && fresh(store.records.Repr - old(store.records.Repr))
      invariant |acks| <= |calls| && store.Contents() == Outcome(m, calls, acks, |acks|)
      invariant bounds <==> |store.index| < MAX_ITEMS && store.CanCheckpoint()
      invariant History(store.walSize, m, calls, acks, disks, passed) && |disks| == |acks| + 1
      invariant disks[0] == old(store.OnDisk()) && disks[|acks|] == store.OnDisk()
      decreases |calls| - |acks|
    {
      ghost var images: seq<Disk>;
      var ack: bool;
      ack, images := Perform(store, calls[|acks|]);
      OneMoreCall(store.walSize, m, calls, acks, disks, passed, ack, images, store.OnDisk(), store.Contents());
      disks := disks + [store.OnDisk()];
      passed := passed + [images];
      acks := acks + [ack];
      bounds := Roomy(store);
    }
  }

  /** One call on the store. */
  method Perform(store: Store, c: Call) returns (ack: bool, ghost images: seq<Disk>)
    requires store.Valid() && store.records.Held() && |store.index| < MAX_ITEMS && store.CanCheckpoint()
    modifies store, store.records.Repr
    ensures store.Valid() && store.records.Held() && fresh(store.records.Repr - old(store.records.Repr))
    ensures CallStep(store.walSize, old(store.OnDisk()), old(store.Contents()), c, ack, images, store.OnDisk(),
                     store.Contents())
  {
    hide *;
    store.Durable();
    store.FoundOnDisk();
    ghost var d, m, g, view, active := store.OnDisk(), store.Contents(), store.records.generation,
                                       store.records.View(), store.records.activeFileNo;
    Applied(m, c);
    match c {
      case PutCall(key, value) =>
        var r;
        store.AcceptsOnDisk(key, value);
        PutAcceptable(store.walSize, d, m, key, value);
        r, images := store.Put(key, value);
        ack := r.Ok?;
        PutLands(store, d, m, g, view, active, key, value, ack);
      case DeleteCall(key) =>
        var r;
        store.AcceptsOnDisk(key, []);
        DeleteAcceptable(store.walSize, d, m, key);
        r, images := store.Delete(key);
        EitherWay(r);
        ack := r.Ok?;
        DeleteLands(store, d, m, g, view, active, key, ack);
    }
    store.Durable();
    IsCallStep(store.walSize, d, m, c, ack, images, store.OnDisk(), store.Contents());
  }

  lemma PutLands(store: Store, d: Disk, m: Values, g: nat, view: map<nat, Segment>, active: nat, key: Key, value: Bytes,
                 ack: bool)
    requires store.records.Held() && store.walSize >= HEADER
    requires Loadable(store.walSize, d) && Opens(store.walSize, DiskFiles(d)) && DiskGeneration(d) == Ok(g)
    requires OpenView(store.walSize, DiskFiles(d)) == view && Highest(view, active)
    requires |key| > MAX_KEY_SIZE ==> store.OnDisk() == d
    requires |key| <= MAX_KEY_SIZE ==>
      var view2 := WithRecord(store.walSize, view, active, OP_PUT, key, value);
      store.Stands(g, view2, d, !ack || |view2| <= CHECKPOINT_SEGMENTS)
    ensures Lands(store.walSize, d, m, PutCall(key, value), ack, store.OnDisk(), store.Contents())
  {
    hide Loadable, Opens, DiskFiles, DiskGeneration, OpenView, Highest, WithRecord, Checkpointed, InKeyOrder,
         SnapshotValues, NewSegment, ZeroFile, FilesOf, WithFiles, Store.OnDisk, Store.Contents;
  }

  lemma DeleteLands(store: Store, d: Disk, m: Values, g: nat, view: map<nat, Segment>, active: nat, key: Key, ack: bool)
    requires store.records.Held() && store.walSize >= HEADER
    requires Loadable(store.walSize, d) && Opens(store.walSize, DiskFiles(d)) && DiskGeneration(d) == Ok(g)
    requires OpenView(store.walSize, DiskFiles(d)) == view && Highest(view, active)
    requires |key| > MAX_KEY_SIZE || key !in m ==> store.OnDisk() == d
    requires |key| <= MAX_KEY_SIZE && key in m ==>
      var view2 := WithRecord(store.walSize, view, active, OP_DELETE, key, []);
      store.Stands(g, view2, d, !ack || |view2| <= CHECKPOINT_SEGMENTS)
    ensures Lands(store.walSize, d, m, DeleteCall(key), ack, store.OnDisk(), store.Contents())
  {
    hide Loadable, Opens, DiskFiles, DiskGeneration, OpenView, Highest, WithRecord, Checkpointed, InKeyOrder,
         SnapshotValues, NewSegment, ZeroFile, FilesOf, WithFiles, Store.OnDisk, Store.Contents;
  }

  lemma EitherWay(r: Result<bool>)
    ensures r.Ok? <==> r == Ok(true) || r == Ok(false)
  {
    if r.Ok? {
      assert r == Ok(r.value) && (r.value == true || r.value == false);
    }
  }

  lemma IsCallStep(walSize: nat, d: Disk, m: Values, c: Call, ack: bool, images: seq<Disk>, d2: Disk, m2: Values)
    requires Recovers(walSize, d, m) && Recovers(walSize, d2, m2)
    requires Chain(DiskStep, d, images, d2) && Turns(walSize, images, m, m2)
    requires (ack <==> Acceptable(walSize, d, m, c)) && m2 == (if ack then Apply(m, c) else m)
    requires Lands(walSize, d, m, c, ack, d2, m2)
    ensures CallStep(walSize, d, m, c, ack, images, d2, m2)
  {
  }

  lemma PutAcceptable(walSize: nat, d: Disk, m: Values, key: Key, value: Bytes)
    requires Loadable(walSize, d) && walSize >= HEADER && Opens(walSize, DiskFiles(d))
    ensures Acceptable(walSize, d, m, PutCall(key, value)) <==>
      |key| <= MAX_KEY_SIZE && TakesRecord(walSize, OpenView(walSize, DiskFiles(d)), key, value)
  {
    hide Loadable, TakesRecord, OpenView;
  }

  lemma DeleteAcceptable(walSize: nat, d: Disk, m: Values, key: Key)
    requires Loadable(walSize, d) && walSize >= HEADER && Opens(walSize, DiskFiles(d))
    ensures Acceptable(walSize, d, m, DeleteCall(key)) <==>
      |key| <= MAX_KEY_SIZE && (key !in m || TakesRecord(walSize, OpenView(walSize, DiskFiles(d)), key, []))
  {
    hide Loadable, TakesRecord, OpenView;
  }

  /** Whatever was recovered, the directory the store leaves opens again, even under the strict
      policy, and to the same map. */
  method OpenTwice(walSize: nat, policy: ReplayPolicy, disk: Disk) returns (first: Result<Store>, second: Result<Store>)
    requires disk.manifest.None? ==> FutureEmpty(disk)
    ensures first.Ok? <==> Loadable(walSize, disk) && (policy == Strict ==> AllFull(OpenView(walSize, DiskFiles(disk))))
    ensures first.Ok? ==> second.Ok? && second.value.Valid() && second.value.records.Held()
    ensures first.Ok? ==> second.value.Contents() == Recovered(walSize, disk)
  {
    hide *;
    ghost var passed;
    first, passed := Store.Open(walSize, policy, disk);
    if first.Err? {
      return first, first;
    }
    ghost var m := first.value.Contents();
    var left;
    left, passed := first.value.Close(false);
    RecoversMeans(walSize, left, m);
    second, passed := Store.Open(walSize, Strict, left);
  }

  lemma RecoversMeans(walSize: nat, d: Disk, m: Values)
    requires Recovers(walSize, d, m)
    ensures Loadable(walSize, d) && AllFull(OpenView(walSize, DiskFiles(d))) && FutureEmpty(d)
    ensures m == Recovered(walSize, d)
  {
  }

  method Roomy(store: Store) returns (r: bool)
    ensures r <==> |store.index| < MAX_ITEMS && store.CanCheckpoint()
  {
    r := |store.index| < MAX_ITEMS && store.records.generation + 1 < U64;
  }

  lemma NoCalls(walSize: nat, m: Values, calls: seq<Call>, d: Disk)
    ensures History(walSize, m, calls, [], [d], []) && Outcome(m, calls, [], 0) == m
  {
  }

  lemma Applied(m: Values, c: Call)
    ensures c.PutCall? ==> Apply(m, c) == m[c.key := c.value]
    ensures c.DeleteCall? ==> Apply(m, c) == m - {c.key}
  {
  }
}
