/** Whole runs of the store: any mix of operations, crashes at any durable point, and reopens. */
module Runs {
  import opened ChainTypes
  import opened CanonicalBin
  import opened StoreModel
  import opened Coherence

  datatype Action =
    | DoPut(block: Block, canonical: bool)
    | DoGenesis(block: Block)
    | DoSetTip(tip: ChainTip)
    | DoAttest(hash: Hash, bytes: seq<Byte>)
    | DoSetCanonical(hash: Hash)
    | DoSetCanonicalBatch(hashes: seq<Hash>)
    | DoExtend(block: Block, trains: bool := true)
    | DoRollback(target: Height)
    | DoReorg(ancestor: Height, hashes: seq<Hash>)
    | DoPrune(height: Height)
    | DoFlush(jobs: seq<Job>)
    | DoLookup(height: Height)
    | DoPreview(target: Height)
    | DoFindAncestor(hash: Hash, depth: nat)
    | DoDisableBin

  /** A step of a run. A crash keeps one durable point of the action; the sidecar file may hold anything. */
  datatype Op =
    | Do(action: Action)
    | Crash(action: Action, point: nat, onDisk: Option<seq<Byte>>, writable: bool, capacity: nat)
    | Reopen(onDisk: Option<seq<Byte>>, writable: bool, capacity: nat)

  ghost function Perform(s: Store, a: Action): (r: Store) {
    match a
    case DoPut(b, canonical) => Put(s, b, canonical).store
    case DoGenesis(b) => Genesis(s, b).store
    case DoSetTip(tip) => SetTip(s, tip).store
    case DoAttest(hash, bytes) => PutAttestation(s, hash, bytes).store
    case DoSetCanonical(hash) => SetCanonical(s, hash).store
    case DoSetCanonicalBatch(hashes) => SetCanonicalBatch(s, hashes).store
    case DoExtend(b, trains) => Extend(s, b, trains).store
    case DoRollback(target) => Rollback(s, target).store
    case DoReorg(ancestor, hashes) => Reorg(s, ancestor, hashes).store
    case DoPrune(height) => Prune(s, height).store
    case DoFlush(jobs) => Flush(s, jobs).0
    case DoLookup(h) => Looked(s, h)
    case DoPreview(target) => BlocksToRevert(s, target).store
    case DoFindAncestor(hash, depth) => FindAncestor(s, hash, depth).0
    case DoDisableBin => s.(bin := Disabled)
  }

  /** The databases a crash during an action can leave: one before and one after each RocksDB write. */
  ghost function DurablePoints(s: Store, a: Action): (r: seq<Db>)
    ensures |r| >= 2 && r[0] == s.db && r[|r| - 1] == Perform(s, a).db
  {
    [s.db] + Between(s, a) + [Perform(s, a).db]
  }

  /** The database between two RocksDB writes of one action. */
  ghost function Between(s: Store, a: Action): (r: seq<Db>) {
    match a
    case DoExtend(b, trains) =>
      if Extend(s, b, trains).result == Ok(true) then [Put(s, b, true).store.db] else []
    case DoRollback(target) =>
      if RollbackError(s, target).None? && target < s.tip.value.height
      then [RowsCut(s, target, s.tip.value.height).db] else []
    case _ => []
  }

  ghost function Step(s: Store, op: Op): (r: Store) {
    match op
    case Do(a) => Perform(s, a)
    case Crash(a, point, onDisk, writable, capacity) =>
      Open(DurablePoints(s, a)[point % |DurablePoints(s, a)|], onDisk, writable, capacity)
    case Reopen(onDisk, writable, capacity) => Open(s.db, onDisk, writable, capacity)
  }

  ghost function Run(s: Store, ops: seq<Op>): (r: Store) {
    if ops == [] then s else Step(Run(s, ops[..|ops| - 1]), ops[|ops| - 1])
  }

  /**
   The conditions under which lookups stay right: a cache capacity above zero, and for the three write paths that
   skip the height cache, no rewritten height cached with another hash. Everything else is unrestricted.
   */
  ghost predicate Admissible(s: Store, op: Op) {
    match op
    case Do(DoGenesis(b)) => Genesis(s, b).result.Ok? ==> StaleFree(s, [(0, b.hash)])
    case Do(DoSetCanonicalBatch(hashes)) =>
      FirstMissing(s.db, hashes).None? ==> StaleFree(s, RowsFor(s.db, hashes))
    case Do(DoFlush(jobs)) => StaleFree(s, JobRows(Staged(s.db, jobs)))
    case Do(_) => true
    case Crash(_, _, _, _, capacity) => capacity > 0
    case Reopen(_, _, capacity) => capacity > 0
  }

  ghost predicate AdmissibleRun(s: Store, ops: seq<Op>) {
    ops == [] || (AdmissibleRun(s, ops[..|ops| - 1]) && Admissible(Run(s, ops[..|ops| - 1]), ops[|ops| - 1]))
  }

  lemma PerformCoherent(s: Store, a: Action)
    requires Coherent(s) && s.capacity > 0 && Admissible(s, Do(a))
    ensures Coherent(Perform(s, a))
  {
    hide CacheAgrees, BinAgrees, Put, Genesis, SetCanonical, WriteRows, Extend, Rollback, Reorg, Prune, Flush, Looked;
    match a
    case DoPut(b, canonical) => PutCoherent(s, b, canonical);
    case DoGenesis(b) => GenesisCoherent(s, b);
    case DoSetCanonical(hash) => SetCanonicalCoherent(s, hash);
    case DoSetCanonicalBatch(hashes) =>
      if !s.readOnly && FirstMissing(s.db, hashes).None? {
        SkippedRefreshIsSafeExactlyWhenStaleFree(s, RowsFor(s.db, hashes));
      }
    case DoExtend(b, trains) => ExtendCoherent(s, b, trains);
    case DoRollback(target) => RollbackCoherent(s, target);
    case DoReorg(ancestor, hashes) => ReorgCoherent(s, ancestor, hashes);
    case DoPrune(height) => PruneCoherent(s, height);
    case DoFlush(jobs) => FlushCoherent(s, jobs);
    case DoLookup(h) => LookedCoherent(s, h);
    case DoPreview(target) =>
      if s.tip.Some? && target < s.tip.value.height { CollectDownCoherent(s, target + 1, s.tip.value.height); }
    case DoFindAncestor(hash, depth) => AncestorCoherent(s, hash, depth);
    case DoDisableBin => DisabledCoherent(s);
    case _ =>
  }

  lemma PerformKeepsCapacity(s: Store, a: Action)
    ensures Perform(s, a).capacity == s.capacity
  {
    hide Resolve, Remember, WriteAll, ExtendWrite, TruncateTo, ReorgDb, PruneDb, RowsFor, StoreJobs, JobRows;
  }

  lemma {:induction false} RunCoherent(s: Store, ops: seq<Op>)
    requires Coherent(s) && s.capacity > 0 && AdmissibleRun(s, ops)
    ensures Coherent(Run(s, ops)) && Run(s, ops).capacity > 0
  {
    hide Perform, Coherent, DurablePoints;
    if ops != [] {
      RunCoherent(s, ops[..|ops| - 1]);
      var before := Run(s, ops[..|ops| - 1]);
      match ops[|ops| - 1]
      case Do(a) => PerformCoherent(before, a); PerformKeepsCapacity(before, a);
      case Crash(a, point, onDisk, writable, capacity) =>
        OpenCoherent(DurablePoints(before, a)[point % |DurablePoints(before, a)|], onDisk, writable, capacity);
      case Reopen(onDisk, writable, capacity) => OpenCoherent(before.db, onDisk, writable, capacity);
    }
  }

  /**
   In every reachable state `get_hash_by_height` answers from the canonical rows above the floor and nothing below it,
   for every starting database and sidecar file, including all-zero hashes and slots left behind by pruning.
   */
  lemma EveryLookupIsTheCanonicalRow(
    db: Db, onDisk: Option<seq<Byte>>, writable: bool, capacity: nat, ops: seq<Op>, h: Height)
    requires capacity > 0 && AdmissibleRun(Open(db, onDisk, writable, capacity), ops)
    ensures var s := Run(Open(db, onDisk, writable, capacity), ops);
            Resolve(s, h) == if h >= FloorOf(s.db) && h in s.db.canonical then Some(s.db.canonical[h]) else None
  {
    OpenCoherent(db, onDisk, writable, capacity);
    RunCoherent(Open(db, onDisk, writable, capacity), ops);
    LookupIsVisible(Run(Open(db, onDisk, writable, capacity), ops), h);
  }

  /** The pruning floor never falls, in any run at all: no condition on callers, capacity or crash points. */
  lemma {:induction false} FloorNeverFalls(s: Store, ops: seq<Op>)
    requires s.floor == FloorOf(s.db)
    ensures Run(s, ops).floor == FloorOf(Run(s, ops).db) >= s.floor
  {
    if ops != [] {
      FloorNeverFalls(s, ops[..|ops| - 1]);
      var before := Run(s, ops[..|ops| - 1]);
      match ops[|ops| - 1]
      case Do(a) => PerformKeepsFloor(before, a);
      case Crash(a, point, _, _, _) => PerformKeepsFloor(before, a);
      case Reopen(_, _, _) =>
    }
  }

  lemma PerformKeepsFloor(s: Store, a: Action)
    requires s.floor == FloorOf(s.db)
    ensures Perform(s, a).floor == FloorOf(Perform(s, a).db) >= s.floor
    ensures forall i | 0 <= i < |DurablePoints(s, a)| :: FloorOf(DurablePoints(s, a)[i]) >= s.floor
  {
    hide Resolve, Remember, WriteAll, ExtendWrite, TruncateTo, RowsFor, JobRows, FirstMissing, NewTip, ForksBelow;
    if a.DoFlush? {
      StoreJobsKeepsIndex(s.db, Staged(s.db, a.jobs));
    }
  }

  lemma PerformKeepsTip(s: Store, a: Action)
    requires s.db.tip.Some?
    ensures Perform(s, a).db.tip.Some?
    ensures forall i | 0 <= i < |DurablePoints(s, a)| :: DurablePoints(s, a)[i].tip.Some?
  {
    hide Resolve, Remember, WriteAll, ExtendWrite, TruncateTo, RowsFor, JobRows, FirstMissing, NewTip, ForksBelow;
    if a.DoFlush? {
      StoreJobsKeepsIndex(s.db, Staged(s.db, a.jobs));
    }
  }

  lemma {:induction false} TipNeverDisappears(s: Store, ops: seq<Op>)
    requires s.db.tip.Some?
    ensures Run(s, ops).db.tip.Some?
  {
    hide Perform, DurablePoints;
    if ops != [] {
      TipNeverDisappears(s, ops[..|ops| - 1]);
      var before := Run(s, ops[..|ops| - 1]);
      match ops[|ops| - 1]
      case Do(a) => PerformKeepsTip(before, a);
      case Crash(a, _, _, _, _) => PerformKeepsTip(before, a);
      case Reopen(_, _, _) =>
    }
  }

  /** Genesis succeeds at most once: after it, through any run with crashes and reopens, every further call is refused. */
  lemma GenesisSucceedsOnce(s: Store, g: Block, ops: seq<Op>, again: Block, trains: bool)
    requires Genesis(s, g).result.Ok?
    ensures var after := Genesis(s, g, trains).store;
            && after.tip == after.db.tip == Some(ChainTip(g.hash, 0))
            && after.db.genesis == Some(g.hash) && Row(after.db.canonical, 0) == Some(g.hash)
            && Row(after.db.blocks, g.hash) == Some(g) && Row(after.db.headers, g.hash) == Some(g.header)
            && Genesis(Run(after, ops), again).result.Err?
            && Genesis(Run(after, ops), again).store == Run(after, ops)
  {
    hide Run;
    TipNeverDisappears(Genesis(s, g).store, ops);
  }

  // ---------------------------------------------------------------- why the conditions are there

  /**
   With capacity 0 a reorg still fills the height cache and the next promotion at that height does not refresh it:
   the lookup keeps answering the old hash.
   */
  lemma CapacityZeroGoesStale(g: Block, x: Block, y: Block)
    requires g.Height() == 0 && x.Height() == 1 && y.Height() == 1
    requires g.hash != x.hash && g.hash != y.hash && x.hash != y.hash
    ensures var s0 := Genesis(Open(EMPTY_DB, None, true, 0), g).store;
            var s1 := Put(Put(s0, x, false).store, y, false).store;
            var s2 := SetCanonical(Reorg(s1, 0, [x.hash]).store, y.hash).store;
            Resolve(s2, 1) == Some(x.hash) && Visible(s2.db, 1) == Some(y.hash)
  {
    var s0 := Genesis(Open(EMPTY_DB, None, true, 0), g).store;
    var s1 := Put(Put(s0, x, false).store, y, false).store;
    var one := [x.hash];
    assert one[..0] == [];
    assert FirstMissing(s1.db, one).None?;
    assert ReorgError(s1, one).None?;
    var rows := RowsFor(s1.db, one);
    assert rows[..0] == [];
    assert RowMap(rows) == map[1 := x.hash];
  }

  /** A batch promotion over a cached height leaves lookups on the old hash, whatever the capacity above zero. */
  lemma BatchPromotionGoesStale(g: Block, x: Block, y: Block, capacity: nat)
    requires capacity > 0
    requires g.Height() == 0 && x.Height() == 1 && y.Height() == 1
    requires g.hash != x.hash && g.hash != y.hash && x.hash != y.hash
    ensures var s0 := Genesis(Open(EMPTY_DB, None, true, capacity), g).store;
            var s1 := Put(Put(s0, x, true).store, y, false).store;
            var s2 := SetCanonicalBatch(s1, [y.hash]).store;
            Resolve(s2, 1) == Some(x.hash) && Visible(s2.db, 1) == Some(y.hash)
  {
    var s0 := Genesis(Open(EMPTY_DB, None, true, capacity), g).store;
    var s1 := Put(Put(s0, x, true).store, y, false).store;
    assert s1.cache == map[1 := x.hash];
    var one := [y.hash];
    assert one[..0] == [];
    assert FirstMissing(s1.db, one).None?;
    var rows := RowsFor(s1.db, one);
    assert rows[..0] == [];
    assert RowMap(rows) == map[1 := y.hash];
  }

  /** Genesis over a cached height 0: a canonical block put before it stays the answer, whatever the capacity above zero. */
  lemma GenesisGoesStale(x: Block, g: Block, capacity: nat)
    requires capacity > 0 && x.Height() == 0 && g.Height() == 0 && x.hash != g.hash
    ensures var s1 := Put(Open(EMPTY_DB, None, true, capacity), x, true).store;
            var s2 := Genesis(s1, g);
            s2.result.Ok? && Resolve(s2.store, 0) == Some(x.hash) && Visible(s2.store.db, 0) == Some(g.hash)
  {
    var s1 := Put(Open(EMPTY_DB, None, true, capacity), x, true).store;
    assert s1.cache == map[0 := x.hash];
  }

  /** A flush over a cached height leaves lookups on the old hash, whatever the capacity above zero. */
  lemma FlushGoesStale(g: Block, x: Block, y: Block, capacity: nat, trained: Option<seq<Byte>>)
    requires capacity > 0
    requires g.Height() == 0 && x.Height() == 1 && y.Height() == 1
    requires g.hash != x.hash && g.hash != y.hash && x.hash != y.hash
    ensures var s0 := Genesis(Open(EMPTY_DB, None, true, capacity), g).store;
            var s1 := Put(s0, x, true).store;
            var s2 := Flush(s1, [Job(y, true, trained)]).0;
            Resolve(s2, 1) == Some(x.hash) && Visible(s2.db, 1) == Some(y.hash)
  {
    hide Flush, Visible, Resolve, ExtendWrite;
    var s1 := Put(Genesis(Open(EMPTY_DB, None, true, capacity), g).store, x, true).store;
    assert s1.cache == map[1 := x.hash];
    FlushSkipsTheCache(s1, y, trained);
  }

  lemma FlushSkipsTheCache(s: Store, y: Block, trained: Option<seq<Byte>>)
    requires !s.readOnly && y.Height() in s.cache && y.hash !in s.db.blocks && s.floor == FloorOf(s.db) <= y.Height()
    ensures var after := Flush(s, [Job(y, true, trained)]).0;
            Resolve(after, y.Height()) == Some(s.cache[y.Height()]) && Visible(after.db, y.Height()) == Some(y.hash)
  {
    hide WriteAll;
    var one := [Job(y, true, trained)];
    assert one[..0] == [];
    assert Novel(s.db, one, 0);
    assert Staged(s.db, one) == one;
    StoreJobsKeepsIndex(s.db, one);
    var rows := JobRows(one);
    assert JobRows([]) == [];
    assert rows == [(y.Height(), y.hash)] && rows[..0] == [];
    assert RowMap(rows) == map[y.Height() := y.hash];
  }

  lemma RunMore(s: Store, ops: seq<Op>, op: Op)
    ensures Run(s, ops + [op]) == Step(Run(s, ops), op)
    ensures AdmissibleRun(s, ops + [op]) <==> AdmissibleRun(s, ops) && Admissible(Run(s, ops), op)
  {
    assert (ops + [op])[..|ops|] == ops;
  }

  lemma RunOfFive(s: Store, a: Op, b: Op, c: Op, d: Op, e: Op)
    ensures var ops := [a, b, c, d, e];
            var sa := Step(s, a); var sb := Step(sa, b); var sc := Step(sb, c); var sd := Step(sc, d);
            && Run(s, ops) == Step(sd, e)
            && (AdmissibleRun(s, ops) <==>
                  Admissible(s, a) && Admissible(sa, b) && Admissible(sb, c) && Admissible(sc, d) && Admissible(sd, e))
  {
    hide Step, Admissible;
    RunMore(s, [], a);
    RunMore(s, [a], b);
    RunMore(s, [a, b], c);
    RunMore(s, [a, b, c], d);
    RunMore(s, [a, b, c, d], e);
    assert [] + [a] == [a] && [a] + [b] == [a, b] && [a, b] + [c] == [a, b, c] && [a, b, c] + [d] == [a, b, c, d];
    assert [a, b, c, d] + [e] == [a, b, c, d, e];
  }

  /** A store opened with this capacity answers every lookup from the canonical rows, in every admissible run. */
  ghost predicate AlwaysRight(capacity: nat) {
    forall ops, h: Height | AdmissibleRun(Open(EMPTY_DB, None, true, capacity), ops) ::
      var s := Run(Open(EMPTY_DB, None, true, capacity), ops);
      Resolve(s, h) == Visible(s.db, h)
  }

  /** Lookups are always right exactly when the height cache has a capacity above zero. */
  lemma LookupsAreAlwaysRightExactlyAboveZero(capacity: nat)
    ensures AlwaysRight(capacity) <==> capacity > 0
  {
    hide Run, AdmissibleRun, Step, Admissible, OpenSynced, Resolve;
    if capacity > 0 {
      forall ops, h: Height | AdmissibleRun(Open(EMPTY_DB, None, true, capacity), ops)
        ensures var s := Run(Open(EMPTY_DB, None, true, capacity), ops); Resolve(s, h) == Visible(s.db, h)
      {
        OpenCoherent(EMPTY_DB, None, true, capacity);
        RunCoherent(Open(EMPTY_DB, None, true, capacity), ops);
        LookupIsVisible(Run(Open(EMPTY_DB, None, true, capacity), ops), h);
      }
    } else {
      var ops := StaleRun();
      assert !AlwaysRight(capacity) by {
        var s := Run(Open(EMPTY_DB, None, true, 0), ops);
        assert Resolve(s, 1) != Visible(s.db, 1);
      }
    }
  }

  function Marked(i: Byte): (r: Hash)
    ensures r[0] == i
  {
    [i] + seq(31, _ => 0)
  }

  lemma StaleRun() returns (ops: seq<Op>)
    ensures var s := Open(EMPTY_DB, None, true, 0);
            AdmissibleRun(s, ops) && Resolve(Run(s, ops), 1) != Visible(Run(s, ops).db, 1)
  {
    hide Step, Admissible, Genesis, Put, Reorg, SetCanonical, Run, AdmissibleRun, Resolve, Visible, OpenSynced;
    var g := Block(Marked(1), Header(0, ZERO, ZERO), []);
    var x := Block(Marked(2), Header(1, g.hash, ZERO), []);
    var y := Block(Marked(3), Header(1, g.hash, ZERO), []);
    assert g.hash[0] != x.hash[0] && g.hash[0] != y.hash[0] && x.hash[0] != y.hash[0];
    var s := Open(EMPTY_DB, None, true, 0);
    var a, b, c := Do(DoGenesis(g)), Do(DoPut(x, false)), Do(DoPut(y, false));
    var d, e := Do(DoReorg(0, [x.hash])), Do(DoSetCanonical(y.hash));
    ops := [a, b, c, d, e];
    var s1 := Genesis(s, g).store;
    var s2 := Put(s1, x, false).store;
    var s3 := Put(s2, y, false).store;
    var s4 := Reorg(s3, 0, [x.hash]).store;
    GenesisStep(s, g);
    PutStep(s1, x);
    PutStep(s2, y);
    ReorgStep(s3, 0, [x.hash]);
    SetCanonicalStep(s4, y.hash);
    RunOfFive(s, a, b, c, d, e);
    CapacityZeroGoesStale(g, x, y);
  }

  lemma GenesisStep(s: Store, b: Block)
    requires s.cache == map[]
    ensures Step(s, Do(DoGenesis(b))) == Genesis(s, b).store && Admissible(s, Do(DoGenesis(b)))
  {
    hide Genesis;
  }

  lemma PutStep(s: Store, b: Block)
    ensures Step(s, Do(DoPut(b, false))) == Put(s, b, false).store && Admissible(s, Do(DoPut(b, false)))
  {
    hide Put;
  }

  lemma ReorgStep(s: Store, ancestor: Height, hashes: seq<Hash>)
    ensures Step(s, Do(DoReorg(ancestor, hashes))) == Reorg(s, ancestor, hashes).store
    ensures Admissible(s, Do(DoReorg(ancestor, hashes)))
  {
    hide Reorg;
  }

  lemma SetCanonicalStep(s: Store, hash: Hash)
    ensures Step(s, Do(DoSetCanonical(hash))) == SetCanonical(s, hash).store && Admissible(s, Do(DoSetCanonical(hash)))
  {
    hide SetCanonical;
  }
}
