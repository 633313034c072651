/** What `prune_before_height` removes and counts, in every reachable state (src/store.rs). */
module Pruning {
  import opened ChainTypes
  import opened CanonicalBin
  import opened StoreModel
  import opened Coherence
  import opened Runs
  import opened ChainShape

  // ---------------------------------------------------------------- rows always name stored blocks of their height

  /** Above the floor every canonical row names a stored block of that height. */
  ghost predicate RowsNamed(db: Db) {
    forall h | h in db.canonical && FloorOf(db) <= h ::
      db.canonical[h] in db.headers && db.headers[db.canonical[h]].height == h
  }

  ghost predicate Named(db: Db) { Paired(db) && RowsNamed(db) }

  ghost predicate NamesHeaders(rows: seq<(Height, Hash)>, db: Db) {
    forall i | 0 <= i < |rows| :: rows[i].1 in db.headers && db.headers[rows[i].1].height == rows[i].0
  }

  lemma {:induction false} RowMapNamed(rows: seq<(Height, Hash)>, db: Db)
    requires NamesHeaders(rows, db)
    ensures forall h | h in RowMap(rows) :: RowMap(rows)[h] in db.headers && db.headers[RowMap(rows)[h]].height == h
  {
    if rows != [] {
      RowMapNamed(rows[..|rows| - 1], db);
    }
  }

  lemma WrittenRowsNamed(db: Db, kept: set<Height>, rows: seq<(Height, Hash)>)
    requires Named(db) && NamesHeaders(rows, db)
    ensures Named(db.(canonical := (db.canonical - kept) + RowMap(rows)))
  {
    hide RowMap;
    RowMapNamed(rows, db);
  }

  ghost predicate DistinctJobs(staged: seq<Job>) {
    forall i, j | 0 <= i < j < |staged| :: staged[i].block.hash != staged[j].block.hash
  }

  lemma {:induction false} StagedDistinct(db: Db, jobs: seq<Job>)
    ensures DistinctJobs(Staged(db, jobs))
    ensures forall i | 0 <= i < |Staged(db, jobs)| :: Staged(db, jobs)[i].block.hash in JobHashes(jobs)
  {
    if jobs != [] {
      var front := jobs[..|jobs| - 1];
      StagedDistinct(db, front);
      assert JobHashes(jobs) == JobHashes(front) + {jobs[|jobs| - 1].block.hash};
    }
  }

  lemma {:induction false} JobRowsNamed(db: Db, staged: seq<Job>)
    requires DistinctJobs(staged)
    ensures NamesHeaders(JobRows(staged), StoreJobs(db, staged))
    ensures forall i | 0 <= i < |JobRows(staged)| ::
              exists j | 0 <= j < |staged| :: JobRows(staged)[i].1 == staged[j].block.hash
  {
    if staged != [] {
      var front := staged[..|staged| - 1];
      JobRowsNamed(db, front);
      forall i | 0 <= i < |JobRows(front)|
        ensures exists j | 0 <= j < |staged| - 1 :: JobRows(front)[i].1 == staged[j].block.hash
      {
        var j :| 0 <= j < |front| && JobRows(front)[i].1 == front[j].block.hash;
        assert front[j] == staged[j];
      }
    }
  }

  /** `init_genesis` overwrites by hash; the digest must not already belong to another header. */
  ghost predicate NoCollision(s: Store, op: Op) {
    match op
    case Do(DoGenesis(b)) => b.hash in s.db.headers ==> s.db.headers[b.hash] == b.header
    case Crash(DoGenesis(b), _, _, _, _) => b.hash in s.db.headers ==> s.db.headers[b.hash] == b.header
    case _ => true
  }

  lemma PutNamed(s: Store, b: Block, canonical: bool, trains: bool)
    requires Named(s.db)
    ensures Named(Put(s, b, canonical, trains).store.db)
  {
    hide Remember, ExtendWrite;
  }

  lemma GenesisNamed(s: Store, b: Block)
    requires Named(s.db) && (b.hash in s.db.headers ==> s.db.headers[b.hash] == b.header)
    ensures Named(Genesis(s, b).store.db)
  {
    hide Remember, ExtendWrite;
  }

  lemma PromotionNamed(s: Store, hashes: seq<Hash>)
    requires Named(s.db)
    ensures Named(SetCanonicalBatch(s, hashes).store.db)
  {
    hide Named, RowMap, WriteAll;
    if !s.readOnly && FirstMissing(s.db, hashes).None? {
      WrittenRowsNamed(s.db, {}, RowsFor(s.db, hashes));
      assert s.db.canonical - {} == s.db.canonical;
    }
  }

  lemma ReorgNamed(s: Store, ancestor: Height, hashes: seq<Hash>)
    requires Named(s.db)
    ensures Named(Reorg(s, ancestor, hashes).store.db)
  {
    hide RowMap, WriteAll, CollectDown, Paired, RowsNamed;
    if ReorgError(s, hashes).None? {
      WrittenRowsNamed(s.db, Range(ancestor + 1, s.tip.value.height), RowsFor(s.db, hashes));
      TipIsNotIndexed(s.db.(canonical := ReorgDb(s.db, ancestor, s.tip.value.height, hashes).canonical),
                      Some(NewTip(s.db, hashes)));
    }
  }

  lemma TipIsNotIndexed(db: Db, tip: Option<ChainTip>)
    requires Named(db)
    ensures Named(db.(tip := tip))
  {
  }

  lemma FlushNamed(s: Store, jobs: seq<Job>)
    requires Named(s.db)
    ensures Named(Flush(s, jobs).0.db)
  {
    hide Paired, RowMap, WriteAll, Staged, JobRows, StoreJobs;
    var staged := Staged(s.db, jobs);
    var db := StoreJobs(s.db, staged);
    StagedDistinct(s.db, jobs);
    StagedAreNew(s.db, jobs);
    StoreJobsGrows(s.db, staged);
    JobRowsNamed(s.db, staged);
    assert RowsNamed(db);
    WrittenRowsNamed(db, {}, JobRows(staged));
    assert db.canonical - {} == db.canonical;
  }

  lemma CutNamed(db: Db, gone: set<Height>)
    requires Named(db)
    ensures Named(db.(canonical := db.canonical - gone))
  {
  }

  lemma RollbackNamed(s: Store, target: Height)
    requires Named(s.db)
    ensures Named(Rollback(s, target).store.db)
    ensures RollbackError(s, target).None? ==> Named(RowsCut(s, target, s.tip.value.height).db)
  {
    hide Resolve, Remember, CollectDown, TruncateTo, Paired, RowsNamed;
    if RollbackError(s, target).None? {
      var top := s.tip.value.height;
      CutNamed(s.db, Range(target + 1, top));
      var cut := RowsCut(CollectDown(s, target + 1, top).0, target, top);
      TipIsNotIndexed(cut.db, TipMoved(cut, target).db.tip);
    }
  }

  lemma PruneDbNamed(db: Db, height: Height, rows: Rows)
    requires Named(db) && FloorOf(db) < height
    requires forall h: Height :: Row(rows, h) == if FloorOf(db) <= h < height then Row(db.canonical, h) else None
    ensures Named(PruneDb(db, height, rows))
  {
    assert forall h: Height :: h in rows <==> Row(rows, h).Some?;
    assert forall h | h in rows :: Row(rows, h) == Some(rows[h]) && rows[h] == db.canonical[h];
    forall h | h in PruneDb(db, height, rows).canonical && height <= h
      ensures db.canonical[h] in PruneDb(db, height, rows).headers
    {
      PruneKeepsHigher(db, height, rows, db.canonical[h]);
    }
  }

  lemma PruneNamed(s: Store, height: Height)
    requires Coherent(s) && Named(s.db)
    ensures Named(Prune(s, height).store.db)
  {
    hide Named, CacheAgrees, BinAgrees, PruneDb, CollectUp;
    if !s.readOnly && height > s.floor {
      CollectUpCoherent(s, s.floor, height);
      VisibleAboveFloor(s.db);
      PruneDbNamed(s.db, height, CollectUp(s, s.floor, height).1);
    }
  }

  lemma VisibleAboveFloor(db: Db)
    ensures forall h: Height | FloorOf(db) <= h :: Visible(db, h) == Row(db.canonical, h)
  {
  }

  lemma SetCanonicalNamed(s: Store, hash: Hash)
    requires Named(s.db)
    ensures Named(SetCanonical(s, hash).store.db)
  {
    hide Remember, ExtendWrite;
  }

  lemma ExtendNamed(s: Store, b: Block, trains: bool)
    requires Named(s.db)
    ensures Named(Extend(s, b, trains).store.db)
  {
    hide Named, Put;
    PutNamed(s, b, true, trains);
    TipIsNotIndexed(Put(s, b, true, trains).store.db, Some(ChainTip(b.hash, b.Height())));
  }

  lemma PerformNamed(s: Store, a: Action)
    requires Coherent(s) && Named(s.db) && NoCollision(s, Do(a))
    ensures Named(Perform(s, a).db)
    ensures forall i | 0 <= i < |Between(s, a)| :: Named(Between(s, a)[i])
  {
    hide Coherent, Paired, RowsNamed, Put, Genesis, SetCanonical, SetCanonicalBatch, Extend, Rollback, Reorg, Prune, Flush,
      Looked, CollectDown, FindAncestor, RowsCut;
    match a
    case DoPut(b, canonical) => PutNamed(s, b, canonical, true);
    case DoGenesis(b) => GenesisNamed(s, b);
    case DoSetTip(tip) => TipIsNotIndexed(s.db, Some(tip));
    case DoAttest(hash, bytes) => AttestationIsNotIndexed(s.db, s.db.attested[hash := bytes]);
    case DoSetCanonical(hash) => SetCanonicalNamed(s, hash);
    case DoSetCanonicalBatch(hashes) => PromotionNamed(s, hashes);
    case DoExtend(b, trains) => PutNamed(s, b, true, true); ExtendNamed(s, b, trains);
    case DoRollback(target) => RollbackNamed(s, target);
    case DoReorg(ancestor, hashes) => ReorgNamed(s, ancestor, hashes);
    case DoPrune(height) => PruneNamed(s, height);
    case DoFlush(jobs) => FlushNamed(s, jobs);
    case DoLookup(h) => LookedCoherent(s, h);
    case _ =>
  }

  lemma AttestationIsNotIndexed(db: Db, attested: map<Hash, seq<Byte>>)
    requires Named(db)
    ensures Named(db.(attested := attested))
  {
  }

  ghost predicate NoCollisionRun(s: Store, ops: seq<Op>) {
    ops == [] || (NoCollisionRun(s, ops[..|ops| - 1]) && NoCollision(Run(s, ops[..|ops| - 1]), ops[|ops| - 1]))
  }

  lemma {:induction false} RunNamed(s: Store, ops: seq<Op>)
    requires Coherent(s) && s.capacity > 0 && Named(s.db) && AdmissibleRun(s, ops) && NoCollisionRun(s, ops)
    ensures Named(Run(s, ops).db)
  {
    hide Coherent, Named, Perform, Between, Admissible;
    if ops != [] {
      var front := ops[..|ops| - 1];
      RunNamed(s, front);
      RunCoherent(s, front);
      match ops[|ops| - 1]
      case Do(a) => PerformNamed(Run(s, front), a);
      case Crash(a, _, _, _, _) => PerformNamed(Run(s, front), a);
      case Reopen(_, _, _) =>
    }
  }

  // ---------------------------------------------------------------- what pruning removes

  /** The stored blocks below a height. */
  function Below(db: Db, height: Height): (r: set<Hash>) {
    set x | x in db.headers && db.headers[x].height < height
  }

  lemma {:induction false} RowsAreDistinct(rows: Rows, db: Db)
    requires forall h | h in rows :: rows[h] in db.headers && db.headers[rows[h]].height == h
    ensures |rows| == |rows.Values|
    decreases |rows|
  {
    if rows != map[] {
      var h :| h in rows;
      var rest := rows - {h};
      assert rest.Keys == rows.Keys - {h};
      assert rest.Values == rows.Values - {rows[h]} by {
        forall x | x in rows.Values && x != rows[h] ensures x in rest.Values {
          var k :| k in rows && rows[k] == x;
          assert k in rest && rest[k] == x;
        }
      }
      RowsAreDistinct(rest, db);
    }
  }

  /** The database with everything below a height gone. */
  ghost function Pruned(db: Db, height: Height): (r: Db) {
    var gone := Below(db, height);
    db.(blocks := db.blocks - gone, headers := db.headers - gone, attested := db.attested - gone,
        canonical := map h | h in db.canonical && (h < FloorOf(db) || height <= h) :: db.canonical[h],
        minHeight := Some(height))
  }

  lemma PruneDbIsPruned(db: Db, height: Height, rows: Rows)
    requires Named(db) && FloorOf(db) < height
    requires forall h: Height :: Row(rows, h) == if FloorOf(db) <= h < height then Row(db.canonical, h) else None
    ensures PruneDb(db, height, rows) == Pruned(db, height)
    ensures |rows| + |ForksBelow(db, height, rows.Values)| == |Below(db, height)|
  {
    hide Named, Below, ForksBelow;
    CollectedRows(db, height, rows);
    RowsAreDistinct(rows, db);
    DoomedBelow(db, height, rows);
    KeptRows(db, height, rows);
  }

  /** The collected rows are the canonical ones between floor and bound, each naming a block of its height. */
  lemma CollectedRows(db: Db, height: Height, rows: Rows)
    requires Named(db)
    requires forall h: Height :: Row(rows, h) == if FloorOf(db) <= h < height then Row(db.canonical, h) else None
    ensures forall h: Height :: h in rows <==> FloorOf(db) <= h < height && h in db.canonical
    ensures forall h | h in rows :: rows[h] in db.headers && db.headers[rows[h]].height == h < height
  {
    hide Paired;
    forall h: Height
      ensures h in rows <==> FloorOf(db) <= h < height && h in db.canonical
      ensures h in rows ==> rows[h] == db.canonical[h]
    {
      assert h in rows <==> Row(rows, h).Some?;
    }
  }

  /** The canonical pass and the fork pass together find every header below the bound, none twice. */
  lemma DoomedBelow(db: Db, height: Height, rows: Rows)
    requires forall h | h in rows :: rows[h] in db.headers && db.headers[rows[h]].height == h < height
    ensures rows.Values + ForksBelow(db, height, rows.Values) == Below(db, height)
    ensures |rows.Values| + |ForksBelow(db, height, rows.Values)| == |Below(db, height)|
  {
    var forks := ForksBelow(db, height, rows.Values);
    forall x ensures x in rows.Values + forks <==> x in Below(db, height) {
      if x in rows.Values {
        var h :| h in rows && rows[h] == x;
      }
    }
    assert rows.Values !! forks;
  }

  lemma KeptRows(db: Db, height: Height, rows: Rows)
    requires forall h: Height :: h in rows <==> FloorOf(db) <= h < height && h in db.canonical
    ensures db.canonical - rows.Keys == map h | h in db.canonical && (h < FloorOf(db) || height <= h) :: db.canonical[h]
  {
  }

  lemma PruneMeaning(s: Store, height: Height)
    requires Coherent(s) && Named(s.db) && !s.readOnly && height > s.floor
    ensures Prune(s, height).result == Ok(|Below(s.db, height)|)
    ensures Prune(s, height).store.db == Pruned(s.db, height)
    ensures Prune(s, height).store.floor == height && Prune(s, height).store.readOnly == s.readOnly
  {
    hide Named, CacheAgrees, BinAgrees, PruneDb, CollectUp, Pruned, Below, ForksBelow;
    CollectUpCoherent(s, s.floor, height);
    VisibleAboveFloor(s.db);
    PruneDbIsPruned(s.db, height, CollectUp(s, s.floor, height).1);
  }

  /**
   In every reachable state, pruning above the floor removes from bodies, headers and attestations exactly the hashes
   whose header height is below the bound, returns exactly how many headers that were (a canonical block and a fork
   each count once), moves the floor, and leaves every lookup at or above the bound as it was.
   */
  lemma PruneRemovesExactlyTheBlocksBelow(
    db: Db, onDisk: Option<seq<Byte>>, capacity: nat, ops: seq<Op>, height: Height, h: Height)
    requires Named(db) && capacity > 0
    requires var s0 := Open(db, onDisk, true, capacity); AdmissibleRun(s0, ops) && NoCollisionRun(s0, ops)
    requires var s := Run(Open(db, onDisk, true, capacity), ops); !s.readOnly && height > s.floor
    ensures var s := Run(Open(db, onDisk, true, capacity), ops);
            var r := Prune(s, height);
            && r.result == Ok(|Below(s.db, height)|)
            && r.store.db == Pruned(s.db, height)
            && r.store.floor == height
            && Resolve(r.store, h) == if h < height then None else Resolve(s, h)
  {
    hide Named, CacheAgrees, BinAgrees, Run, AdmissibleRun, NoCollisionRun, Prune, Resolve, OpenSynced;
    var s0 := Open(db, onDisk, true, capacity);
    OpenCoherent(db, onDisk, true, capacity);
    RunCoherent(s0, ops);
    RunNamed(s0, ops);
    var s := Run(s0, ops);
    PruneMeaning(s, height);
    PruneCoherent(s, height);
    LookupIsVisible(s, h);
    LookupIsVisible(Prune(s, height).store, h);
    assert s.floor == FloorOf(s.db);
  }

  // ---------------------------------------------------------------- prunes compose

  lemma PrunedTwice(db: Db, a: Height, b: Height)
    requires Named(db) && FloorOf(db) < a < b
    ensures Pruned(Pruned(db, a), b) == Pruned(db, b)
    ensures |Below(db, a)| + |Below(Pruned(db, a), b)| == |Below(db, b)|
  {
    hide Named;
    var once := Pruned(db, a);
    var first, second := Below(db, a), Below(once, b);
    BelowSplits(db, a, b);
    WithoutBoth(db.headers, first, second);
    WithoutBoth(db.blocks, first, second);
    WithoutBoth(db.attested, first, second);
    assert Pruned(once, b).canonical == Pruned(db, b).canonical;
  }

  lemma BelowSplits(db: Db, a: Height, b: Height)
    requires a < b
    ensures Below(db, b) == Below(db, a) + Below(Pruned(db, a), b)
    ensures Below(db, a) !! Below(Pruned(db, a), b)
  {
  }

  lemma WithoutBoth<V>(m: map<Hash, V>, first: set<Hash>, second: set<Hash>)
    ensures (m - first) - second == m - (first + second)
  {
  }

  /** Two prunes have the database, floor, lookups and total count of one prune at the higher bound. */
  lemma PrunesCompose(s: Store, a: Height, b: Height, h: Height)
    requires Coherent(s) && Named(s.db) && !s.readOnly
    ensures var first := Prune(s, a);
            var second := Prune(first.store, b);
            var once := Prune(s, if a < b then b else a);
            && first.result.Ok? && second.result.Ok? && once.result.Ok?
            && second.store.db == once.store.db
            && second.store.floor == once.store.floor
            && first.result.value + second.result.value == once.result.value
            && Resolve(second.store, h) == Resolve(once.store, h)
  {
    hide Named, CacheAgrees, BinAgrees, Resolve, Pruned, Below, CollectUp, PruneDb, ForksBelow;
    var first := Prune(s, a).store;
    PruneCoherent(s, a);
    PruneNamed(s, a);
    if s.floor < a {
      PruneMeaning(s, a);
      if a < b {
        PruneMeaning(first, b);
        PruneMeaning(s, b);
        PrunedTwice(s.db, a, b);
      }
    }
    PruneCoherent(first, b);
    PruneCoherent(s, if a < b then b else a);
    LookupIsVisible(Prune(first, b).store, h);
    LookupIsVisible(Prune(s, if a < b then b else a).store, h);
  }
}
