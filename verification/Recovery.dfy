/** Crashes inside the multi-write operations, followed by a reopen (src/store.rs, src/canonical/index.rs). */
module Recovery {
  import opened ChainTypes
  import opened CanonicalBin
  import opened StoreModel
  import opened Coherence
  import opened Runs
  import opened ChainShape

  // ---------------------------------------------------------------- apply_reorg

  /** The number of micro-steps of `apply_reorg` after validation. */
  function ReorgSteps(hashes: seq<Hash>): (r: nat) { 2 * |hashes| + 5 }

  /**
   The store after k micro-steps: the collecting lookups, the batch commit, the truncation, one sidecar write per new
   row, the cache eviction, one cache insert per new row, and the in-memory tip.
   */
  ghost function ReorgAt(s: Store, ancestor: Height, hashes: seq<Hash>, k: nat): (r: Store)
    requires ReorgError(s, hashes).None? && k <= ReorgSteps(hashes)
  {
    var n, top, rows := |hashes|, s.tip.value.height, RowsFor(s.db, hashes);
    var read := CollectDown(s, ancestor + 1, top).0;
    var committed := read.(db := ReorgDb(s.db, ancestor, top, hashes));
    var evicted := committed.(bin := WriteAll(TruncateTo(s.bin, ancestor), rows),
                              cache := read.cache - Range(ancestor + 1, top));
    if k == 0 then s
    else if k == 1 then read
    else if k == 2 then committed
    else if k <= 3 + n then committed.(bin := WriteAll(TruncateTo(s.bin, ancestor), rows[..k - 3]))
    else if k <= 4 + 2 * n then evicted.(cache := evicted.cache + RowMap(rows[..k - 4 - n]))
    else evicted.(cache := evicted.cache + RowMap(rows), tip := Some(NewTip(s.db, hashes)))
  }

  /** The micro-steps start at the store and end at the result of `apply_reorg`. */
  lemma ReorgStepsAreTheReorg(s: Store, ancestor: Height, hashes: seq<Hash>)
    requires ReorgError(s, hashes).None?
    ensures ReorgAt(s, ancestor, hashes, 0) == s
    ensures ReorgAt(s, ancestor, hashes, ReorgSteps(hashes)) == Reorg(s, ancestor, hashes).store
  {
  }

  /**
   A crash after any micro-step of `apply_reorg`, whatever the sidecar file holds and however the store is reopened,
   leaves exactly the old lookups and tip (before the commit) or exactly the new ones (from the commit on).
   */
  lemma ReorgCrashIsOldOrNew(
    s: Store, ancestor: Height, hashes: seq<Hash>, k: nat,
    onDisk: Option<seq<Byte>>, writable: bool, capacity: nat, h: Height)
    requires Coherent(s) && ReorgError(s, hashes).None? && k <= ReorgSteps(hashes)
    ensures var reopened := Open(ReorgAt(s, ancestor, hashes, k).db, onDisk, writable, capacity);
            var kept := if k < 2 then s else Reorg(s, ancestor, hashes).store;
            reopened.tip == kept.tip && reopened.floor == kept.floor && Resolve(reopened, h) == Resolve(kept, h)
  {
    hide CacheAgrees, BinAgrees, OpenSynced;
    var db := ReorgAt(s, ancestor, hashes, k).db;
    var kept := if k < 2 then s else Reorg(s, ancestor, hashes).store;
    assert db == kept.db;
    OpenCoherent(db, onDisk, writable, capacity);
    ReorgCoherent(s, ancestor, hashes);
    LookupIsVisible(Open(db, onDisk, writable, capacity), h);
    LookupIsVisible(kept, h);
  }

  // ---------------------------------------------------------------- rollback_to_height

  /** What a rollback leaves in the database, with or without a row at the target. */
  lemma RollbackDb(s: Store, target: Height)
    requires Coherent(s) && RollbackError(s, target).None? && target < s.tip.value.height
    ensures var r := Rollback(s, target);
            && r.result == Ok(Descending(s.db, target + 1, s.tip.value.height))
            && r.store.db == s.db.(canonical := s.db.canonical - Range(target + 1, s.tip.value.height),
                                   tip := match Row(s.db.canonical, target)
                                          case Some(x) => Some(ChainTip(x, target))
                                          case None => s.db.tip)
  {
    hide CacheAgrees, BinAgrees, ReadBin;
    var top := s.tip.value.height;
    CollectDownCoherent(s, target + 1, top);
    CutTargetResolves(CollectDown(s, target + 1, top).0, target, top);
  }

  lemma {:induction false} NothingToRevert(db: Db, lo: nat, hi: int)
    requires hi < SLOT_LIMIT
    requires forall h: Height | lo <= h <= hi :: h !in db.canonical
    ensures Descending(db, lo, hi) == []
    decreases hi - lo
  {
    if hi >= lo {
      NothingToRevert(db, lo, hi - 1);
    }
  }

  /**
   A rollback that crashed between its index delete and its tip write is completed by calling it again: same database
   (so same rows, tip and lookups) as the uninterrupted call, though the second call has nothing left to report.
   */
  lemma RollbackIsRestartable(
    s: Store, target: Height, onDisk: Option<seq<Byte>>, capacity: nat, h: Height)
    requires Coherent(s) && RollbackError(s, target).None? && target < s.tip.value.height
    ensures var crashed := Between(s, DoRollback(target))[0];
            var again := Rollback(Open(crashed, onDisk, true, capacity), target);
            && again.result == Ok([])
            && again.store.db == Rollback(s, target).store.db
            && again.store.tip == Rollback(s, target).store.tip
            && Resolve(again.store, h) == Resolve(Rollback(s, target).store, h)
  {
    hide CacheAgrees, BinAgrees, ReadBin, Rollback, Resolve, OpenSynced;
    var top := s.tip.value.height;
    var crashed := RowsCut(s, target, top).db;
    var reopened := Open(crashed, onDisk, true, capacity);
    OpenCoherent(crashed, onDisk, true, capacity);
    RollbackDb(s, target);
    RollbackDb(reopened, target);
    NothingToRevert(crashed, target + 1, top);
    assert crashed.canonical - Range(target + 1, top) == crashed.canonical;
    RollbackCoherent(s, target);
    RollbackCoherent(reopened, target);
    LookupIsVisible(Rollback(s, target).store, h);
    LookupIsVisible(Rollback(reopened, target).store, h);
  }

  /** In between, the rows of a chain are still contiguous and linked, from the floor up to the target. */
  lemma RollbackCrashKeepsRowsLinked(s: Store, target: Height)
    requires ChainOk(s) && RollbackError(s, target).None? && target < s.tip.value.height
    ensures var crashed := Between(s, DoRollback(target))[0];
            && Paired(crashed)
            && RowsLinked(crashed, FloorOf(crashed), target)
            && crashed.tip == s.db.tip
  {
    hide CacheAgrees, BinAgrees;
  }

  // ---------------------------------------------------------------- extend_chain

  /**
   `extend_chain` called again after a crash reaches the uninterrupted result exactly when the crash did not fall
   between the block write and the tip write: there the block counts as a duplicate and the tip stays behind for good,
   until the tip is set by hand.
   */
  lemma ExtendIsRestartableExceptBetweenWrites(
    s: Store, b: Block, point: nat, onDisk: Option<seq<Byte>>, capacity: nat)
    requires Extend(s, b).result == Ok(true) && point < 3
    requires s.db.tip != Some(ChainTip(b.hash, b.Height()))
    ensures var reopened := Open(DurablePoints(s, DoExtend(b))[point], onDisk, true, capacity);
            var again := Extend(reopened, b);
            && (again.store.db == Extend(s, b).store.db <==> point != 1)
            && (point == 1 ==> again == Outcome(reopened, Ok(false)) && again.store.tip == s.db.tip)
            && (point == 1 ==> SetTip(again.store, ChainTip(b.hash, b.Height())).store.db == Extend(s, b).store.db)
  {
    hide Remember, ExtendWrite, OpenSynced;
    assert |Between(s, DoExtend(b))| == 1;
    assert DurablePoints(s, DoExtend(b)) == [s.db, Put(s, b, true).store.db, Extend(s, b).store.db];
  }
}
