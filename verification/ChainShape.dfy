/** The shape of the canonical chain, and that each operation of a linking caller keeps it (src/store.rs, src/canonical/index.rs). */
module ChainShape {
  import opened ChainTypes
  import opened CanonicalBin
  import opened StoreModel
  import opened Coherence
  import opened Runs

  /** Body and header rows come in pairs, each under its own hash. */
  ghost predicate Paired(db: Db) {
    && db.blocks.Keys == db.headers.Keys
    && forall x | x in db.blocks :: db.blocks[x].hash == x && db.blocks[x].header == db.headers[x]
  }

  /** The canonical rows are exactly lo..=hi; each names a stored block of that height whose parent is the row below. */
  ghost predicate RowsLinked(db: Db, lo: Height, hi: Height) {
    && (forall h: Height :: h in db.canonical <==> lo <= h <= hi)
    && (forall h | h in db.canonical ::
          db.canonical[h] in db.headers && db.headers[db.canonical[h]].height == h)
    && (forall h, below | h in db.canonical && below in db.canonical && Next(below, h) ::
          db.headers[db.canonical[h]].parent == db.canonical[below])
  }

  predicate Next(below: nat, h: nat) { h == below + 1 }

  /** A chain from the floor to the tip, with the tip on its top row. */
  ghost predicate Chain(db: Db) {
    && Paired(db)
    && db.tip.Some?
    && FloorOf(db) <= db.tip.value.height
    && RowsLinked(db, FloorOf(db), db.tip.value.height)
    && db.canonical[db.tip.value.height] == db.tip.value.hash
  }

  ghost predicate ChainOk(s: Store) { Coherent(s) && Chain(s.db) }

  /** Stored blocks at ancestor+1, ancestor+2, ..., each the child of the one before, the first a child of the ancestor. */
  ghost predicate LinkedFork(db: Db, ancestor: Height, hashes: seq<Hash>) {
    && ancestor in db.canonical
    && (forall i | 0 <= i < |hashes| ::
          hashes[i] in db.headers && db.headers[hashes[i]].height == ancestor + 1 + i)
    && (hashes != [] ==> db.headers[hashes[0]].parent == db.canonical[ancestor])
    && (forall i, j | 0 <= i < j < |hashes| && j == i + 1 :: db.headers[hashes[j]].parent == hashes[i])
  }

  lemma ExtendDbChain(db: Db, b: Block)
    requires Chain(db) && b.hash !in db.headers
    requires b.Height() == db.tip.value.height + 1 && b.header.parent == db.tip.value.hash
    ensures Chain(db.(blocks := db.blocks[b.hash := b], headers := db.headers[b.hash := b.header],
                      canonical := db.canonical[b.Height() := b.hash], tip := Some(ChainTip(b.hash, b.Height()))))
  {
  }

  lemma ExtendChain(s: Store, b: Block)
    requires ChainOk(s) && b.Height() == s.tip.value.height + 1 && b.header.parent == s.tip.value.hash
    ensures ChainOk(Extend(s, b).store)
  {
    if b.hash !in s.db.headers && !s.readOnly {
      assert b.Height() !in s.db.canonical;
      PutCoherent(s, b, true);
      ExtendDbChain(s.db, b);
    }
  }

  /** The database a rollback in a chain leaves. */
  ghost function RolledBack(db: Db, target: Height): (r: Db)
    requires db.tip.Some? && target in db.canonical
  {
    db.(canonical := db.canonical - Range(target + 1, db.tip.value.height),
        tip := Some(ChainTip(db.canonical[target], target)))
  }

  lemma RolledBackChain(db: Db, target: Height)
    requires Chain(db) && FloorOf(db) <= target <= db.tip.value.height
    ensures Chain(RolledBack(db, target))
    ensures target == db.tip.value.height ==> RolledBack(db, target) == db
  {
    if target == db.tip.value.height {
      assert db.canonical - Range(target + 1, target) == db.canonical;
    }
  }

  lemma RollbackMeaning(s: Store, target: Height)
    requires Coherent(s) && RollbackError(s, target).None? && target < s.tip.value.height
    requires target in s.db.canonical
    ensures var r := Rollback(s, target);
            && r.result == Ok(Descending(s.db, target + 1, s.tip.value.height))
            && r.store.db == RolledBack(s.db, target)
            && r.store == s.(db := r.store.db, bin := r.store.bin, cache := r.store.cache, tip := r.store.db.tip)
  {
    var top := s.tip.value.height;
    CollectDownCoherent(s, target + 1, top);
    CutTargetResolves(CollectDown(s, target + 1, top).0, target, top);
  }

  lemma RollbackChain(s: Store, target: Height)
    requires ChainOk(s)
    ensures ChainOk(Rollback(s, target).store)
    ensures RollbackError(s, target).None? ==> Rollback(s, target).store.db == RolledBack(s.db, target)
  {
    RollbackCoherent(s, target);
    if RollbackError(s, target).None? {
      RolledBackChain(s.db, target);
      if target < s.tip.value.height { RollbackMeaning(s, target); }
    }
  }

  lemma {:induction false} ConsecutiveRows(rows: seq<(Height, Hash)>, ancestor: Height)
    requires forall i | 0 <= i < |rows| :: rows[i].0 == ancestor + 1 + i
    ensures forall h: Height :: h in RowMap(rows) <==> ancestor < h <= ancestor + |rows|
    ensures forall h: Height | ancestor < h <= ancestor + |rows| :: RowMap(rows)[h] == rows[h - ancestor - 1].1
  {
    if rows != [] {
      ConsecutiveRows(rows[..|rows| - 1], ancestor);
    }
  }

  /** The rows of a linked fork are the heights just above the ancestor, in order. */
  lemma ForkRows(db: Db, ancestor: Height, hashes: seq<Hash>)
    requires LinkedFork(db, ancestor, hashes)
    ensures forall h: Height :: h in RowMap(RowsFor(db, hashes)) <==> ancestor < h <= ancestor + |hashes|
    ensures forall h: Height | ancestor < h <= ancestor + |hashes| ::
              RowMap(RowsFor(db, hashes))[h] == hashes[h - ancestor - 1]
  {
    hide RowMap;
    ConsecutiveRows(RowsFor(db, hashes), ancestor);
  }

  lemma ForkIsStored(db: Db, ancestor: Height, hashes: seq<Hash>)
    requires LinkedFork(db, ancestor, hashes)
    ensures FirstMissing(db, hashes).None?
  {
  }

  /** The rows a reorg in a chain leaves: the old chain up to the ancestor, then the fork. */
  ghost function ForkedRow(db: Db, ancestor: Height, hashes: seq<Hash>, h: Height): (r: Option<Hash>) {
    if FloorOf(db) <= h <= ancestor then Row(db.canonical, h)
    else if ancestor < h <= ancestor + |hashes| then Some(hashes[h - ancestor - 1])
    else None
  }

  ghost predicate Forkable(db: Db, ancestor: Height, hashes: seq<Hash>) {
    Chain(db) && FloorOf(db) <= ancestor <= db.tip.value.height && hashes != [] && LinkedFork(db, ancestor, hashes)
  }

  lemma ReorgRows(db: Db, ancestor: Height, hashes: seq<Hash>, h: Height)
    requires Forkable(db, ancestor, hashes)
    ensures Row(ReorgDb(db, ancestor, db.tip.value.height, hashes).canonical, h) == ForkedRow(db, ancestor, hashes, h)
  {
    hide RowMap, Paired;
    ForkRows(db, ancestor, hashes);
    var kept, fork := db.canonical - Range(ancestor + 1, db.tip.value.height), RowMap(RowsFor(db, hashes));
    assert h in kept + fork <==> h in kept || h in fork;
  }

  lemma ForkedLink(db: Db, ancestor: Height, hashes: seq<Hash>, below: Height, h: Height)
    requires Forkable(db, ancestor, hashes) && Next(below, h)
    requires ForkedRow(db, ancestor, hashes, h).Some? && ForkedRow(db, ancestor, hashes, below).Some?
    ensures var x := ForkedRow(db, ancestor, hashes, h).value;
            x in db.headers && db.headers[x].parent == ForkedRow(db, ancestor, hashes, below).value
  {
  }

  lemma ForkedRowsLinked(db: Db, ancestor: Height, hashes: seq<Hash>, rows: Rows)
    requires Forkable(db, ancestor, hashes)
    requires forall h: Height :: Row(rows, h) == ForkedRow(db, ancestor, hashes, h)
    ensures var top := NewTip(db, hashes);
            RowsLinked(db.(canonical := rows), FloorOf(db), top.height) && rows[top.height] == top.hash
  {
    assert db.headers[hashes[|hashes| - 1]].height == ancestor + |hashes|;
    forall h: Height
      ensures h in rows <==> FloorOf(db) <= h <= ancestor + |hashes|
      ensures h in rows ==> rows[h] in db.headers && db.headers[rows[h]].height == h
    {
      assert Row(rows, h) == ForkedRow(db, ancestor, hashes, h);
    }
    forall h, below | h in rows && below in rows && Next(below, h)
      ensures rows[h] in db.headers && db.headers[rows[h]].parent == rows[below]
    {
      assert Row(rows, h) == ForkedRow(db, ancestor, hashes, h) && Row(rows, below) == ForkedRow(db, ancestor, hashes, below);
      ForkedLink(db, ancestor, hashes, below, h);
    }
    assert Row(rows, ancestor + |hashes|) == ForkedRow(db, ancestor, hashes, ancestor + |hashes|);
  }

  lemma ReorgDbChain(db: Db, ancestor: Height, hashes: seq<Hash>)
    requires Forkable(db, ancestor, hashes)
    ensures Chain(ReorgDb(db, ancestor, db.tip.value.height, hashes))
  {
    var after := ReorgDb(db, ancestor, db.tip.value.height, hashes);
    forall h: Height ensures Row(after.canonical, h) == ForkedRow(db, ancestor, hashes, h) {
      ReorgRows(db, ancestor, hashes, h);
    }
    ForkedRowsLinked(db, ancestor, hashes, after.canonical);
  }

  lemma ReorgChain(s: Store, ancestor: Height, hashes: seq<Hash>)
    requires ChainOk(s) && s.floor <= ancestor <= s.tip.value.height && LinkedFork(s.db, ancestor, hashes)
    ensures ChainOk(Reorg(s, ancestor, hashes).store)
  {
    ReorgCoherent(s, ancestor, hashes);
    if ReorgError(s, hashes).None? {
      ReorgDbChain(s.db, ancestor, hashes);
    }
  }

  lemma PruneDbChain(db: Db, height: Height, rows: Rows)
    requires Chain(db) && FloorOf(db) < height <= db.tip.value.height
    requires forall h: Height :: Row(rows, h) == if FloorOf(db) <= h < height then Row(db.canonical, h) else None
    ensures Chain(PruneDb(db, height, rows))
  {
    var after := PruneDb(db, height, rows);
    assert forall h: Height :: h in rows <==> Row(rows, h).Some?;
    assert forall h | h in rows :: Row(rows, h) == Some(rows[h]) && rows[h] == db.canonical[h];
    assert forall h: Height :: h in after.canonical <==> height <= h <= db.tip.value.height;
    forall h | h in after.canonical
      ensures after.canonical[h] == db.canonical[h] && db.canonical[h] in after.headers
    {
      PruneKeepsHigher(db, height, rows, db.canonical[h]);
    }
  }

  lemma PruneKeepsHigher(db: Db, height: Height, rows: Rows, x: Hash)
    requires forall h | h in rows :: rows[h] in db.headers ==> db.headers[rows[h]].height < height
    requires x in db.headers && db.headers[x].height >= height
    ensures x in PruneDb(db, height, rows).headers
  {
  }

  lemma PruneChain(s: Store, height: Height)
    requires ChainOk(s) && height <= s.tip.value.height
    ensures ChainOk(Prune(s, height).store)
  {
    PruneCoherent(s, height);
    if !s.readOnly && height > s.floor {
      CollectUpCoherent(s, s.floor, height);
      PruneDbChain(s.db, height, CollectUp(s, s.floor, height).1);
    }
  }

  lemma {:induction false} ForkFlushRows(jobs: seq<Job>, db: Db)
    requires forall i | 0 <= i < |jobs| :: !jobs[i].canonical
    ensures forall i | 0 <= i < |Staged(db, jobs)| :: !Staged(db, jobs)[i].canonical
  {
    if jobs != [] {
      ForkFlushRows(jobs[..|jobs| - 1], db);
    }
  }

  lemma {:induction false} NoJobRows(staged: seq<Job>)
    requires forall i | 0 <= i < |staged| :: !staged[i].canonical
    ensures JobRows(staged) == []
  {
    if staged != [] {
      NoJobRows(staged[..|staged| - 1]);
    }
  }

  lemma {:induction false} StoreJobsGrows(db: Db, staged: seq<Job>)
    requires Paired(db)
    requires forall i | 0 <= i < |staged| :: staged[i].block.hash !in db.blocks
    ensures var r := StoreJobs(db, staged);
            && r == db.(blocks := r.blocks, headers := r.headers)
            && Paired(r)
            && forall x | x in db.headers :: x in r.headers && r.headers[x] == db.headers[x]
  {
    if staged != [] {
      StoreJobsGrows(db, staged[..|staged| - 1]);
    }
  }

  lemma {:induction false} StagedAreNew(db: Db, jobs: seq<Job>)
    ensures forall i | 0 <= i < |Staged(db, jobs)| :: Staged(db, jobs)[i].block.hash !in db.blocks
  {
    if jobs != [] {
      StagedAreNew(db, jobs[..|jobs| - 1]);
    }
  }

  lemma GrownChain(db: Db, after: Db)
    requires Chain(db) && Paired(after) && after == db.(blocks := after.blocks, headers := after.headers)
    requires forall x | x in db.headers :: x in after.headers && after.headers[x] == db.headers[x]
    ensures Chain(after)
  {
  }

  /** Flushing non-canonical jobs only adds bodies and headers. */
  lemma FlushForksGrow(s: Store, jobs: seq<Job>)
    requires Coherent(s) && Paired(s.db) && forall i | 0 <= i < |jobs| :: !jobs[i].canonical
    ensures Coherent(Flush(s, jobs).0)
    ensures var after := Flush(s, jobs).0.db;
            && after == s.db.(blocks := after.blocks, headers := after.headers)
            && Paired(after)
            && forall x | x in s.db.headers :: x in after.headers && after.headers[x] == s.db.headers[x]
  {
    hide CacheAgrees, BinAgrees, ReadBin, JobRows, Staged, StoreJobs, Paired;
    var staged := Staged(s.db, jobs);
    ForkFlushRows(jobs, s.db);
    NoJobRows(staged);
    FlushCoherent(s, jobs);
    StagedAreNew(s.db, jobs);
    StoreJobsGrows(s.db, staged);
    assert s.db.canonical + map[] == s.db.canonical;
  }

  lemma FlushForksChain(s: Store, jobs: seq<Job>)
    requires ChainOk(s) && forall i | 0 <= i < |jobs| :: !jobs[i].canonical
    ensures ChainOk(Flush(s, jobs).0)
  {
    hide Coherent, Flush, RowsLinked, Paired;
    FlushForksGrow(s, jobs);
    GrownChain(s.db, Flush(s, jobs).0.db);
  }

  lemma ReadCoherent(s: Store, a: Action)
    requires Coherent(s) && (a.DoLookup? || a.DoPreview? || a.DoFindAncestor?)
    ensures Coherent(Perform(s, a)) && Perform(s, a).db == s.db
  {
    hide CacheAgrees, BinAgrees, ReadBin, Resolve, Put, Genesis, SetCanonical, SetCanonicalBatch, Extend, Rollback, Reorg, Prune, Flush;
    match a
    case DoLookup(h) => LookedCoherent(s, h);
    case DoPreview(target) =>
      if s.tip.Some? && target < s.tip.value.height { CollectDownCoherent(s, target + 1, s.tip.value.height); }
    case DoFindAncestor(hash, depth) => AncestorCoherent(s, hash, depth);
  }
}
