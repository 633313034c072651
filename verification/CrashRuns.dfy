/**
 The canonical rows over whole runs of linking callers, with a crash at every durable point (src/store.rs,
 src/canonical/index.rs).

 `extend_chain` and `rollback_to_height` change the index and the tip in two writes, and `put_block`, `set_canonical`
 and `set_tip` change only one of the two, so the tip need not be on the top row. What always holds is that the rows
 are linked; the chain is whole exactly while the tip is on the top row, and this module says which steps lose that
 and which restore it.
 */
module CrashRuns {
  import opened ChainTypes
  import opened CanonicalBin
  import opened StoreModel
  import opened Coherence
  import opened Runs
  import opened ChainShape
  import opened Recovery
  import opened Pipeline

  // ---------------------------------------------------------------- linked rows, wherever the tip is

  /** The highest canonical height. */
  ghost function Top(db: Db): (r: Height)
    requires db.canonical != map[]
    ensures r in db.canonical && forall h | h in db.canonical :: h <= r
  {
    assert exists h :: h in db.canonical;
    Span(db.canonical) - 1
  }

  /** The top row as a tip. */
  ghost function Head(db: Db): (r: ChainTip)
    requires db.canonical != map[]
  {
    ChainTip(db.canonical[Top(db)], Top(db))
  }

  /** Rows from the floor to the top, linked through stored blocks; there is a tip, but it may be anywhere. */
  ghost predicate Linked(db: Db) {
    Paired(db) && db.tip.Some? && db.canonical != map[] && RowsLinked(db, FloorOf(db), Top(db))
  }

  ghost predicate LinkedOk(s: Store) { Coherent(s) && Linked(s.db) }

  /** A chain is linked rows with the tip on the top one. */
  lemma ChainIsLinkedWithTipOnTop(db: Db)
    ensures Chain(db) <==> Linked(db) && db.tip == Some(Head(db))
  {
    hide Paired;
    if Chain(db) {
      assert db.tip.value.height in db.canonical;
    }
  }

  /** The database with its tip put on the top row. */
  ghost function Mended(db: Db): (r: Db)
    requires db.canonical != map[]
  {
    db.(tip := Some(Head(db)))
  }

  lemma MendedIsChain(db: Db)
    requires Linked(db)
    ensures Chain(Mended(db)) && Top(Mended(db)) == Top(db) == Mended(db).tip.value.height
  {
    assert Top(Mended(db)) == Top(db);
  }

  /** Linked rows do not depend on where the tip is. */
  lemma TipIsFree(db: Db, tip: ChainTip)
    requires Linked(db)
    ensures Linked(db.(tip := Some(tip))) && Head(db.(tip := Some(tip))) == Head(db)
  {
    assert Top(db.(tip := Some(tip))) == Top(db);
  }

  // ---------------------------------------------------------------- what a linking caller does

  /** A block with this height and parent goes on top of the rows, or replaces the top one. */
  ghost predicate OnTop(db: Db, h: Height, parent: Hash)
    requires db.canonical != map[]
  {
    Top(db) <= h && h > 0 && Row(db.canonical, h - 1) == Some(parent)
  }

  /** Only a height cache of capacity 0 cannot refresh an entry it holds. */
  predicate Refreshable(s: Store, h: Height) { s.capacity > 0 || h !in s.cache }

  ghost predicate LinksUp(s: Store, h: Height, parent: Hash)
    requires s.db.canonical != map[]
  {
    OnTop(s.db, h, parent) && Refreshable(s, h)
  }

  /** Each canonical job of a flush that is not a duplicate goes on top of what the jobs before it left. */
  ghost predicate JobsLink(s: Store, jobs: seq<Job>) {
    jobs == [] ||
    (JobsLink(s, jobs[..|jobs| - 1]) &&
     var before, last := Sequential(s, jobs[..|jobs| - 1]).0.db, jobs[|jobs| - 1];
     (last.canonical && last.block.hash !in before.blocks ==>
        before.canonical != map[] && OnTop(before, last.block.Height(), last.block.header.parent)))
  }

  /** The fork leaves nothing above it. */
  ghost predicate ForkCovers(db: Db, ancestor: Height, top: Height, hashes: seq<Hash>)
    requires db.canonical != map[]
  {
    Top(db) <= top || Top(db) <= ancestor + |hashes|
  }

  /**
   Rows up to `top` go and the fork comes: nothing is left above the fork, or what is left above it was above its last
   block before.
   */
  ghost predicate ForkFits(db: Db, ancestor: Height, top: Height, hashes: seq<Hash>)
    requires db.canonical != map[] && hashes != []
  {
    var last := ancestor + |hashes|;
    || ForkCovers(db, ancestor, top, hashes)
    || (top <= last < SLOT_LIMIT && Row(db.canonical, last) == Some(hashes[|hashes| - 1]))
  }

  /** What a careful caller does; the store itself checks none of it. Setting the tip is free. */
  ghost predicate Disciplined(s: Store, a: Action)
    requires Linked(s.db)
  {
    match a
    case DoPut(b, canonical) => canonical && b.hash !in s.db.blocks ==> LinksUp(s, b.Height(), b.header.parent)
    case DoSetCanonical(hash) =>
      hash in s.db.headers ==>
        (var header := s.db.headers[hash];
         Row(s.db.canonical, header.height) == Some(hash) || LinksUp(s, header.height, header.parent))
    case DoSetCanonicalBatch(hashes) => LinkedFork(s.db, Top(s.db), hashes)
    case DoExtend(b, _) => b.hash !in s.db.blocks ==> LinksUp(s, b.Height(), b.header.parent)
    case DoRollback(target) => Top(s.db) <= s.db.tip.value.height || s.db.tip.value.height <= target
    case DoReorg(ancestor, hashes) =>
      LinkedFork(s.db, ancestor, hashes) && (hashes == [] || ForkFits(s.db, ancestor, s.db.tip.value.height, hashes))
    case DoPrune(height) => height <= s.floor || height in s.db.canonical
    case DoFlush(jobs) => s.readOnly || (JobsLink(s, jobs) && StaleFree(s, JobRows(Staged(s.db, jobs))))
    case _ => true
  }

  // ---------------------------------------------------------------- row writes

  /** The links of the rows survive one more row on top, or the top row replaced. */
  lemma LinksOnTop(db: Db, after: Db, h: Height, x: Hash, below: Height, k: Height)
    requires Linked(db) && after.canonical == db.canonical[h := x]
    requires forall y | y in db.headers :: y in after.headers && after.headers[y] == db.headers[y]
    requires x in after.headers && OnTop(db, h, after.headers[x].parent)
    requires k in after.canonical && below in after.canonical && Next(below, k)
    ensures after.canonical[k] in after.headers && after.headers[after.canonical[k]].parent == after.canonical[below]
  {
    hide Paired;
    if k != h { assert k in db.canonical && below in db.canonical; }
  }

  lemma HeightsOnTop(db: Db, after: Db, h: Height, x: Hash, k: Height)
    requires Linked(db) && after.canonical == db.canonical[h := x]
    requires forall y | y in db.headers :: y in after.headers && after.headers[y] == db.headers[y]
    requires x in after.headers && after.headers[x].height == h && OnTop(db, h, after.headers[x].parent)
    ensures k in after.canonical <==> FloorOf(db) <= k <= h
    ensures k in after.canonical ==> after.canonical[k] in after.headers && after.headers[after.canonical[k]].height == k
  {
    hide Paired;
  }

  /** One more row on top, or the top row replaced, keeps the rows linked and is the new head. */
  lemma RowOnTop(db: Db, after: Db, h: Height, x: Hash)
    requires Linked(db) && Paired(after) && after.tip.Some? && FloorOf(after) == FloorOf(db)
    requires forall y | y in db.headers :: y in after.headers && after.headers[y] == db.headers[y]
    requires after.canonical == db.canonical[h := x]
    requires x in after.headers && after.headers[x].height == h && OnTop(db, h, after.headers[x].parent)
    ensures Linked(after) && Head(after) == ChainTip(x, h)
  {
    hide Paired, OnTop;
    assert h in after.canonical;
    forall k: Height
      ensures k in after.canonical <==> FloorOf(db) <= k <= h
      ensures k in after.canonical ==> after.canonical[k] in after.headers && after.headers[after.canonical[k]].height == k
    {
      HeightsOnTop(db, after, h, x, k);
    }
    assert Top(after) == h;
    forall k, below | k in after.canonical && below in after.canonical && Next(below, k)
      ensures after.headers[after.canonical[k]].parent == after.canonical[below]
    {
      LinksOnTop(db, after, h, x, below, k);
    }
  }

  /** Bodies and headers added beside the rows change nothing about them. */
  lemma GrownLinked(db: Db, after: Db)
    requires Linked(db) && Paired(after) && after == db.(blocks := after.blocks, headers := after.headers)
    requires forall x | x in db.headers :: x in after.headers && after.headers[x] == db.headers[x]
    ensures Linked(after) && Head(after) == Head(db)
  {
    assert Top(after) == Top(db);
  }

  lemma PutLinked(s: Store, b: Block, canonical: bool)
    requires Linked(s.db)
    requires canonical && b.hash !in s.db.blocks ==> s.readOnly || OnTop(s.db, b.Height(), b.header.parent)
    ensures var after := Put(s, b, canonical).store.db;
            && Linked(after) && after.tip == s.db.tip && FloorOf(after) == FloorOf(s.db)
            && Head(after) == (if !s.readOnly && b.hash !in s.db.blocks && canonical then ChainTip(b.hash, b.Height()) else Head(s.db))
  {
    hide Remember, ExtendWrite, RowsLinked;
    if !s.readOnly && b.hash !in s.db.blocks {
      var after := Put(s, b, canonical).store.db;
      if canonical { RowOnTop(s.db, after, b.Height(), b.hash); } else { GrownLinked(s.db, after); }
    }
  }

  lemma PutLinkedOk(s: Store, b: Block, canonical: bool)
    requires LinkedOk(s) && Disciplined(s, DoPut(b, canonical))
    ensures Coherent(Put(s, b, canonical).store)
  {
    hide Linked, BinAgrees;
    if !canonical || b.hash !in s.db.blocks { PutCoherent(s, b, canonical); }
  }

  lemma ExtendLinked(s: Store, b: Block, trains: bool)
    requires LinkedOk(s) && Disciplined(s, DoExtend(b, trains))
    ensures var r := Extend(s, b, trains);
            && LinkedOk(r.store)
            && (b.hash in s.db.blocks || s.readOnly ==> r.store.db == s.db)
            && (b.hash !in s.db.blocks && !s.readOnly ==>
                  && Head(r.store.db) == ChainTip(b.hash, b.Height())
                  && r.store.db.tip == if trains then Some(ChainTip(b.hash, b.Height())) else s.db.tip)
  {
    hide CacheAgrees, BinAgrees, Remember, ExtendWrite, RowsLinked, OnTop;
    if b.hash !in s.db.blocks && !s.readOnly {
      PutLinked(s, b, true);
      PutLinkedOk(s, b, true);
      TipIsFree(Put(s, b, true).store.db, ChainTip(b.hash, b.Height()));
    }
  }

  /** Whether `set_canonical` changes the row of a stored block. */
  predicate Promotes(db: Db, hash: Hash) {
    hash in db.headers && Row(db.canonical, db.headers[hash].height) != Some(hash)
  }

  lemma SetCanonicalLinked(s: Store, hash: Hash)
    requires LinkedOk(s) && Disciplined(s, DoSetCanonical(hash))
    ensures var r := SetCanonical(s, hash).store;
            && LinkedOk(r) && r.db.tip == s.db.tip
            && (s.readOnly || !Promotes(s.db, hash) ==> r.db == s.db)
            && (!s.readOnly && Promotes(s.db, hash) ==> Head(r.db) == ChainTip(hash, s.db.headers[hash].height))
  {
    hide BinAgrees, Remember, ExtendWrite, RowsLinked;
    if hash in s.db.headers && !s.readOnly {
      var h := s.db.headers[hash].height;
      if Promotes(s.db, hash) {
        RowOnTop(s.db, s.db.(canonical := s.db.canonical[h := hash]), h, hash);
      } else {
        assert s.db.canonical[h := hash] == s.db.canonical;
      }
      SetCanonicalCoherent(s, hash);
    }
  }

  /** A fork over the rows, wherever the tip is: what the rows were up to the ancestor, then the fork. */
  lemma ForkOverLinked(db: Db, ancestor: Height, top: Height, hashes: seq<Hash>)
    requires Linked(db) && LinkedFork(db, ancestor, hashes) && hashes != [] && ForkCovers(db, ancestor, top, hashes)
    ensures var after := ReorgDb(db, ancestor, top, hashes);
            Chain(after) && Linked(after) && after.tip == Some(Head(after)) && Head(after) == NewTip(db, hashes)
  {
    hide RowMap, Paired, RowsLinked, Range;
    var mended := Mended(db);
    MendedIsChain(db);
    AncestorOnRows(db, ancestor, hashes);
    ReorgDbChain(mended, ancestor, hashes);
    ForkRows(db, ancestor, hashes);
    SameOverlay(db.canonical, RowMap(RowsFor(db, hashes)), ancestor, top, Top(db), ancestor + |hashes|);
    assert ReorgDb(db, ancestor, top, hashes) == ReorgDb(mended, ancestor, Top(db), hashes);
    ChainIsLinkedWithTipOnTop(ReorgDb(db, ancestor, top, hashes));
  }

  lemma AncestorOnRows(db: Db, ancestor: Height, hashes: seq<Hash>)
    requires Linked(db) && LinkedFork(db, ancestor, hashes)
    ensures db.canonical != map[] && FloorOf(db) <= ancestor <= Top(db) && LinkedFork(Mended(db), ancestor, hashes)
  {
    hide Paired;
  }

  /** Deleting further up makes no difference when there is nothing there, or the fork covers it anyway. */
  lemma SameOverlay(rows: Rows, fork: Rows, ancestor: Height, a: Height, top: Height, last: nat)
    requires forall h | h in rows :: h <= top
    requires forall h: Height :: h in fork <==> ancestor < h <= last
    requires top <= a || top <= last
    ensures (rows - Range(ancestor + 1, a)) + fork == (rows - Range(ancestor + 1, top)) + fork
  {
  }

  /** The row a reorg leaves at a height, wherever the tip is. */
  ghost function ReorgedRow(db: Db, ancestor: Height, top: Height, hashes: seq<Hash>, h: Height): (r: Option<Hash>) {
    if ancestor < h <= ancestor + |hashes| then Some(hashes[h - ancestor - 1])
    else if ancestor < h <= top then None
    else Row(db.canonical, h)
  }

  lemma ReorgedRows(db: Db, ancestor: Height, top: Height, hashes: seq<Hash>, h: Height)
    requires LinkedFork(db, ancestor, hashes) && hashes != []
    ensures Row(ReorgDb(db, ancestor, top, hashes).canonical, h) == ReorgedRow(db, ancestor, top, hashes, h)
  {
    hide RowMap;
    ForkRows(db, ancestor, hashes);
  }

  /** The fork ends, under rows that stay, on the block that was canonical there. */
  ghost predicate ForkMeets(db: Db, ancestor: Height, top: Height, hashes: seq<Hash>)
    requires db.canonical != map[] && hashes != []
  {
    !ForkCovers(db, ancestor, top, hashes) && ForkFits(db, ancestor, top, hashes)
  }

  /** The row such a fork leaves at a height. */
  lemma MetRow(db: Db, ancestor: Height, top: Height, hashes: seq<Hash>, h: Height)
    requires Linked(db) && LinkedFork(db, ancestor, hashes) && hashes != [] && ForkMeets(db, ancestor, top, hashes)
    ensures var after, last := ReorgDb(db, ancestor, top, hashes), ancestor + |hashes|;
            && Row(after.canonical, h) == (if ancestor < h <= last then Some(hashes[h - ancestor - 1]) else Row(db.canonical, h))
            && (h in after.canonical <==> FloorOf(db) <= h <= Top(db))
            && (h in after.canonical ==> after.canonical[h] in db.headers && db.headers[after.canonical[h]].height == h)
  {
    hide LinkedFork, Linked, ReorgDb;
    ForkAt(db, ancestor, hashes, 0);
    SameHeaders(db, ancestor, top, hashes);
    AncestorOnRows(db, ancestor, hashes);
    ReorgedRows(db, ancestor, top, hashes, h);
    RowAt(db, h);
    if ancestor < h <= ancestor + |hashes| { ForkAt(db, ancestor, hashes, h - ancestor - 1); }
  }

  lemma MetLink(db: Db, ancestor: Height, top: Height, hashes: seq<Hash>, below: Height, h: Height)
    requires Linked(db) && LinkedFork(db, ancestor, hashes) && hashes != [] && ForkMeets(db, ancestor, top, hashes)
    requires var rows := ReorgDb(db, ancestor, top, hashes).canonical; below in rows && h in rows && Next(below, h)
    ensures var after := ReorgDb(db, ancestor, top, hashes);
            after.canonical[h] in db.headers && db.headers[after.canonical[h]].parent == after.canonical[below]
  {
    hide LinkedFork, Linked, ReorgDb;
    SameHeaders(db, ancestor, top, hashes);
    MetRow(db, ancestor, top, hashes, below);
    MetRow(db, ancestor, top, hashes, h);
    if ancestor < h <= ancestor + |hashes| {
      ForkAt(db, ancestor, hashes, h - ancestor - 1);
    } else {
      RowLink(db, below, h);
    }
  }

  /** Under rows that were above its last block already, a fork changes no row above itself and the links hold. */
  lemma ForkUnderLinked(db: Db, ancestor: Height, top: Height, hashes: seq<Hash>)
    requires Linked(db) && LinkedFork(db, ancestor, hashes) && hashes != [] && ForkMeets(db, ancestor, top, hashes)
    ensures var after := ReorgDb(db, ancestor, top, hashes);
            Linked(after) && Head(after) == Head(db) && after.tip.value.height < Top(db)
  {
    hide RowMap, LinkedFork, Paired, RowsLinked, Range, RowsFor;
    ForkIsStored(db, ancestor, hashes);
    ForkAt(db, ancestor, hashes, |hashes| - 1);
    var after := ReorgDb(db, ancestor, top, hashes);
    MetRow(db, ancestor, top, hashes, Top(db));
    RowsMet(db, ancestor, top, hashes);
    LinkedAgain(db, after);
  }

  lemma RowsMet(db: Db, ancestor: Height, top: Height, hashes: seq<Hash>)
    requires Linked(db) && LinkedFork(db, ancestor, hashes) && hashes != [] && ForkMeets(db, ancestor, top, hashes)
    ensures var after := ReorgDb(db, ancestor, top, hashes);
            after.canonical != map[] && Top(after) == Top(db) && RowsLinked(after, FloorOf(after), Top(after))
  {
    hide LinkedFork, Linked, ReorgDb, ForkMeets;
    SameHeaders(db, ancestor, top, hashes);
    AncestorOnRows(db, ancestor, hashes);
    var after := ReorgDb(db, ancestor, top, hashes);
    forall h: Height
      ensures h in after.canonical <==> FloorOf(db) <= h <= Top(db)
      ensures h in after.canonical ==> after.canonical[h] in db.headers && db.headers[after.canonical[h]].height == h
    {
      MetRow(db, ancestor, top, hashes, h);
    }
    assert Top(db) in after.canonical;
    assert Top(after) == Top(db);
    forall h: Height, below: Height | h in after.canonical && below in after.canonical && Next(below, h)
      ensures after.headers[after.canonical[h]].parent == after.canonical[below]
    {
      MetLink(db, ancestor, top, hashes, below, h);
    }
  }

  /** A row of linked rows. */
  lemma RowAt(db: Db, h: Height)
    requires Linked(db)
    ensures h in db.canonical <==> FloorOf(db) <= h <= Top(db)
    ensures h in db.canonical ==> db.canonical[h] in db.headers && db.headers[db.canonical[h]].height == h
  {
    hide Paired;
  }

  lemma RowLink(db: Db, below: Height, h: Height)
    requires Linked(db) && Next(below, h) && h in db.canonical && below in db.canonical
    ensures db.canonical[h] in db.headers && db.headers[db.canonical[h]].parent == db.canonical[below]
  {
    hide Paired;
  }

  /** A block of a linked fork, its height and its parent. */
  lemma ForkAt(db: Db, ancestor: Height, hashes: seq<Hash>, i: nat)
    requires LinkedFork(db, ancestor, hashes) && i < |hashes|
    ensures hashes[i] in db.headers && db.headers[hashes[i]].height == ancestor + 1 + i
    ensures db.headers[hashes[i]].parent == if i == 0 then db.canonical[ancestor] else hashes[i - 1]
  {
  }

  lemma LinkedAgain(db: Db, after: Db)
    requires Linked(db) && after == db.(canonical := after.canonical, tip := after.tip) && after.tip.Some? && after.canonical != map[]
    requires RowsLinked(after, FloorOf(after), Top(after))
    ensures Linked(after)
  {
  }

  /**
   A reorg with a linked fork leaves linked rows exactly when nothing stays above the fork, or when no row is deleted
   above it and its last block was canonical already.
   */
  lemma ReorgKeepsRowsLinkedExactlyWhenTheForkFits(db: Db, ancestor: Height, top: Height, hashes: seq<Hash>)
    requires Linked(db) && LinkedFork(db, ancestor, hashes) && hashes != []
    ensures Linked(ReorgDb(db, ancestor, top, hashes)) <==> ForkFits(db, ancestor, top, hashes)
  {
    hide RowMap, LinkedFork, Paired, RowsLinked, ReorgDb;
    SameHeaders(db, ancestor, top, hashes);
    var after, last := ReorgDb(db, ancestor, top, hashes), ancestor + |hashes|;
    if ForkCovers(db, ancestor, top, hashes) {
      ForkOverLinked(db, ancestor, top, hashes);
    } else if ForkFits(db, ancestor, top, hashes) {
      ForkUnderLinked(db, ancestor, top, hashes);
    } else if Linked(after) {
      AncestorOnRows(db, ancestor, hashes);
      ReorgedRows(db, ancestor, top, hashes, Top(db));
      RowAt(after, Top(db));
      if last < top {
        ReorgedRows(db, ancestor, top, hashes, top);
        ReorgedRows(db, ancestor, top, hashes, ancestor);
        RowAt(after, ancestor);
        RowAt(after, top);
        assert false;
      } else {
        ReorgedRows(db, ancestor, top, hashes, last);
        ReorgedRows(db, ancestor, top, hashes, last + 1);
        RowAt(db, last);
        RowAt(db, last + 1);
        RowLink(db, last, last + 1);
        RowAt(after, last);
        RowAt(after, last + 1);
        RowLink(after, last, last + 1);
        assert false;
      }
    }
  }

  lemma SameHeaders(db: Db, ancestor: Height, top: Height, hashes: seq<Hash>)
    requires LinkedFork(db, ancestor, hashes) && hashes != []
    ensures forall i | 0 <= i < |hashes| :: hashes[i] in db.headers
    ensures ReorgDb(db, ancestor, top, hashes).headers == db.headers
    ensures FloorOf(ReorgDb(db, ancestor, top, hashes)) == FloorOf(db)
  {
  }

  lemma ReorgLinked(s: Store, ancestor: Height, hashes: seq<Hash>)
    requires LinkedOk(s) && Disciplined(s, DoReorg(ancestor, hashes))
    ensures var r := Reorg(s, ancestor, hashes).store;
            && LinkedOk(r)
            && (ReorgError(s, hashes).Some? ==> r.db == s.db)
            && (ReorgError(s, hashes).None? ==>
                  (r.db.tip == Some(Head(r.db)) <==> ForkCovers(s.db, ancestor, s.tip.value.height, hashes)))
  {
    hide CacheAgrees, BinAgrees, RowsLinked, LinkedFork, RowMap, CollectDown;
    ReorgCoherent(s, ancestor, hashes);
    if ReorgError(s, hashes).None? {
      if ForkCovers(s.db, ancestor, s.tip.value.height, hashes) {
        ForkOverLinked(s.db, ancestor, s.tip.value.height, hashes);
      } else {
        ForkUnderLinked(s.db, ancestor, s.tip.value.height, hashes);
      }
    }
  }

  lemma BatchLinked(s: Store, hashes: seq<Hash>)
    requires LinkedOk(s) && Disciplined(s, DoSetCanonicalBatch(hashes))
    ensures var r := SetCanonicalBatch(s, hashes).store;
            && LinkedOk(r) && r.db.tip == s.db.tip
            && (s.readOnly || hashes == [] ==> r.db == s.db)
            && (!s.readOnly && hashes != [] ==> Head(r.db) == NewTip(s.db, hashes))
  {
    hide CacheAgrees, BinAgrees, RowMap, Paired, RowsLinked, WriteAll, LinkedFork, FirstMissing, RowsFor;
    if !s.readOnly {
      var top := Top(s.db);
      ForkIsStored(s.db, top, hashes);
      var rows := RowsFor(s.db, hashes);
      NewRowsAreNotCached(s, hashes);
      SkippedRefreshIsSafeExactlyWhenStaleFree(s, rows);
      if hashes == [] {
        assert rows == [];
        assert RowMap(rows) == map[] by { NoRows(); }
        assert s.db.canonical + map[] == s.db.canonical;
      } else {
        ForkOverLinked(s.db, top, top, hashes);
        var forked := ReorgDb(s.db, top, top, hashes);
        NothingAbove(s.db.canonical, top);
        TipIsFree(forked, s.db.tip.value);
      }
    }
  }

  lemma NothingAbove(rows: Rows, top: Height)
    ensures rows - Range(top + 1, top) == rows
  {
  }

  lemma NoRows()
    ensures RowMap([]) == map[]
  {
  }

  lemma NewRowsAreNotCached(s: Store, hashes: seq<Hash>)
    requires LinkedOk(s) && LinkedFork(s.db, Top(s.db), hashes)
    ensures StaleFree(s, RowsFor(s.db, hashes))
  {
    hide BinAgrees, RowMap, Paired, RowsLinked;
    ForkRows(s.db, Top(s.db), hashes);
  }

  // ---------------------------------------------------------------- cuts

  /** The rows above a height gone: the head is what is left on top, and with the tip on it the chain is whole. */
  lemma CutLinked(db: Db, target: Height, above: Height)
    requires Linked(db) && FloorOf(db) <= target && Top(db) <= above
    ensures var cut := db.(canonical := db.canonical - Range(target + 1, above));
            && Linked(cut) && cut.tip == db.tip
            && (target < Top(db) ==> Head(cut) == ChainTip(db.canonical[target], target))
            && (target >= Top(db) ==> cut == db)
  {
    hide Paired;
    var cut := db.(canonical := db.canonical - Range(target + 1, above));
    if target >= Top(db) {
      assert cut.canonical == db.canonical;
    } else {
      assert target in cut.canonical;
      assert Top(cut) == target;
      CutIsPaired(db, cut);
    }
  }

  lemma CutIsPaired(db: Db, cut: Db)
    requires Paired(db) && cut == db.(canonical := cut.canonical)
    ensures Paired(cut)
  {
  }

  /** A legal rollback that has something to do, in a linked store without rows above the tip. */
  ghost predicate RollsBack(s: Store, target: Height) {
    RollbackError(s, target).None? && target < s.tip.value.height
  }

  lemma RollbackLinked(s: Store, target: Height)
    requires LinkedOk(s) && Disciplined(s, DoRollback(target))
    ensures var r := Rollback(s, target).store;
            && LinkedOk(r)
            && (!RollsBack(s, target) ==> r.db == s.db)
            && (RollsBack(s, target) ==>
                  && Linked(RowsCut(s, target, s.tip.value.height).db)
                  && Top(RowsCut(s, target, s.tip.value.height).db) <= target
                  && RowsCut(s, target, s.tip.value.height).db.tip == s.db.tip
                  && (target in s.db.canonical ==> r.db.tip == Some(Head(r.db)))
                  && (target !in s.db.canonical ==> r.db == s.db))
  {
    hide CacheAgrees, BinAgrees, RowsLinked, Paired, Rollback, TruncateTo;
    RollbackCoherent(s, target);
    if RollsBack(s, target) {
      var top := s.tip.value.height;
      RollbackDb(s, target);
      CutLinked(s.db, target, top);
      RowsUpToTop(s.db, target);
      var cut := RowsCut(s, target, top).db;
      if target in s.db.canonical {
        assert Head(cut) == ChainTip(s.db.canonical[target], target);
        TipIsFree(cut, Head(cut));
      }
    } else {
      NoRollback(s, target);
    }
  }

  lemma RowsUpToTop(db: Db, h: Height)
    requires Linked(db) && FloorOf(db) <= h
    ensures h in db.canonical <==> h <= Top(db)
  {
    hide Paired;
  }

  lemma NoRollback(s: Store, target: Height)
    requires !RollsBack(s, target)
    ensures Rollback(s, target).store == s
  {
    hide CollectDown, TipMoved, RowsCut;
  }

  lemma PruneLinked(s: Store, height: Height)
    requires LinkedOk(s) && Disciplined(s, DoPrune(height))
    ensures var r := Prune(s, height).store;
            LinkedOk(r) && r.db.tip == s.db.tip && Head(r.db) == Head(s.db)
  {
    hide CacheAgrees, BinAgrees, RowsLinked, Paired, CollectUp;
    PruneCoherent(s, height);
    if !s.readOnly && height > s.floor {
      CollectUpCoherent(s, s.floor, height);
      var rows := CollectUp(s, s.floor, height).1;
      VisibleRows(s.db);
      PruneDbLinked(s.db, height, rows);
    }
  }

  lemma VisibleRows(db: Db)
    ensures forall h: Height | FloorOf(db) <= h :: Visible(db, h) == Row(db.canonical, h)
  {
  }

  lemma PruneDbLinked(db: Db, height: Height, rows: Rows)
    requires Linked(db) && FloorOf(db) < height && height in db.canonical
    requires forall h: Height :: Row(rows, h) == if FloorOf(db) <= h < height then Row(db.canonical, h) else None
    ensures var after := PruneDb(db, height, rows);
            Linked(after) && after.tip == db.tip && Head(after) == Head(db)
  {
    hide RowsLinked, Paired;
    var mended, pruned := Mended(db), PruneDb(Mended(db), height, rows);
    MendedIsChain(db);
    PruneDbChain(mended, height, rows);
    ChainIsLinkedWithTipOnTop(pruned);
    TipIsFree(pruned, db.tip.value);
    assert pruned.(tip := db.tip) == PruneDb(db, height, rows);
  }

  // ---------------------------------------------------------------- flushes

  /** The canonical rows the flush writes, by way of the puts it stands for. */
  lemma {:induction false} SequentialLinked(s: Store, jobs: seq<Job>)
    requires Linked(s.db) && !s.readOnly && JobsLink(s, jobs)
    ensures var after, rows := Sequential(s, jobs).0, JobRows(Staged(s.db, jobs));
            && Linked(after.db) && after.db.tip == s.db.tip && !after.readOnly
            && (if rows == [] then Head(after.db) == Head(s.db)
                else Head(after.db) == ChainTip(rows[|rows| - 1].1, rows[|rows| - 1].0))
  {
    hide Linked, Put, Head, OnTop, StoreJobs;
    if jobs != [] {
      var front, job := jobs[..|jobs| - 1], jobs[|jobs| - 1];
      SequentialLinked(s, front);
      var before := Sequential(s, front).0;
      PutLinked(before, job.block, job.canonical);
      PutKeepsMode(before, job);
      SequentialHashes(s, front);
      assert Novel(s.db, jobs, |jobs| - 1) <==> job.block.hash !in before.db.blocks.Keys;
      assert Sequential(s, jobs).0 == Put(before, job.block, job.canonical).store;
      var staged := Staged(s.db, front);
      if Novel(s.db, jobs, |jobs| - 1) {
        StagedMore(s.db, staged, job);
        assert Staged(s.db, jobs) == staged + [job];
      } else {
        assert Staged(s.db, jobs) == staged;
      }
    }
  }

  lemma PutKeepsMode(s: Store, job: Job)
    ensures Put(s, job.block, job.canonical).store.readOnly == s.readOnly
  {
  }

  lemma FlushLinked(s: Store, jobs: seq<Job>)
    requires LinkedOk(s) && Disciplined(s, DoFlush(jobs))
    ensures var r, rows := Flush(s, jobs).0, JobRows(Staged(s.db, jobs));
            && LinkedOk(r) && r.db.tip == s.db.tip
            && (s.readOnly ==> r.db == s.db)
            && (!s.readOnly ==> Head(r.db) == if rows == [] then Head(s.db) else ChainTip(rows[|rows| - 1].1, rows[|rows| - 1].0))
  {
    hide CacheAgrees, BinAgrees, RowsLinked, Paired, Sequential, JobsLink, Staged, JobRows, StoreJobs, WriteAll;
    FlushCoherent(s, jobs);
    if !s.readOnly {
      SequentialLinked(s, jobs);
      FlushRefinesSequentialPuts(s, jobs);
    }
  }

  // ---------------------------------------------------------------- which durable points lose the chain, and which restore it

  /** The last canonical row a flush writes. */
  ghost function LastRow(s: Store, jobs: seq<Job>): (r: Option<ChainTip>) {
    var rows := JobRows(Staged(s.db, jobs));
    if rows == [] then None else Some(ChainTip(rows[|rows| - 1].1, rows[|rows| - 1].0))
  }

  /** In a chain: the durable point lies between an index change and the tip change that would complete it. */
  ghost predicate Splits(s: Store, a: Action, i: nat) {
    i == 1 && !s.readOnly &&
    match a
    case DoPut(b, canonical) => canonical && b.hash !in s.db.blocks
    case DoExtend(b, _) => b.hash !in s.db.blocks
    case DoSetCanonical(hash) => Promotes(s.db, hash)
    case DoSetCanonicalBatch(hashes) => hashes != []
    case DoFlush(jobs) => LastRow(s, jobs).Some?
    case DoRollback(target) => RollsBack(s, target)
    case DoSetTip(tip) => s.tip != Some(tip)
    case _ => false
  }

  /** Off the chain: the point has the tip on the top row again. */
  ghost predicate Mends(s: Store, a: Action, i: nat)
    requires Linked(s.db)
  {
    i > 0 && !s.readOnly &&
    match a
    case DoSetTip(tip) => tip == Head(s.db)
    case DoExtend(b, trains) =>
      b.hash !in s.db.blocks && ((trains && i == 2) || s.tip == Some(ChainTip(b.hash, b.Height())))
    case DoRollback(target) => RollsBack(s, target) && target in s.db.canonical && i == 2
    case DoReorg(ancestor, hashes) =>
      ReorgError(s, hashes).None? && ForkCovers(s.db, ancestor, s.tip.value.height, hashes)
    case DoPut(b, canonical) =>
      canonical && b.hash !in s.db.blocks && s.tip == Some(ChainTip(b.hash, b.Height()))
    case DoSetCanonical(hash) => Promotes(s.db, hash) && s.tip == Some(ChainTip(hash, s.db.headers[hash].height))
    case DoSetCanonicalBatch(hashes) =>
      hashes != [] && LinkedFork(s.db, Top(s.db), hashes) && s.tip == Some(NewTip(s.db, hashes))
    case DoFlush(jobs) => LastRow(s, jobs).Some? && s.tip == LastRow(s, jobs)
    case _ => false
  }

  ghost predicate Holds(s: Store, a: Action, i: nat)
    requires Linked(s.db)
  {
    if Chain(s.db) then !Splits(s, a, i) else Mends(s, a, i)
  }

  /** The head of linked rows is a stored block. */
  lemma HeadIsStored(db: Db)
    requires Linked(db)
    ensures Head(db).hash in db.headers && Head(db).hash in db.blocks
  {
  }

  lemma SameRowsJudged(s: Store, a: Action, after: Db, i: nat)
    requires Linked(s.db) && Linked(after) && after.tip == s.db.tip && Head(after) == Head(s.db)
    requires !Splits(s, a, i) && !Mends(s, a, i)
    ensures Chain(after) <==> Holds(s, a, i)
  {
    hide Linked, Splits, Mends, Head;
    ChainIsLinkedWithTipOnTop(s.db);
    ChainIsLinkedWithTipOnTop(after);
  }

  lemma PutJudged(s: Store, b: Block, canonical: bool)
    requires LinkedOk(s) && Disciplined(s, DoPut(b, canonical))
    ensures LinkedOk(Put(s, b, canonical).store)
    ensures Chain(Put(s, b, canonical).store.db) <==> Holds(s, DoPut(b, canonical), 1)
  {
    hide CacheAgrees, BinAgrees, RowsLinked, Paired, Put, Head;
    PutLinked(s, b, canonical);
    PutLinkedOk(s, b, canonical);
    HeadIsStored(s.db);
    ChainIsLinkedWithTipOnTop(s.db);
    ChainIsLinkedWithTipOnTop(Put(s, b, canonical).store.db);
  }

  lemma ExtendJudged(s: Store, b: Block, trains: bool, i: nat)
    requires LinkedOk(s) && Disciplined(s, DoExtend(b, trains)) && i < |DurablePoints(s, DoExtend(b, trains))|
    ensures LinkedOk(Extend(s, b, trains).store)
    ensures var point := DurablePoints(s, DoExtend(b, trains))[i];
            Linked(point) && (Chain(point) <==> Holds(s, DoExtend(b, trains), i))
  {
    hide CacheAgrees, BinAgrees, RowsLinked, Paired, Head, LinksUp, Remember, ExtendWrite;
    ExtendLinked(s, b, trains);
    HeadIsStored(s.db);
    ChainIsLinkedWithTipOnTop(s.db);
    ChainIsLinkedWithTipOnTop(Extend(s, b, trains).store.db);
    if b.hash !in s.db.blocks && !s.readOnly {
      ExtendLinked(s, b, false);
      assert b.hash !in s.db.headers;
      ChainIsLinkedWithTipOnTop(Put(s, b, true).store.db);
    }
  }

  lemma SetCanonicalJudged(s: Store, hash: Hash)
    requires LinkedOk(s) && Disciplined(s, DoSetCanonical(hash))
    ensures LinkedOk(SetCanonical(s, hash).store)
    ensures Chain(SetCanonical(s, hash).store.db) <==> Holds(s, DoSetCanonical(hash), 1)
  {
    hide CacheAgrees, BinAgrees, RowsLinked, Paired, SetCanonical, LinksUp;
    SetCanonicalLinked(s, hash);
    ChainIsLinkedWithTipOnTop(s.db);
    ChainIsLinkedWithTipOnTop(SetCanonical(s, hash).store.db);
  }

  lemma BatchJudged(s: Store, hashes: seq<Hash>)
    requires LinkedOk(s) && Disciplined(s, DoSetCanonicalBatch(hashes))
    ensures LinkedOk(SetCanonicalBatch(s, hashes).store)
    ensures Chain(SetCanonicalBatch(s, hashes).store.db) <==> Holds(s, DoSetCanonicalBatch(hashes), 1)
  {
    hide CacheAgrees, BinAgrees, RowsLinked, Paired, SetCanonicalBatch;
    BatchLinked(s, hashes);
    ChainIsLinkedWithTipOnTop(s.db);
    ChainIsLinkedWithTipOnTop(SetCanonicalBatch(s, hashes).store.db);
  }

  lemma RollbackJudged(s: Store, target: Height, i: nat)
    requires LinkedOk(s) && Disciplined(s, DoRollback(target)) && i < |DurablePoints(s, DoRollback(target))|
    ensures LinkedOk(Rollback(s, target).store)
    ensures var point := DurablePoints(s, DoRollback(target))[i];
            Linked(point) && (Chain(point) <==> Holds(s, DoRollback(target), i))
  {
    hide CacheAgrees, BinAgrees, RowsLinked, Paired, Rollback, RowsCut;
    RollbackLinked(s, target);
    ChainIsLinkedWithTipOnTop(s.db);
    ChainIsLinkedWithTipOnTop(Rollback(s, target).store.db);
    if RollsBack(s, target) {
      RowsUpToTop(s.db, target);
      ChainIsLinkedWithTipOnTop(RowsCut(s, target, s.tip.value.height).db);
    }
  }

  lemma ReorgJudged(s: Store, ancestor: Height, hashes: seq<Hash>)
    requires LinkedOk(s) && Disciplined(s, DoReorg(ancestor, hashes))
    ensures LinkedOk(Reorg(s, ancestor, hashes).store)
    ensures Chain(Reorg(s, ancestor, hashes).store.db) <==> Holds(s, DoReorg(ancestor, hashes), 1)
  {
    hide CacheAgrees, BinAgrees, RowsLinked, Paired, Reorg, LinkedFork;
    ReorgLinked(s, ancestor, hashes);
    ChainIsLinkedWithTipOnTop(s.db);
    ChainIsLinkedWithTipOnTop(Reorg(s, ancestor, hashes).store.db);
  }

  lemma SetTipJudged(s: Store, tip: ChainTip)
    requires LinkedOk(s)
    ensures LinkedOk(SetTip(s, tip).store)
    ensures Chain(SetTip(s, tip).store.db) <==> Holds(s, DoSetTip(tip), 1)
  {
    hide CacheAgrees, BinAgrees, RowsLinked, Paired, Head;
    TipIsFree(s.db, tip);
    ChainIsLinkedWithTipOnTop(s.db);
    ChainIsLinkedWithTipOnTop(SetTip(s, tip).store.db);
  }

  lemma {:induction false} StagedRowsAreNew(db: Db, staged: seq<Job>)
    requires forall i | 0 <= i < |staged| :: staged[i].block.hash !in db.blocks
    ensures forall i | 0 <= i < |JobRows(staged)| :: JobRows(staged)[i].1 !in db.blocks
  {
    if staged != [] {
      StagedRowsAreNew(db, staged[..|staged| - 1]);
    }
  }

  lemma FlushJudged(s: Store, jobs: seq<Job>)
    requires LinkedOk(s) && Disciplined(s, DoFlush(jobs))
    ensures LinkedOk(Flush(s, jobs).0)
    ensures Chain(Flush(s, jobs).0.db) <==> Holds(s, DoFlush(jobs), 1)
  {
    hide CacheAgrees, BinAgrees, RowsLinked, Paired, Flush, JobsLink, Staged, JobRows, Head;
    FlushLinked(s, jobs);
    HeadIsStored(s.db);
    StagedAreNew(s.db, jobs);
    StagedRowsAreNew(s.db, Staged(s.db, jobs));
    ChainIsLinkedWithTipOnTop(s.db);
    ChainIsLinkedWithTipOnTop(Flush(s, jobs).0.db);
  }

  /** Actions that touch neither the rows nor the tip of a store that has a tip. */
  predicate Harmless(a: Action) {
    a.DoLookup? || a.DoPreview? || a.DoFindAncestor? || a.DoGenesis? || a.DoAttest? || a.DoDisableBin?
  }

  lemma AttestedLinked(db: Db, attested: map<Hash, seq<Byte>>)
    requires Linked(db)
    ensures Linked(db.(attested := attested)) && Head(db.(attested := attested)) == Head(db)
  {
    assert Top(db.(attested := attested)) == Top(db);
  }

  lemma HarmlessLinked(s: Store, a: Action)
    requires LinkedOk(s) && Harmless(a)
    ensures var r := Perform(s, a);
            LinkedOk(r) && r.db.tip == s.db.tip && Head(r.db) == Head(s.db)
  {
    hide CacheAgrees, BinAgrees, RowsLinked;
    match a
    case DoAttest(hash, bytes) => AttestedLinked(s.db, s.db.attested[hash := bytes]);
    case DoDisableBin => DisabledCoherent(s);
    case DoGenesis(_) =>
    case _ => ReadCoherent(s, a);
  }

  /**
   From linked rows every durable point of a disciplined action has linked rows. Starting in a chain the point is a
   chain exactly when it does not fall between an index change and the tip change that completes it; starting off the
   chain it is one exactly when the action has put the tip back on the top row by then.
   */
  lemma ChainIsLostAndRegainedExactly(s: Store, a: Action, i: nat)
    requires LinkedOk(s) && Disciplined(s, a) && i < |DurablePoints(s, a)|
    ensures Linked(DurablePoints(s, a)[i])
    ensures Chain(DurablePoints(s, a)[i]) <==> if Chain(s.db) then !Splits(s, a, i) else Mends(s, a, i)
    ensures LinkedOk(Perform(s, a))
  {
    hide Coherent, Linked, Chain, Disciplined, Splits, Mends, Put, Genesis, SetCanonical, SetCanonicalBatch, Extend, Rollback, Reorg, Prune, Flush;
    assert !Splits(s, a, 0) && !Mends(s, a, 0) by { NothingYet(s, a); }
    if Harmless(a) {
      HarmlessLinked(s, a);
      Neither(s, a, 1);
      SameRowsJudged(s, a, Perform(s, a).db, 1);
    } else {
      match a
      case DoPut(b, canonical) => PutJudged(s, b, canonical);
      case DoSetCanonical(hash) => SetCanonicalJudged(s, hash);
      case DoSetCanonicalBatch(hashes) => BatchJudged(s, hashes);
      case DoExtend(b, trains) => ExtendJudged(s, b, trains, i);
      case DoRollback(target) => RollbackJudged(s, target, i);
      case DoReorg(ancestor, hashes) => ReorgJudged(s, ancestor, hashes);
      case DoSetTip(tip) => SetTipJudged(s, tip);
      case DoFlush(jobs) => FlushJudged(s, jobs);
      case DoPrune(height) =>
        PruneLinked(s, height);
        Neither(s, a, 1);
        SameRowsJudged(s, a, Perform(s, a).db, 1);
    }
  }

  lemma NothingYet(s: Store, a: Action)
    requires Linked(s.db)
    ensures !Splits(s, a, 0) && !Mends(s, a, 0)
  {
  }

  lemma Neither(s: Store, a: Action, i: nat)
    requires Linked(s.db) && (Harmless(a) || a.DoPrune?)
    ensures !Splits(s, a, i) && !Mends(s, a, i)
  {
  }

  // ---------------------------------------------------------------- whole runs

  /** Every action is disciplined in the state it meets; crashes fall anywhere and reopens are free. */
  ghost predicate DisciplinedRun(s: Store, ops: seq<Op>) {
    ops == [] ||
    (DisciplinedRun(s, ops[..|ops| - 1]) &&
     var before := Run(s, ops[..|ops| - 1]);
     match ops[|ops| - 1]
     case Do(a) => Linked(before.db) ==> Disciplined(before, a)
     case Crash(a, _, _, _, _) => Linked(before.db) ==> Disciplined(before, a)
     case Reopen(_, _, _) => true)
  }

  /** The durable point an operation leaves. */
  ghost function Reached(s: Store, a: Action, op: Op): (r: nat) {
    var n := |DurablePoints(s, a)|;
    if op.Crash? then op.point % n else n - 1
  }

  /** The history of a run keeps the chain: what split it last has been mended since. */
  ghost predicate Whole(s: Store, ops: seq<Op>) {
    ops == [] ||
    (var front, last := ops[..|ops| - 1], ops[|ops| - 1];
     var before := Run(s, front);
     if last.Reopen? then Whole(s, front)
     else
       var i := Reached(before, last.action, last);
       if Whole(s, front) then !Splits(before, last.action, i)
       else Linked(before.db) && Mends(before, last.action, i))
  }

  lemma StepLinked(s: Store, op: Op)
    requires LinkedOk(s) && (op.Reopen? || Disciplined(s, op.action))
    ensures LinkedOk(Step(s, op))
    ensures op.Reopen? ==> Step(s, op).db == s.db
    ensures !op.Reopen? ==>
              var i := Reached(s, op.action, op);
              Chain(Step(s, op).db) <==> if Chain(s.db) then !Splits(s, op.action, i) else Mends(s, op.action, i)
  {
    hide Coherent, Linked, Chain, Perform, Disciplined, Splits, Mends, DurablePoints;
    match op
    case Do(a) => ChainIsLostAndRegainedExactly(s, a, |DurablePoints(s, a)| - 1);
    case Crash(a, point, onDisk, writable, capacity) =>
      var i := point % |DurablePoints(s, a)|;
      ChainIsLostAndRegainedExactly(s, a, i);
      OpenCoherent(DurablePoints(s, a)[i], onDisk, writable, capacity);
    case Reopen(onDisk, writable, capacity) => OpenCoherent(s.db, onDisk, writable, capacity);
  }

  lemma {:induction false} RunLinked(s: Store, ops: seq<Op>)
    requires LinkedOk(s) && Chain(s.db) && DisciplinedRun(s, ops)
    ensures LinkedOk(Run(s, ops))
    ensures Chain(Run(s, ops).db) <==> Whole(s, ops)
  {
    hide Coherent, Linked, Chain, Step, Disciplined, Splits, Mends, Reached;
    if ops != [] {
      RunLinked(s, ops[..|ops| - 1]);
      StepLinked(Run(s, ops[..|ops| - 1]), ops[|ops| - 1]);
    }
  }

  ghost function Started(g: Block, onDisk: Option<seq<Byte>>, capacity: nat): (r: Store) {
    Genesis(Open(EMPTY_DB, onDisk, true, capacity), g).store
  }

  lemma StartedChain(g: Block, onDisk: Option<seq<Byte>>, capacity: nat)
    requires g.Height() == 0
    ensures LinkedOk(Started(g, onDisk, capacity)) && Chain(Started(g, onDisk, capacity).db)
  {
    hide CacheAgrees, BinAgrees, OpenSynced;
    var s := Open(EMPTY_DB, onDisk, true, capacity);
    OpenCoherent(EMPTY_DB, onDisk, true, capacity);
    GenesisCoherent(s, g);
    ChainIsLinkedWithTipOnTop(Started(g, onDisk, capacity).db);
  }

  /**
   From genesis on, over every disciplined run with any cache capacity and a crash at every durable point, the
   canonical rows are exactly floor..=top, each names a stored block of its height whose parent is the row below,
   lookups answer exactly those rows, and the tip in memory is the one on disk.
   */
  lemma DisciplinedRunsKeepTheRowsLinked(g: Block, onDisk: Option<seq<Byte>>, capacity: nat, ops: seq<Op>, h: Height)
    requires g.Height() == 0 && DisciplinedRun(Started(g, onDisk, capacity), ops)
    ensures var s := Run(Started(g, onDisk, capacity), ops);
            && Linked(s.db)
            && s.tip == s.db.tip && s.floor == FloorOf(s.db)
            && Resolve(s, h) == if s.floor <= h <= Top(s.db) then Some(s.db.canonical[h]) else None
  {
    hide CacheAgrees, BinAgrees, DisciplinedRun, Run, Started, Whole;
    StartedChain(g, onDisk, capacity);
    RunLinked(Started(g, onDisk, capacity), ops);
    LookupIsVisible(Run(Started(g, onDisk, capacity), ops), h);
  }

  /**
   And the tip is on the top row, so that the rows are a chain from floor to tip, exactly when every point that split
   the two has been mended since: by the same rollback again, by `set_tip` on the top row, by an extension, by a reorg.
   */
  lemma DisciplinedRunsKeepTheChain(g: Block, onDisk: Option<seq<Byte>>, capacity: nat, ops: seq<Op>, h: Height)
    requires g.Height() == 0 && DisciplinedRun(Started(g, onDisk, capacity), ops)
    ensures var s := Run(Started(g, onDisk, capacity), ops);
            && (Chain(s.db) <==> Whole(Started(g, onDisk, capacity), ops))
            && (Chain(s.db) ==>
                  && s.tip.Some?
                  && (Resolve(s, h).Some? <==> s.floor <= h <= s.tip.value.height)
                  && (Resolve(s, h).Some? ==> Resolve(s, h) == Row(s.db.canonical, h)))
  {
    hide Coherent, Linked, Chain, DisciplinedRun, Run, Started, Whole, Resolve;
    StartedChain(g, onDisk, capacity);
    RunLinked(Started(g, onDisk, capacity), ops);
    var s := Run(Started(g, onDisk, capacity), ops);
    if Chain(s.db) { ChainLookup(s, h); }
  }

  lemma ChainLookup(s: Store, h: Height)
    requires ChainOk(s)
    ensures s.tip.Some?
    ensures Resolve(s, h).Some? <==> s.floor <= h <= s.tip.value.height
    ensures Resolve(s, h).Some? ==> Resolve(s, h) == Row(s.db.canonical, h)
  {
    hide CacheAgrees, BinAgrees, Paired, Resolve;
    LookupIsVisible(s, h);
  }

  // ---------------------------------------------------------------- why a rollback must not pass under a row

  /**
   A legal rollback in linked rows leaves linked rows exactly when no row lies above the tip (or it changes nothing):
   otherwise the rows between target and tip are gone and those above stay. So an `extend_chain` that lost its tip
   write has to be completed or replaced before anything is rolled back.
   */
  lemma RollbackKeepsRowsLinkedExactlyWithNoRowAboveTip(s: Store, target: Height)
    requires LinkedOk(s) && RollbackError(s, target).None?
    ensures Linked(Rollback(s, target).store.db) <==> Top(s.db) <= s.tip.value.height || s.tip.value.height == target
  {
    hide CacheAgrees, BinAgrees, Paired, Rollback;
    var top := s.tip.value.height;
    if Top(s.db) <= top || top == target {
      RollbackLinked(s, target);
    } else {
      RollbackDb(s, target);
      var after := Rollback(s, target).store.db;
      assert Top(s.db) in after.canonical && top !in after.canonical;
      assert target in after.canonical;
    }
  }
}
