/** How rollback, promotion and reorg relate to one another (src/store.rs). */
module ReorgLaws {
  import opened ChainTypes
  import opened CanonicalBin
  import opened StoreModel
  import opened Coherence
  import opened ChainShape
  import opened Recovery

  // ---------------------------------------------------------------- a reorg is a rollback and a promotion

  /** `set_canonical` on each hash in turn. */
  ghost function Promote(s: Store, hashes: seq<Hash>): (r: Store) {
    if hashes == [] then s else SetCanonical(Promote(s, hashes[..|hashes| - 1]), hashes[|hashes| - 1]).store
  }

  lemma PromoteOne(s: Store, before: Store, hashes: seq<Hash>)
    requires hashes != [] && forall i | 0 <= i < |hashes| :: hashes[i] in s.db.headers
    requires !before.readOnly
    requires before.db == s.db.(canonical := s.db.canonical + RowMap(RowsFor(s.db, hashes[..|hashes| - 1])))
    ensures SetCanonical(before, hashes[|hashes| - 1]).store.db ==
            s.db.(canonical := s.db.canonical + RowMap(RowsFor(s.db, hashes)))
  {
    hide ExtendWrite, Remember;
    var front, rows := hashes[..|hashes| - 1], RowsFor(s.db, hashes);
    assert rows[..|hashes| - 1] == RowsFor(s.db, front);
    assert s.db.canonical + RowMap(rows) ==
           (s.db.canonical + RowMap(RowsFor(s.db, front)))[rows[|hashes| - 1].0 := rows[|hashes| - 1].1];
  }

  lemma {:induction false} PromoteMeaning(s: Store, hashes: seq<Hash>)
    requires Coherent(s) && !s.readOnly && s.capacity > 0
    requires forall i | 0 <= i < |hashes| :: hashes[i] in s.db.headers
    ensures var r := Promote(s, hashes);
            && r.db == s.db.(canonical := s.db.canonical + RowMap(RowsFor(s.db, hashes)))
            && Coherent(r) && !r.readOnly && r.capacity == s.capacity
  {
    hide Coherent, RowMap, ExtendWrite, Remember;
    if hashes == [] {
      NothingPromoted(s.db);
    } else {
      var front := hashes[..|hashes| - 1];
      PromoteMeaning(s, front);
      SetCanonicalCoherent(Promote(s, front), hashes[|hashes| - 1]);
      PromoteOne(s, Promote(s, front), hashes);
    }
  }

  lemma NothingPromoted(db: Db)
    ensures db.canonical + RowMap(RowsFor(db, [])) == db.canonical
  {
  }

  /** Without a height cache the promotions write rows and sidecar slots and nothing else. */
  lemma {:induction false} PromoteUncached(s: Store, hashes: seq<Hash>)
    requires !s.readOnly && s.capacity == 0
    requires forall i | 0 <= i < |hashes| :: hashes[i] in s.db.headers
    ensures Promote(s, hashes) == WriteRows(s, RowsFor(s.db, hashes))
  {
    hide RowMap, ExtendWrite;
    if hashes == [] {
      NothingPromoted(s.db);
    } else {
      var front, rows := hashes[..|hashes| - 1], RowsFor(s.db, hashes);
      PromoteUncached(s, front);
      assert rows[..|hashes| - 1] == RowsFor(s.db, front);
      PromoteOne(s, Promote(s, front), hashes);
    }
  }

  /** Rollback to the ancestor, `set_canonical` on each new hash, `set_tip` on the last. */
  ghost function Stepwise(s: Store, ancestor: Height, hashes: seq<Hash>): (r: Store)
    requires ReorgError(s, hashes).None?
  {
    SetTip(Promote(Rollback(s, ancestor).store, hashes), NewTip(s.db, hashes)).store
  }

  /** The database a rollback leaves to the promotions. */
  lemma RolledBackRows(s: Store, ancestor: Height)
    requires Coherent(s) && RollbackError(s, ancestor).None?
    ensures var back := Rollback(s, ancestor).store;
            && Coherent(back) && !back.readOnly && back.capacity == s.capacity && back.floor == s.floor
            && back.db == s.db.(canonical := s.db.canonical - Range(ancestor + 1, s.tip.value.height), tip := back.db.tip)
  {
    hide CacheAgrees, BinAgrees, ReadBin, ExtendWrite, Remember, Resolve, CollectDown;
    RollbackCoherent(s, ancestor);
    if ancestor < s.tip.value.height {
      RollbackDb(s, ancestor);
    } else {
      assert s.db.canonical - Range(ancestor + 1, ancestor) == s.db.canonical;
    }
  }

  lemma PromoteDb(s: Store, hashes: seq<Hash>)
    requires Coherent(s) && !s.readOnly && forall i | 0 <= i < |hashes| :: hashes[i] in s.db.headers
    ensures var r := Promote(s, hashes);
            && r.db == s.db.(canonical := s.db.canonical + RowMap(RowsFor(s.db, hashes))) && !r.readOnly
            && (LookupsRight(r) <==> s.capacity > 0 || StaleFree(s, RowsFor(s.db, hashes)))
  {
    hide Coherent, LookupsRight, StaleFree, Promote, RowMap, WriteAll;
    if s.capacity > 0 {
      PromoteMeaning(s, hashes);
      CoherentIsRight(Promote(s, hashes));
    } else {
      PromoteUncached(s, hashes);
      SkippedRefreshIsSafeExactlyWhenStaleFree(s, RowsFor(s.db, hashes));
    }
  }

  lemma TipIsNotLookedUp(s: Store, tip: ChainTip)
    requires !s.readOnly
    ensures LookupsRight(SetTip(s, tip).store) <==> LookupsRight(s)
  {
    assert forall h: Height :: Resolve(SetTip(s, tip).store, h) == Resolve(s, h) && Visible(SetTip(s, tip).store.db, h) == Visible(s.db, h);
  }

  ghost predicate SameLookups(s: Store, t: Store) { forall h: Height :: Resolve(s, h) == Resolve(t, h) }

  lemma SameDbSameLookups(s: Store, t: Store)
    requires s.db == t.db && LookupsRight(t)
    ensures SameLookups(s, t) <==> LookupsRight(s)
  {
    hide Resolve, Visible;
    if SameLookups(s, t) {
      forall h: Height ensures Resolve(s, h) == Visible(s.db, h) { assert Resolve(s, h) == Resolve(t, h); }
    }
  }

  /**
   With the ancestor between the floor and the tip, `apply_reorg` leaves the database and the tip of: rollback to the
   ancestor, `set_canonical` on each new hash, `set_tip`. The new hashes need not form a chain. The lookups are the
   same exactly when the height cache has a capacity, or holds no other hash at a promoted height after the rollback.
   */
  lemma ReorgIsRollbackThenPromotion(s: Store, ancestor: Height, hashes: seq<Hash>)
    requires Coherent(s) && RollbackError(s, ancestor).None? && ReorgError(s, hashes).None?
    ensures var stepwise, reorged := Stepwise(s, ancestor, hashes), Reorg(s, ancestor, hashes).store;
            && stepwise.db == reorged.db
            && stepwise.tip == reorged.tip
            && (SameLookups(stepwise, reorged) <==>
                  s.capacity > 0 || StaleFree(Rollback(s, ancestor).store, RowsFor(s.db, hashes)))
  {
    hide Coherent, LookupsRight, SameLookups, StaleFree, Promote, Rollback, RowMap, CollectDown, WriteAll, TruncateTo;
    var back := Rollback(s, ancestor).store;
    RolledBackRows(s, ancestor);
    PromoteDb(back, hashes);
    assert RowsFor(back.db, hashes) == RowsFor(s.db, hashes);
    TipIsNotLookedUp(Promote(back, hashes), NewTip(s.db, hashes));
    ReorgCoherent(s, ancestor, hashes);
    CoherentIsRight(Reorg(s, ancestor, hashes).store);
    SameDbSameLookups(Stepwise(s, ancestor, hashes), Reorg(s, ancestor, hashes).store);
  }

  /** A linked fork in a chain never meets a cached height, so there the two agree at every capacity. */
  lemma LinkedForkMeetsNoCachedHeight(s: Store, ancestor: Height, hashes: seq<Hash>)
    requires ChainOk(s) && RollbackError(s, ancestor).None? && LinkedFork(s.db, ancestor, hashes)
    ensures StaleFree(Rollback(s, ancestor).store, RowsFor(s.db, hashes))
  {
    hide BinAgrees, Paired, RowMap, Rollback, LinkedFork;
    RolledBackRows(s, ancestor);
    ForkRows(s.db, ancestor, hashes);
  }

  // ---------------------------------------------------------------- a reorg is undone by its reverted list

  function Reversed(s: seq<Hash>): (r: seq<Hash>)
    ensures |r| == |s| && forall i | 0 <= i < |s| :: r[i] == s[|s| - 1 - i]
  {
    seq(|s|, i requires 0 <= i < |s| => s[|s| - 1 - i])
  }

  /** In a chain the descending listing has one entry per height. */
  lemma {:induction false} DescendingChain(db: Db, lo: nat, hi: int)
    requires Chain(db) && FloorOf(db) <= lo <= hi + 1 <= db.tip.value.height + 1
    ensures |Descending(db, lo, hi)| == hi - lo + 1
    ensures forall h: Height | lo <= h <= hi :: Row(db.canonical, h) == Some(Descending(db, lo, hi)[hi - h])
    decreases hi - lo
  {
    hide Paired;
    if hi >= lo {
      ChainRow(db, hi);
      DescendingChain(db, lo, hi - 1);
      assert Descending(db, lo, hi) == [db.canonical[hi]] + Descending(db, lo, hi - 1);
    }
  }

  lemma ChainRow(db: Db, h: Height)
    requires Chain(db) && FloorOf(db) <= h <= db.tip.value.height
    ensures h in db.canonical && db.canonical[h] in db.headers && db.headers[db.canonical[h]].height == h
  {
  }

  /** The old branch: the rows above the ancestor, lowest first. */
  ghost predicate OldBranch(db: Db, ancestor: Height, branch: seq<Hash>) {
    && db.tip.Some?
    && |branch| == db.tip.value.height - ancestor
    && forall h: Height | ancestor < h <= db.tip.value.height :: Row(db.canonical, h) == Some(branch[h - ancestor - 1])
  }

  lemma RevertedIsOldBranch(db: Db, ancestor: Height)
    requires Chain(db) && FloorOf(db) <= ancestor < db.tip.value.height
    ensures OldBranch(db, ancestor, Reversed(Descending(db, ancestor + 1, db.tip.value.height)))
  {
    hide Paired, RowsLinked;
    DescendingChain(db, ancestor + 1, db.tip.value.height);
  }

  /** What a successful reorg reports. */
  lemma ReorgReports(s: Store, ancestor: Height, hashes: seq<Hash>)
    requires Coherent(s) && ReorgError(s, hashes).None?
    ensures Reorg(s, ancestor, hashes).result ==
            Ok(ReorgResult(Descending(s.db, ancestor + 1, s.tip.value.height), hashes, NewTip(s.db, hashes)))
  {
    hide CacheAgrees, BinAgrees;
    CollectDownCoherent(s, ancestor + 1, s.tip.value.height);
  }

  lemma OldBranchLinked(db: Db, ancestor: Height, hashes: seq<Hash>, branch: seq<Hash>)
    requires Forkable(db, ancestor, hashes) && ancestor < db.tip.value.height && OldBranch(db, ancestor, branch)
    ensures LinkedFork(ReorgDb(db, ancestor, db.tip.value.height, hashes), ancestor, branch)
  {
    hide RowMap;
    var after := ReorgDb(db, ancestor, db.tip.value.height, hashes);
    ReorgRows(db, ancestor, hashes, ancestor);
    assert Row(after.canonical, ancestor) == Row(db.canonical, ancestor);
    ChainRow(db, ancestor);
    forall i | 0 <= i < |branch|
      ensures Row(db.canonical, ancestor + 1 + i) == Some(branch[i])
      ensures branch[i] in db.headers && db.headers[branch[i]].height == ancestor + 1 + i
    {
      var h: Height := ancestor + 1 + i;
      ChainRow(db, h);
      assert Row(db.canonical, h) == Some(branch[h - ancestor - 1]);
    }
    forall i, j | 0 <= i < j < |branch| && j == i + 1
      ensures db.headers[branch[j]].parent == branch[i]
    {
      assert Row(db.canonical, ancestor + 1 + i) == Some(branch[i]) && Row(db.canonical, ancestor + 1 + j) == Some(branch[j]);
      assert Next(ancestor + 1 + i, ancestor + 1 + j);
    }
    assert Row(db.canonical, ancestor + 1) == Some(branch[0]) && Next(ancestor, ancestor + 1);
  }

  lemma UndoDb(db: Db, ancestor: Height, hashes: seq<Hash>, branch: seq<Hash>)
    requires Forkable(db, ancestor, hashes) && ancestor < db.tip.value.height && OldBranch(db, ancestor, branch)
    ensures var after := ReorgDb(db, ancestor, db.tip.value.height, hashes);
            && Forkable(after, ancestor, branch)
            && ReorgDb(after, ancestor, after.tip.value.height, branch) == db
  {
    hide RowMap, RowsLinked;
    var top := db.tip.value.height;
    var after := ReorgDb(db, ancestor, top, hashes);
    ReorgDbChain(db, ancestor, hashes);
    OldBranchLinked(db, ancestor, hashes, branch);
    var undone := ReorgDb(after, ancestor, after.tip.value.height, branch);
    forall h: Height
      ensures Row(undone.canonical, h) == Row(db.canonical, h)
    {
      ReorgRows(db, ancestor, hashes, h);
      ReorgRows(after, ancestor, branch, h);
      if h < FloorOf(db) || h > top { NoChainRow(db, h); }
    }
    SameRows(undone.canonical, db.canonical);
    assert Row(db.canonical, top) == Some(branch[|branch| - 1]);
  }

  lemma NoChainRow(db: Db, h: Height)
    requires Chain(db) && (h < FloorOf(db) || h > db.tip.value.height)
    ensures h !in db.canonical
  {
  }

  lemma SameRows(a: Rows, b: Rows)
    requires forall h: Height :: Row(a, h) == Row(b, h)
    ensures a == b
  {
    assert forall h: Height :: h in a <==> Row(a, h).Some?;
    assert forall h: Height :: h in b <==> Row(b, h).Some?;
    assert forall h: Height | h in a :: Row(a, h) == Some(a[h]) && Row(b, h) == Some(b[h]);
  }

  /** Applying a linked fork and then the reverted list, turned around, restores database, tip and every lookup. */
  lemma ReorgIsUndoneByItsRevertedList(s: Store, ancestor: Height, hashes: seq<Hash>, h: Height)
    requires ChainOk(s) && s.floor <= ancestor < s.tip.value.height && !s.readOnly
    requires hashes != [] && LinkedFork(s.db, ancestor, hashes)
    ensures var first := Reorg(s, ancestor, hashes);
            first.result.Ok? &&
            var second := Reorg(first.store, ancestor, Reversed(first.result.value.reverted));
            && second.result.Ok?
            && second.result.value.reverted == Reversed(hashes)
            && second.store.db == s.db
            && second.store.tip == s.tip
            && Resolve(second.store, h) == Resolve(s, h)
  {
    hide CacheAgrees, BinAgrees, RowsLinked, RowMap, LinkedFork, CollectDown, Resolve;
    ForkIsStored(s.db, ancestor, hashes);
    ReorgReports(s, ancestor, hashes);
    var first := Reorg(s, ancestor, hashes).store;
    var branch := Reversed(Descending(s.db, ancestor + 1, s.tip.value.height));
    RevertedIsOldBranch(s.db, ancestor);
    UndoDb(s.db, ancestor, hashes, branch);
    ForkIsStored(first.db, ancestor, branch);
    ReorgCoherent(s, ancestor, hashes);
    ReorgReports(first, ancestor, branch);
    ForkIsReverted(s.db, ancestor, hashes);
    ReorgCoherent(first, ancestor, branch);
    LookupIsVisible(s, h);
    LookupIsVisible(Reorg(first, ancestor, branch).store, h);
  }

  /** After a reorg the fork is what the next rollback to the ancestor would revert. */
  lemma ForkIsReverted(db: Db, ancestor: Height, hashes: seq<Hash>)
    requires Forkable(db, ancestor, hashes)
    ensures var after := ReorgDb(db, ancestor, db.tip.value.height, hashes);
            Descending(after, ancestor + 1, after.tip.value.height) == Reversed(hashes)
  {
    hide RowMap, RowsLinked;
    var after := ReorgDb(db, ancestor, db.tip.value.height, hashes);
    var top := after.tip.value.height;
    ReorgDbChain(db, ancestor, hashes);
    assert top == ancestor + |hashes|;
    DescendingChain(after, ancestor + 1, top);
    var list := Descending(after, ancestor + 1, top);
    forall i | 0 <= i < |hashes|
      ensures list[i] == hashes[|hashes| - 1 - i]
    {
      var h: Height := top - i;
      ReorgRows(db, ancestor, hashes, h);
      assert Row(after.canonical, h) == Some(list[top - h]);
    }
  }

  // ---------------------------------------------------------------- rollbacks compose

  lemma {:induction false} DescendingSplit(db: Db, lo: nat, mid: nat, hi: int)
    requires lo <= mid + 1 && mid <= hi < SLOT_LIMIT
    ensures Descending(db, lo, hi) == Descending(db, mid + 1, hi) + Descending(db, lo, mid)
    decreases hi - lo
  {
    if hi > mid {
      DescendingSplit(db, lo, mid, hi - 1);
    }
  }

  lemma {:induction false} DescendingSameRows(a: Db, b: Db, lo: nat, hi: int)
    requires hi < SLOT_LIMIT && forall h: Height | lo <= h <= hi :: Visible(a, h) == Visible(b, h)
    ensures Descending(a, lo, hi) == Descending(b, lo, hi)
    decreases hi - lo
  {
    if hi >= lo {
      DescendingSameRows(a, b, lo, hi - 1);
    }
  }

  /** In a chain the reverted list has one stored block per height, strictly descending from the tip. */
  lemma DescendingHeights(db: Db, target: Height, i: nat)
    requires Chain(db) && FloorOf(db) <= target && i < db.tip.value.height - target
    ensures var list := Descending(db, target + 1, db.tip.value.height);
            && |list| == db.tip.value.height - target
            && list[i] in db.headers && db.headers[list[i]].height == db.tip.value.height - i
  {
    hide Paired, RowsLinked;
    var top := db.tip.value.height;
    DescendingChain(db, target + 1, top);
    var h: Height := top - i;
    ChainRow(db, h);
    assert Row(db.canonical, h) == Some(Descending(db, target + 1, top)[top - h]);
  }

  /** `blocks_to_revert` predicts `rollback_to_height` exactly, for every legal target in any coherent state. */
  lemma PreviewIsTheRollback(s: Store, target: Height)
    requires Coherent(s) && RollbackError(s, target).None?
    ensures BlocksToRevert(s, target).result == Rollback(s, target).result
            == Ok(Descending(s.db, target + 1, s.tip.value.height))
  {
    hide CacheAgrees, BinAgrees;
    CollectDownCoherent(s, target + 1, s.tip.value.height);
  }

  lemma RolledBackTwice(db: Db, upper: Height, lower: Height)
    requires Chain(db) && FloorOf(db) <= lower <= upper <= db.tip.value.height
    ensures var once := RolledBack(db, upper);
            && Chain(once)
            && RolledBack(once, lower) == RolledBack(db, lower)
            && Descending(db, lower + 1, db.tip.value.height) ==
               Descending(db, upper + 1, db.tip.value.height) + Descending(once, lower + 1, upper)
  {
    hide Paired;
    var once := RolledBack(db, upper);
    RolledBackChain(db, upper);
    DescendingSplit(db, lower + 1, upper, db.tip.value.height);
    DescendingSameRows(db, once, lower + 1, upper);
    assert RolledBack(once, lower).canonical == RolledBack(db, lower).canonical;
  }

  /** Rolling back in two stages reaches the state of the direct rollback, and the two reverted lists concatenate to its list. */
  lemma RollbacksCompose(s: Store, upper: Height, lower: Height, h: Height)
    requires ChainOk(s) && !s.readOnly && s.floor <= lower <= upper <= s.tip.value.height
    ensures var first := Rollback(s, upper);
            var second := Rollback(first.store, lower);
            var direct := Rollback(s, lower);
            && first.result.Ok? && second.result.Ok? && direct.result.Ok?
            && second.store.db == direct.store.db
            && second.store.tip == direct.store.tip
            && Resolve(second.store, h) == Resolve(direct.store, h)
            && first.result.value + second.result.value == direct.result.value
  {
    hide CacheAgrees, BinAgrees, RowsLinked, Paired, Rollback, Resolve;
    var first := Rollback(s, upper).store;
    RollbackState(s, upper);
    RollbackState(s, lower);
    RollbackState(first, lower);
    RolledBackTwice(s.db, upper, lower);
    LookupIsVisible(Rollback(first, lower).store, h);
    LookupIsVisible(Rollback(s, lower).store, h);
  }

  lemma RollbackState(s: Store, target: Height)
    requires ChainOk(s) && RollbackError(s, target).None?
    ensures var r := Rollback(s, target);
            && ChainOk(r.store)
            && r.store.db == RolledBack(s.db, target)
            && r.store.floor == s.floor && r.store.readOnly == s.readOnly
            && r.result == Ok(Descending(s.db, target + 1, s.tip.value.height))
  {
    hide CacheAgrees, BinAgrees, Paired;
    RollbackChain(s, target);
    if target < s.tip.value.height { RollbackMeaning(s, target); }
  }
}
