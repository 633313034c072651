/** The three lookup layers agree in every reachable state (src/canonical/index.rs, src/store.rs). */
module Coherence {
  import opened ChainTypes
  import opened DenseFile
  import opened CanonicalBin
  import opened StoreModel

  ghost predicate CacheAgrees(cache: Rows, rows: Rows, floor: Height) {
    forall h | h in cache && floor <= h :: h in rows && rows[h] == cache[h]
  }

  ghost predicate BinAgrees(bin: Bin, rows: Rows, floor: Height) {
    forall h: Height | floor <= h && ReadBin(bin, h).Some? :: h in rows && rows[h] == ReadBin(bin, h).value
  }

  /** Above the floor neither fast layer holds a hash that the canonical rows do not; memory mirrors the metadata. */
  ghost predicate Coherent(s: Store) {
    && CacheAgrees(s.cache, s.db.canonical, s.floor)
    && BinAgrees(s.bin, s.db.canonical, s.floor)
    && Mappable(s.bin)
    && (s.bin.Ro? ==> s.readOnly)
    && s.floor == FloorOf(s.db)
    && s.tip == s.db.tip
  }

  lemma LookupIsVisible(s: Store, h: Height)
    requires Coherent(s)
    ensures Resolve(s, h) == Visible(s.db, h)
  {
  }

  // ---------------------------------------------------------------- the height cache

  lemma {:induction false} ShrinkKeepsHighest(cache: Rows, capacity: nat)
    ensures var r := Shrink(cache, capacity);
            && |r| == (if |cache| < capacity then |cache| else capacity)
            && r.Keys <= cache.Keys
            && (forall h | h in r :: r[h] == cache[h])
            && (forall kept, gone | kept in r && gone in cache && gone !in r :: gone < kept)
    decreases |cache|
  {
    hide Without;
    if |cache| > capacity && cache != map[] {
      var lowest := Lowest(cache.Keys);
      var rest := Without(cache, lowest);
      ShrinkKeepsHighest(rest, capacity);
      var r := Shrink(rest, capacity);
      assert Shrink(cache, capacity) == r;
      forall kept, gone | kept in r && gone in cache && gone !in r ensures gone < kept {
        assert kept in rest && kept != lowest;
        if gone != lowest { assert gone in rest; }
      }
    }
  }

  /** There is room for a height: the cache is not full, or holds this or a lower one. */
  predicate Room(cache: Rows, capacity: nat, h: Height) {
    capacity > 0 && (|cache| < capacity || exists k | k in cache :: k <= h)
  }

  /** A cache within its capacity remembers the new entry exactly when there is room, and otherwise drops only the lowest. */
  lemma RememberKeepsTheNewEntry(cache: Rows, capacity: nat, h: Height, x: Hash)
    requires |cache| <= capacity
    ensures var r := Remember(cache, capacity, h, x);
            && |r| <= capacity
            && (Row(r, h) == Some(x) <==> Room(cache, capacity, h) || Row(cache, h) == Some(x))
            && (forall k, low | k in cache && k != h && low in cache && low < k :: Row(r, k) == Some(cache[k]))
            && (forall k | k in cache && h < k :: Row(r, k) == Some(cache[k]))
            && (|cache| < capacity ==> r == cache[h := x])
  {
    if capacity > 0 {
      var more, r := cache[h := x], Remember(cache, capacity, h, x);
      ShrinkKeepsHighest(more, capacity);
      assert more.Keys == cache.Keys + {h};
      if h in cache {
        assert more.Keys == cache.Keys;
        assert r.Keys == more.Keys by { SameSize(r.Keys, more.Keys); }
      } else if |cache| < capacity {
        assert r.Keys == more.Keys by { SameSize(r.Keys, more.Keys); }
      } else {
        OnlyOneGone(more.Keys, r.Keys);
      }
    }
  }

  lemma SameSize(a: set<Height>, b: set<Height>)
    requires a <= b && |a| == |b|
    ensures a == b
  {
    assert |b - a| == 0;
  }

  lemma OnlyOneGone(all: set<Height>, kept: set<Height>)
    requires kept <= all && |all| == |kept| + 1
    ensures forall a, b | a in all && b in all && a !in kept && b !in kept :: a == b
    ensures exists a :: a in all && a !in kept
  {
    var gone := all - kept;
    assert |gone| == 1;
    var x :| x in gone;
    assert |gone - {x}| == 0;
    assert gone == {x};
    assert forall a | a in all && a !in kept :: a in gone;
  }

  lemma RememberAgrees(cache: Rows, capacity: nat, h: Height, x: Hash, rows: Rows, floor: Height)
    requires CacheAgrees(cache[h := x], rows, floor)
    requires capacity > 0 || CacheAgrees(cache, rows, floor)
    ensures CacheAgrees(Remember(cache, capacity, h, x), rows, floor)
  {
    ShrinkKeepsHighest(cache[h := x], capacity);
  }

  lemma LookedCoherent(s: Store, h: Height)
    requires Coherent(s)
    ensures Coherent(Looked(s, h)) && Looked(s, h) == s.(cache := Looked(s, h).cache)
  {
    if !(h < s.floor || h in s.cache || Resolve(s, h).None?) {
      RememberAgrees(s.cache, s.capacity, h, Resolve(s, h).value, s.db.canonical, s.floor);
    }
  }

  /** The visible hashes at hi, hi-1, ..., lo. */
  function Descending(db: Db, lo: nat, hi: int): (r: seq<Hash>)
    requires hi < SLOT_LIMIT
    decreases hi - lo
  {
    if hi < lo then [] else Answer(Visible(db, hi)) + Descending(db, lo, hi - 1)
  }

  lemma {:induction false} CollectDownCoherent(s: Store, lo: nat, hi: int)
    requires Coherent(s) && hi < SLOT_LIMIT
    ensures Coherent(CollectDown(s, lo, hi).0)
    ensures CollectDown(s, lo, hi).1 == Descending(s.db, lo, hi)
    decreases hi - lo
  {
    hide Coherent, Resolve, Looked, Visible;
    if hi >= lo {
      LookedCoherent(s, hi);
      LookupIsVisible(s, hi);
      CollectDownCoherent(Looked(s, hi), lo, hi - 1);
    }
  }

  lemma {:induction false} CollectUpCoherent(s: Store, lo: nat, hi: nat)
    requires Coherent(s) && hi <= SLOT_LIMIT
    ensures Coherent(CollectUp(s, lo, hi).0)
    ensures forall h: Height :: Row(CollectUp(s, lo, hi).1, h) == if lo <= h < hi then Visible(s.db, h) else None
    decreases hi - lo
  {
    hide Coherent, Resolve, Looked, Visible;
    if hi > lo {
      CollectUpCoherent(s, lo, hi - 1);
      var before := CollectUp(s, lo, hi - 1);
      LookedCoherent(before.0, hi - 1);
      LookupIsVisible(before.0, hi - 1);
      assert CollectUp(s, lo, hi).0 == Looked(before.0, hi - 1);
      forall h: Height
        ensures Row(CollectUp(s, lo, hi).1, h) == if lo <= h < hi then Visible(s.db, h) else None
      {
        assert Row(before.1, h) == if lo <= h < hi - 1 then Visible(s.db, h) else None;
      }
    }
  }

  lemma {:induction false} AncestorCoherent(s: Store, hash: Hash, depth: nat)
    requires Coherent(s)
    ensures Coherent(FindAncestor(s, hash, depth).0)
    decreases depth
  {
    hide Coherent, Resolve;
    if depth > 0 && hash in s.db.headers {
      LookedCoherent(s, s.db.headers[hash].height);
      AncestorCoherent(Looked(s, s.db.headers[hash].height), s.db.headers[hash].parent, depth - 1);
    }
  }

  /** The operations that know a row put it in the cache if there is room. */
  lemma WhatTheCacheHolds(s: Store, h: Height, b: Block, canonical: bool, x: Hash)
    requires |s.cache| <= s.capacity
    ensures h >= s.floor && Resolve(s, h).Some? && Room(s.cache, s.capacity, h) ==>
              Row(Looked(s, h).cache, h) == Resolve(s, h)
    ensures !s.readOnly && canonical && b.hash !in s.db.blocks && Room(s.cache, s.capacity, b.Height()) ==>
              Row(Put(s, b, canonical).store.cache, b.Height()) == Some(b.hash)
    ensures !s.readOnly && x in s.db.headers && Room(s.cache, s.capacity, s.db.headers[x].height) ==>
              Row(SetCanonical(s, x).store.cache, s.db.headers[x].height) == Some(x)
  {
    hide Remember, ExtendWrite, Room, ReadBin;
    if Resolve(s, h).Some? { RememberKeepsTheNewEntry(s.cache, s.capacity, h, Resolve(s, h).value); }
    RememberKeepsTheNewEntry(s.cache, s.capacity, b.Height(), b.hash);
    if x in s.db.headers { RememberKeepsTheNewEntry(s.cache, s.capacity, s.db.headers[x].height, x); }
  }

  /** A lookup with room drops nothing. */
  lemma LookedKeeps(s: Store, h: Height)
    requires |s.cache| < s.capacity
    ensures Looked(s, h) == s.(cache := Looked(s, h).cache) && |Looked(s, h).cache| <= |s.cache| + 1
    ensures forall k | k in s.cache :: k in Looked(s, h).cache && Looked(s, h).cache[k] == s.cache[k]
  {
    hide Resolve, Remember;
    if h >= s.floor && h !in s.cache && Resolve(s, h).Some? {
      var more := s.cache[h := Resolve(s, h).value];
      RememberKeepsTheNewEntry(s.cache, s.capacity, h, Resolve(s, h).value);
      assert more.Keys == s.cache.Keys + {h};
      assert |more| == |more.Keys| && |s.cache| == |s.cache.Keys|;
    }
  }

  lemma CollectDownStart(s: Store, lo: nat, hi: int)
    requires hi < SLOT_LIMIT
    ensures CollectDown(s, lo, hi).0 == if hi < lo then s else CollectDown(Looked(s, hi), lo, hi - 1).0
  {
    hide Looked, Resolve;
  }

  /** The second cache has what the first has, and not many more. */
  ghost predicate KeepsAll(before: Rows, after: Rows, room: nat) {
    |after| <= |before| + room && forall k | k in before :: k in after && after[k] == before[k]
  }

  lemma KeepsAllOn(a: Rows, b: Rows, c: Rows, n: nat)
    requires KeepsAll(a, b, 1) && KeepsAll(b, c, n)
    ensures KeepsAll(a, c, n + 1)
  {
  }

  lemma {:induction false} CollectDownKeeps(s: Store, lo: nat, hi: int, room: nat)
    requires hi < SLOT_LIMIT && hi - lo < room && |s.cache| + room <= s.capacity
    ensures KeepsAll(s.cache, CollectDown(s, lo, hi).0.cache, room)
    decreases hi - lo
  {
    hide Looked, CollectDown;
    CollectDownStart(s, lo, hi);
    if lo <= hi {
      LookedKeeps(s, hi);
      var next := Looked(s, hi);
      assert KeepsAll(s.cache, next.cache, 1);
      if lo < hi {
        CollectDownKeeps(next, lo, hi - 1, room - 1);
        KeepsAllOn(s.cache, next.cache, CollectDown(next, lo, hi - 1).0.cache, room - 1);
      } else {
        CollectDownStart(next, lo, hi - 1);
      }
    }
  }

  /** A lookup drops nothing above its height. */
  lemma LookedKeepsAbove(s: Store, h: Height, k: Height)
    requires |s.cache| <= s.capacity
    ensures |Looked(s, h).cache| <= s.capacity
    ensures k in s.cache && h < k ==> Row(Looked(s, h).cache, k) == Some(s.cache[k])
  {
    hide Resolve, Remember;
    if h >= s.floor && h !in s.cache && Resolve(s, h).Some? {
      RememberKeepsTheNewEntry(s.cache, s.capacity, h, Resolve(s, h).value);
    }
  }

  lemma {:induction false} CollectUpKeeps(s: Store, lo: nat, hi: nat, k: Height)
    requires hi <= SLOT_LIMIT && |s.cache| <= s.capacity && k in s.cache && hi <= k
    ensures var r := CollectUp(s, lo, hi).0;
            |r.cache| <= s.capacity && Row(r.cache, k) == Some(s.cache[k])
    decreases hi - lo
  {
    hide Looked, Resolve;
    if lo < hi {
      CollectUpKeeps(s, lo, hi - 1, k);
      LookedKeepsAbove(CollectUp(s, lo, hi - 1).0, hi - 1, k);
    }
  }

  /** Nothing else is dropped: a prune keeps every entry from its bound up. */
  lemma PruneKeepsTheRest(s: Store, bound: Height, k: Height)
    requires |s.cache| <= s.capacity && k in s.cache && bound <= k
    ensures Row(Prune(s, bound).store.cache, k) == Some(s.cache[k])
  {
    hide Resolve, CollectUp, ForksBelow, PruneDb;
    CollectUpKeeps(s, s.floor, bound, k);
  }

  /** And a rollback that has room for its own lookups keeps every entry outside the heights it deletes. */
  lemma RollbackKeepsTheRest(s: Store, target: Height, k: Height)
    requires RollbackError(s, target).None? && k in s.cache && !(target < k <= s.tip.value.height)
    requires |s.cache| + (s.tip.value.height - target) < s.capacity
    ensures Row(Rollback(s, target).store.cache, k) == Some(s.cache[k])
  {
    hide Resolve, CollectDown, Looked, Range, TruncateTo;
    if target < s.tip.value.height {
      var top := s.tip.value.height;
      CollectDownKeeps(s, target + 1, top, top - target);
      LookedKeeps(RowsCut(CollectDown(s, target + 1, top).0, target, top), target);
    }
  }

  /** Those that delete rows take their heights out; a reorg puts the whole fork in, whatever the capacity. */
  lemma WhatTheCacheDrops(s: Store, target: Height, bound: Height, ancestor: Height, hashes: seq<Hash>, k: Height)
    ensures var r := Rollback(s, target).store;
            RollbackError(s, target).None? && target < k <= s.tip.value.height ==> k !in r.cache
    ensures !s.readOnly && bound > s.floor && k < bound ==> k !in Prune(s, bound).store.cache
    ensures ReorgError(s, hashes).None? && (k in RowMap(RowsFor(s.db, hashes)) || ancestor < k <= s.tip.value.height) ==>
              Row(Reorg(s, ancestor, hashes).store.cache, k) == Row(RowMap(RowsFor(s.db, hashes)), k)
  {
    hide Resolve, CollectDown, CollectUp, ForksBelow, WriteAll, TruncateTo, FirstMissing, RowMap;
  }

  // ---------------------------------------------------------------- writes

  lemma {:induction false} WriteAllReads(bin: Bin, rows: seq<(Height, Hash)>)
    requires Mappable(bin)
    ensures Mappable(WriteAll(bin, rows))
    ensures !bin.Rw? ==> WriteAll(bin, rows) == bin
    ensures bin.Rw? ==> WriteAll(bin, rows).Rw?
    ensures bin.Rw? ==> forall k: Height ::
              ReadBin(WriteAll(bin, rows), k) == if k in RowMap(rows) then Nonzero(RowMap(rows)[k]) else ReadBin(bin, k)
  {
    if rows != [] {
      WriteAllReads(bin, rows[..|rows| - 1]);
      ExtendWriteReads(WriteAll(bin, rows[..|rows| - 1]), rows[|rows| - 1].0, rows[|rows| - 1].1);
    }
  }

  /** No height about to be rewritten is cached with another hash. */
  ghost predicate StaleFree(s: Store, rows: seq<(Height, Hash)>) {
    forall h | h in RowMap(rows) && h in s.cache && s.floor <= h :: s.cache[h] == RowMap(rows)[h]
  }

  ghost predicate LookupsRight(s: Store) { forall h: Height :: Resolve(s, h) == Visible(s.db, h) }

  /**
   The write paths that skip the height cache (genesis, batch promotion, pipeline flush): lookups stay right at every
   height exactly when no rewritten height is cached with another hash.
   */
  lemma SkippedRefreshIsSafeExactlyWhenStaleFree(s: Store, rows: seq<(Height, Hash)>)
    requires Coherent(s) && !s.readOnly
    ensures LookupsRight(WriteRows(s, rows)) <==> StaleFree(s, rows)
    ensures Coherent(WriteRows(s, rows)) <==> StaleFree(s, rows)
  {
    var after := WriteRows(s, rows);
    WriteAllReads(s.bin, rows);
    if StaleFree(s, rows) {
      assert Coherent(after);
      forall h: Height ensures Resolve(after, h) == Visible(after.db, h) { LookupIsVisible(after, h); }
    } else {
      var h :| h in RowMap(rows) && h in s.cache && s.floor <= h && s.cache[h] != RowMap(rows)[h];
      assert Resolve(after, h) == Some(s.cache[h]);
      assert Visible(after.db, h) == Some(RowMap(rows)[h]);
    }
  }

  lemma RefreshedWriteCoherent(s: Store, h: Height, x: Hash, db: Db)
    requires Coherent(s) && !s.readOnly
    requires s.capacity > 0 || CacheAgrees(s.cache, s.db.canonical[h := x], s.floor)
    requires db.canonical == s.db.canonical[h := x] && db.tip == s.db.tip && db.minHeight == s.db.minHeight
    ensures Coherent(s.(db := db, bin := ExtendWrite(s.bin, h, x), cache := Remember(s.cache, s.capacity, h, x)))
  {
    hide Remember;
    ExtendWriteReads(s.bin, h, x);
    assert s.bin.Rw? || s.bin.Disabled?;
    RememberAgrees(s.cache, s.capacity, h, x, db.canonical, s.floor);
  }

  lemma PutCoherent(s: Store, b: Block, canonical: bool)
    requires Coherent(s)
    requires s.capacity > 0 || !canonical || CacheAgrees(s.cache, s.db.canonical[b.Height() := b.hash], s.floor)
    ensures Coherent(Put(s, b, canonical).store)
  {
    if !s.readOnly && b.hash !in s.db.blocks && canonical {
      var db := Put(s, b, canonical).store.db;
      RefreshedWriteCoherent(s, b.Height(), b.hash, db);
    }
  }

  lemma ExtendCoherent(s: Store, b: Block, trains: bool)
    requires Coherent(s)
    requires s.capacity > 0 || CacheAgrees(s.cache, s.db.canonical[b.Height() := b.hash], s.floor)
    ensures Coherent(Extend(s, b, trains).store)
  {
    hide Remember, CacheAgrees, BinAgrees;
    PutCoherent(s, b, true);
  }

  lemma SetCanonicalCoherent(s: Store, hash: Hash)
    requires Coherent(s)
    requires s.capacity > 0 || (hash in s.db.headers ==>
               CacheAgrees(s.cache, s.db.canonical[s.db.headers[hash].height := hash], s.floor))
    ensures Coherent(SetCanonical(s, hash).store)
  {
    if !s.readOnly && hash in s.db.headers {
      var h := s.db.headers[hash].height;
      RefreshedWriteCoherent(s, h, hash, s.db.(canonical := s.db.canonical[h := hash]));
    }
  }

  /** After the index delete and the truncation the target height still resolves to its row. */
  lemma CutTargetResolves(s: Store, target: Height, top: Height)
    requires Coherent(s) && !s.readOnly && s.floor <= target
    ensures var cut := RowsCut(s, target, top);
            && Mappable(cut.bin) && !cut.bin.Ro?
            && BinAgrees(cut.bin, cut.db.canonical, cut.floor)
            && Resolve(cut, target) == Row(s.db.canonical, target) == Row(cut.db.canonical, target)
  {
    TruncateReads(s.bin, target);
  }

  lemma TipMovedCache(cut: Store, target: Height, top: Height)
    requires CacheAgrees(cut.cache - Range(target + 1, top), cut.db.canonical, cut.floor)
    requires Resolve(cut, target) == Row(cut.db.canonical, target)
    ensures CacheAgrees(TipMoved(cut, target).cache - Range(target + 1, top), cut.db.canonical, cut.floor)
  {
    if target !in cut.cache && Resolve(cut, target).Some? {
      ShrinkKeepsHighest(cut.cache[target := Resolve(cut, target).value], cut.capacity);
    }
  }

  lemma RollbackCoherent(s: Store, target: Height)
    requires Coherent(s)
    ensures Coherent(Rollback(s, target).store)
  {
    hide ReadBin, Resolve, CollectDown;
    if RollbackError(s, target).None? && target != s.tip.value.height {
      var top := s.tip.value.height;
      CollectDownCoherent(s, target + 1, top);
      var down := CollectDown(s, target + 1, top).0;
      CutTargetResolves(down, target, top);
      TipMovedCache(RowsCut(down, target, top), target, top);
    }
  }

  lemma ReorgCoherent(s: Store, ancestor: Height, hashes: seq<Hash>)
    requires Coherent(s)
    ensures Coherent(Reorg(s, ancestor, hashes).store)
  {
    if ReorgError(s, hashes).None? {
      var top := s.tip.value.height;
      CollectDownCoherent(s, ancestor + 1, top);
      TruncateReads(s.bin, ancestor);
      WriteAllReads(TruncateTo(s.bin, ancestor), RowsFor(s.db, hashes));
    }
  }

  lemma PruneCoherent(s: Store, height: Height)
    requires Coherent(s)
    ensures Coherent(Prune(s, height).store)
  {
    if !s.readOnly && height > s.floor {
      CollectUpCoherent(s, s.floor, height);
      var rows := CollectUp(s, s.floor, height).1;
      assert forall h | h in rows :: Row(rows, h).Some?;
    }
  }

  /** Genesis leaves lookups right exactly when it is refused or height 0 is not cached with another hash. */
  lemma GenesisCoherent(s: Store, b: Block)
    requires Coherent(s)
    ensures var safe := Genesis(s, b).result.Ok? ==> StaleFree(s, [(0, b.hash)]);
            (Coherent(Genesis(s, b).store) <==> safe) && (LookupsRight(Genesis(s, b).store) <==> safe)
  {
    hide Coherent, StaleFree, LookupsRight, WriteRows;
    if Genesis(s, b).result.Ok? {
      assert s.tip == s.db.tip by { TipMirrored(s); }
      GenesisWritesOneRow(s, b);
      SkippedRefreshIsSafeExactlyWhenStaleFree(s, [(0, b.hash)]);
      SameIndex(WriteRows(s, [(0, b.hash)]), Genesis(s, b).store);
    } else {
      CoherentIsRight(s);
    }
  }

  lemma TipMirrored(s: Store)
    requires Coherent(s)
    ensures s.tip == s.db.tip
  {
  }

  /** As far as lookups go, genesis is a write of row 0 that skips the height cache. */
  lemma GenesisWritesOneRow(s: Store, b: Block)
    requires Genesis(s, b).result.Ok? && s.tip == s.db.tip
    ensures var written, after := WriteRows(s, [(0, b.hash)]), Genesis(s, b).store;
            && after == written.(db := after.db, tip := after.db.tip)
            && after.db == written.db.(blocks := after.db.blocks, headers := after.db.headers, tip := after.db.tip,
                                       genesis := after.db.genesis)
            && written.tip == written.db.tip
  {
    hide ExtendWrite;
    var rows := [(0 as Height, b.hash)];
    assert rows[..0] == [];
    assert RowMap(rows) == map[0 := b.hash];
    assert WriteAll(s.bin, rows) == ExtendWrite(s.bin, 0, b.hash);
    assert s.db.canonical + map[0 := b.hash] == s.db.canonical[0 := b.hash];
  }

  lemma CoherentIsRight(s: Store)
    requires Coherent(s)
    ensures LookupsRight(s)
  {
    hide Coherent, Resolve, Visible;
    forall h: Height ensures Resolve(s, h) == Visible(s.db, h) { LookupIsVisible(s, h); }
  }

  /** Bodies, headers and a tip that memory knows about play no part in lookups. */
  lemma SameIndex(s: Store, t: Store)
    requires t == s.(db := t.db, tip := t.db.tip)
    requires t.db == s.db.(blocks := t.db.blocks, headers := t.db.headers, tip := t.db.tip, genesis := t.db.genesis)
    requires s.tip == s.db.tip
    ensures Coherent(s) <==> Coherent(t)
    ensures LookupsRight(s) <==> LookupsRight(t)
  {
    hide CacheAgrees, BinAgrees;
    assert forall h: Height :: Resolve(s, h) == Resolve(t, h) && Visible(s.db, h) == Visible(t.db, h);
  }

  lemma {:induction false} StoreJobsKeepsIndex(db: Db, staged: seq<Job>)
    ensures var r := StoreJobs(db, staged);
            r == db.(blocks := r.blocks, headers := r.headers)
  {
    if staged != [] {
      StoreJobsKeepsIndex(db, staged[..|staged| - 1]);
    }
  }

  /** A flush leaves lookups right exactly when it is refused or no rewritten height is cached with another hash. */
  lemma FlushCoherent(s: Store, jobs: seq<Job>)
    requires Coherent(s)
    ensures var safe := s.readOnly || StaleFree(s, JobRows(Staged(s.db, jobs)));
            (Coherent(Flush(s, jobs).0) <==> safe) && (LookupsRight(Flush(s, jobs).0) <==> safe)
  {
    hide LookupsRight;
    if !s.readOnly {
      var staged := Staged(s.db, jobs);
      StoreJobsKeepsIndex(s.db, staged);
      SkippedRefreshIsSafeExactlyWhenStaleFree(s.(db := StoreJobs(s.db, staged)), JobRows(staged));
    } else {
      CoherentIsRight(s);
    }
  }

  lemma DisabledCoherent(s: Store)
    requires Coherent(s)
    ensures Coherent(s.(bin := Disabled))
  {
  }

  lemma OpenCoherent(db: Db, onDisk: Option<seq<Byte>>, writable: bool, capacity: nat)
    ensures Coherent(Open(db, onDisk, writable, capacity))
  {
    var s := Open(db, onDisk, writable, capacity);
    RecoversFromAnyFile(db.canonical, onDisk, writable, 0);
    forall h: Height | ReadBin(s.bin, h).Some?
      ensures h in db.canonical && db.canonical[h] == ReadBin(s.bin, h).value
    {
      RecoversFromAnyFile(db.canonical, onDisk, writable, h);
    }
  }
}
