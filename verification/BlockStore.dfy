/**
 The block store as an object: fields updated in place, loops as in src/store.rs and src/canonical/index.rs, and one
 WriteBatch committed at a time. Every method is proved to do exactly what its function in StoreModel says.
 */
module BlockStoreClass {
  import opened ChainTypes
  import opened CanonicalBin
  import opened StoreModel

  // ---------------------------------------------------------------- write batches

  datatype Write =
    | PutBody(hash: Hash, block: Block)
    | PutHeader(hash: Hash, header: Header)
    | PutRow(height: Height, hash: Hash)
    | PutTip(tip: ChainTip)
    | PutGenesis(hash: Hash)
    | PutFloor(height: Height)
    | DeleteBody(hash: Hash)
    | DeleteHeader(hash: Hash)
    | DeleteAttestation(hash: Hash)
    | DeleteRow(height: Height)

  function Apply(db: Db, w: Write): (r: Db) {
    match w
    case PutBody(x, b) => db.(blocks := db.blocks[x := b])
    case PutHeader(x, header) => db.(headers := db.headers[x := header])
    case PutRow(h, x) => db.(canonical := db.canonical[h := x])
    case PutTip(tip) => db.(tip := Some(tip))
    case PutGenesis(x) => db.(genesis := Some(x))
    case PutFloor(h) => db.(minHeight := Some(h))
    case DeleteBody(x) => db.(blocks := db.blocks - {x})
    case DeleteHeader(x) => db.(headers := db.headers - {x})
    case DeleteAttestation(x) => db.(attested := db.attested - {x})
    case DeleteRow(h) => db.(canonical := db.canonical - {h})
  }

  /** The database after a batch: its writes in order, all at once. */
  function Commit(db: Db, batch: seq<Write>): (r: Db) {
    if batch == [] then db else Apply(Commit(db, batch[..|batch| - 1]), batch[|batch| - 1])
  }

  lemma CommitNothing(db: Db)
    ensures Commit(db, []) == db
  {
  }

  lemma CommitOne(db: Db, batch: seq<Write>, w: Write)
    ensures Commit(db, batch + [w]) == Apply(Commit(db, batch), w)
  {
    assert (batch + [w])[..|batch|] == batch;
  }

  lemma CommitTwo(db: Db, batch: seq<Write>, v: Write, w: Write)
    ensures Commit(db, batch + [v, w]) == Apply(Apply(Commit(db, batch), v), w)
  {
    hide Apply, Commit;
    CommitOne(db, batch, v);
    CommitOne(db, batch + [v], w);
    assert batch + [v, w] == batch + [v] + [w];
  }

  // ---------------------------------------------------------------- facts about the model's recursive functions

  lemma {:induction false} MissingInPrefix(db: Db, hashes: seq<Hash>, i: nat)
    requires i <= |hashes| && FirstMissing(db, hashes[..i]).Some?
    ensures FirstMissing(db, hashes) == FirstMissing(db, hashes[..i])
    decreases |hashes|
  {
    if i == |hashes| {
      assert hashes[..i] == hashes;
    } else {
      assert hashes[..|hashes| - 1][..i] == hashes[..i];
      MissingInPrefix(db, hashes[..|hashes| - 1], i);
    }
  }

  lemma LowestIsLeast(keys: set<Height>, k: Height)
    requires k in keys && forall j | j in keys :: k <= j
    ensures Lowest(keys) == k
  {
  }

  lemma NoRowsAdded(canonical: Rows)
    ensures canonical + RowMap([]) == canonical
  {
  }

  lemma RowMapMore(canonical: Rows, rows: seq<(Height, Hash)>, h: Height, x: Hash)
    ensures canonical + RowMap(rows + [(h, x)]) == (canonical + RowMap(rows))[h := x]
  {
    assert (rows + [(h, x)])[..|rows|] == rows;
  }

  lemma RangeUp(lo: nat, hi: int)
    requires lo <= hi + 1 && hi + 1 < SLOT_LIMIT
    ensures Range(lo, hi + 1) == Range(lo, hi) + {hi + 1}
  {
  }

  lemma NoHeights(canonical: Rows, hi: Height)
    ensures canonical - Range(hi + 1, hi) == canonical
  {
  }

  lemma SameEmptyRange(lo: nat, hi: Height)
    requires lo > hi
    ensures Range(lo, hi) == Range(hi + 1, hi) == {}
  {
  }

  lemma RangeDown(canonical: Rows, h: Height, hi: Height)
    requires h <= hi
    ensures (canonical - Range(h + 1, hi)) - {h} == canonical - Range(h, hi)
  {
  }

  lemma CollectDownNothing(s: Store, lo: nat, hi: int)
    requires hi < lo && hi < SLOT_LIMIT
    ensures CollectDown(s, lo, hi) == (s, [])
  {
  }

  lemma CollectDownStep(s: Store, lo: nat, h: Height)
    requires lo <= h
    ensures var rest := CollectDown(Looked(s, h), lo, h - 1);
            CollectDown(s, lo, h).0 == rest.0 && CollectDown(s, lo, h).1 == Answer(Resolve(s, h)) + rest.1
  {
  }

  /** A database without the given blocks and canonical rows. */
  ghost function Erased(db: Db, gone: set<Hash>, heights: set<Height>): (r: Db) {
    db.(blocks := db.blocks - gone, headers := db.headers - gone, attested := db.attested - gone,
        canonical := db.canonical - heights)
  }

  lemma ErasedNothing(db: Db)
    ensures Erased(db, {}, {}) == db
  {
    assert db.blocks - {} == db.blocks && db.headers - {} == db.headers && db.attested - {} == db.attested;
    assert db.canonical - {} == db.canonical;
  }

  lemma WithoutOne<K, V>(m: map<K, V>, gone: set<K>, x: K)
    ensures (m - gone) - {x} == m - (gone + {x})
  {
  }

  lemma ErasedFork(db: Db, gone: set<Hash>, heights: set<Height>, x: Hash)
    ensures var before := Erased(db, gone, heights);
            before.(blocks := before.blocks - {x}, headers := before.headers - {x}, attested := before.attested - {x})
            == Erased(db, gone + {x}, heights)
  {
    WithoutOne(db.blocks, gone, x);
    WithoutOne(db.headers, gone, x);
    WithoutOne(db.attested, gone, x);
  }

  lemma ErasedMore(db: Db, rows: Rows, h: Height, x: Hash)
    requires h !in rows
    ensures var before := Erased(db, rows.Values, rows.Keys);
            var after := before.(blocks := before.blocks - {x}, headers := before.headers - {x}, attested := before.attested - {x});
            Apply(after, DeleteRow(h)) == Erased(db, rows[h := x].Values, rows[h := x].Keys)
  {
    ErasedFork(db, rows.Values, rows.Keys, x);
    WithoutOne(db.canonical, rows.Keys, h);
    AddedValue(rows, h, x);
    assert rows[h := x].Keys == rows.Keys + {h};
  }

  lemma AddedValue(rows: Rows, h: Height, x: Hash)
    requires h !in rows
    ensures rows[h := x].Values == rows.Values + {x}
  {
    var after := rows[h := x];
    forall y | y in rows.Values + {x} ensures y in after.Values {
      if y in rows.Values {
        var k :| k in rows && rows[k] == y;
        assert after[k] == y;
      } else {
        assert after[h] == x;
      }
    }
  }

  function Elements(s: seq<Hash>): (r: set<Hash>) { set x | x in s }

  lemma NoElements()
    ensures Elements([]) == {}
  {
  }

  lemma PushValue(pruned: seq<Hash>, rows: Rows, h: Height, x: Hash)
    requires h !in rows && |pruned| == |rows| && Elements(pruned) == rows.Values
    ensures |pruned + [x]| == |rows[h := x]| && Elements(pruned + [x]) == rows[h := x].Values
  {
    hide Elements;
    AddedValue(rows, h, x);
    ElementsMore(pruned, x);
    assert rows[h := x].Keys == rows.Keys + {h};
  }

  lemma ElementsMore(s: seq<Hash>, x: Hash)
    ensures Elements(s + [x]) == Elements(s) + {x}
  {
  }

  lemma NoForksYet(db: Db, height: Height, collected: set<Hash>)
    ensures ForksBelow(db, height, collected + db.headers.Keys) == {}
  {
  }

  lemma ErasedIsPruned(db: Db, height: Height, rows: Rows)
    ensures Apply(Erased(db, rows.Values + ForksBelow(db, height, rows.Values), rows.Keys), PutFloor(height)) ==
            PruneDb(db, height, rows)
  {
  }

  lemma CollectUpStep(s: Store, lo: nat, h: Height)
    requires lo <= h
    ensures var before, after := CollectUp(s, lo, h), CollectUp(s, lo, h + 1);
            var x := Resolve(before.0, h);
            after.0 == Looked(before.0, h) && after.1 == if x.Some? then before.1[h := x.value] else before.1
    ensures CollectUp(s, lo, lo) == (s, map[])
  {
  }

  lemma MoreForks(db: Db, height: Height, collected: set<Hash>, todo: set<Hash>, x: Hash)
    requires x in todo && todo <= db.headers.Keys
    ensures var before := ForksBelow(db, height, collected + todo);
            var after := ForksBelow(db, height, collected + (todo - {x}));
            && after == (if x !in collected && db.headers[x].height < height then before + {x} else before)
            && x !in before
  {
  }

  class BlockStore {
    var db: Db
    const sidecar: Sidecar
    var cache: Rows
    const capacity: nat
    var tip: Option<ChainTip>
    var floor: Height
    const readOnly: bool

    ghost function View(): (r: Store)
      reads this, sidecar, sidecar.file, sidecar.file.data
    {
      Store(db, sidecar.Value(), cache, capacity, tip, floor, readOnly)
    }

    /** The objects of the store. */
    ghost function Repr(): (r: set<object>)
      reads this, sidecar, sidecar.file
    {
      {this, sidecar, sidecar.file, sidecar.file.data}
    }

    /** `open` and `open_readonly`: sync the sidecar with the rows the database iterates, then load tip and floor. */
    constructor (db: Db, rows: seq<(Height, Hash)>, onDisk: Option<seq<Byte>>, writable: bool, capacity: nat)
      requires RowMap(rows) == db.canonical
      ensures View() == Open(db, onDisk, writable, capacity) && fresh(Repr())
    {
      this.db := db;
      this.cache := map[];
      this.capacity := capacity;
      this.tip := db.tip;
      this.floor := if db.minHeight.Some? then db.minHeight.value else 0;
      this.readOnly := !writable;
      var mapped := new Sidecar(rows, onDisk, writable);
      this.sidecar := mapped;
    }

    method InsertHeightCache(h: Height, x: Hash)
      modifies this`cache
      ensures cache == Remember(old(cache), capacity, h, x)
    {
      if capacity == 0 { return; }
      cache := cache[h := x];
      ghost var full := cache;
      while |cache| > capacity
        invariant Shrink(cache, capacity) == Shrink(full, capacity)
        decreases |cache|
      {
        assert Lowest(cache.Keys) in cache;
        var lowest :| lowest in cache && forall k | k in cache :: lowest <= k;
        LowestIsLeast(cache.Keys, lowest);
        ghost var smaller := Without(cache, lowest);
        cache := cache - {lowest};
      }
    }

    method GetHashByHeight(h: Height) returns (r: Option<Hash>)
      modifies this`cache
      ensures r == Resolve(old(View()), h)
      ensures View() == Looked(old(View()), h)
    {
      if h < floor { return None; }
      if h in cache { return Some(cache[h]); }
      var slot := sidecar.Read(h);
      if slot.Some? {
        InsertHeightCache(h, slot.value);
        return slot;
      }
      if h !in db.canonical { return None; }
      InsertHeightCache(h, db.canonical[h]);
      return Some(db.canonical[h]);
    }

    method PutBlock(b: Block, canonical: bool, trains: bool) returns (r: Result<bool>)
      modifies Repr()
      ensures fresh(Repr() - old(Repr()))
      ensures Outcome(View(), r) == Put(old(View()), b, canonical, trains)
    {
      if readOnly { return Err(ReadOnly); }
      if b.hash in db.blocks { return Ok(false); }
      var batch := [PutBody(b.hash, b), PutHeader(b.hash, b.header)];
      CommitTwo(db, [], PutBody(b.hash, b), PutHeader(b.hash, b.header));
      assert [] + batch == batch;
      if canonical {
        CommitOne(db, batch, PutRow(b.Height(), b.hash));
        batch := batch + [PutRow(b.Height(), b.hash)];
      }
      db := Commit(db, batch);
      if canonical {
        sidecar.Extend(b.Height(), b.hash);
        InsertHeightCache(b.Height(), b.hash);
      }
      if !trains { return Err(TrainingFailed); }
      return Ok(true);
    }

    method InitGenesis(b: Block, trains: bool) returns (r: Result<()>)
      modifies Repr()
      ensures fresh(Repr() - old(Repr()))
      ensures Outcome(View(), r) == Genesis(old(View()), b, trains)
    {
      if readOnly { return Err(ReadOnly); }
      if db.tip.Some? || db.genesis.Some? { return Err(AlreadyInitialized); }
      if b.Height() != 0 { return Err(GenesisHeight(b.Height())); }
      var newTip := ChainTip(b.hash, 0);
      var bodies := [PutBody(b.hash, b), PutHeader(b.hash, b.header)];
      var index := bodies + [PutRow(0, b.hash), PutTip(newTip)];
      var batch := index + [PutGenesis(b.hash)];
      CommitTwo(db, [], PutBody(b.hash, b), PutHeader(b.hash, b.header));
      assert [] + bodies == bodies;
      CommitTwo(db, bodies, PutRow(0, b.hash), PutTip(newTip));
      CommitOne(db, index, PutGenesis(b.hash));
      db := Commit(db, batch);
      sidecar.Extend(0, b.hash);
      tip := Some(newTip);
      if !trains { return Err(TrainingFailed); }
      return Ok(());
    }

    method SetTip(newTip: ChainTip) returns (r: Result<()>)
      modifies this`db, this`tip
      ensures Outcome(View(), r) == StoreModel.SetTip(old(View()), newTip)
    {
      if readOnly { return Err(ReadOnly); }
      db := Apply(db, PutTip(newTip));
      tip := Some(newTip);
      return Ok(());
    }

    method SetCanonical(hash: Hash) returns (r: Result<()>)
      modifies Repr()
      ensures fresh(Repr() - old(Repr()))
      ensures Outcome(View(), r) == StoreModel.SetCanonical(old(View()), hash)
    {
      if readOnly { return Err(ReadOnly); }
      if hash !in db.headers { return Err(BlockNotInStore(hash)); }
      var h := db.headers[hash].height;
      db := Apply(db, PutRow(h, hash));
      sidecar.Extend(h, hash);
      InsertHeightCache(h, hash);
      return Ok(());
    }

    /** Find every hash's stored header, stopping at the first that has none. */
    method Validate(hashes: seq<Hash>) returns (rows: seq<(Height, Hash)>, missing: Option<Hash>)
      ensures missing == FirstMissing(db, hashes)
      ensures missing.None? ==> rows == RowsFor(db, hashes)
    {
      rows := [];
      for i := 0 to |hashes|
        invariant FirstMissing(db, hashes[..i]).None?
        invariant rows == RowsFor(db, hashes[..i])
      {
        assert hashes[..i + 1][..i] == hashes[..i];
        if hashes[i] !in db.headers {
          assert FirstMissing(db, hashes[..i + 1]) == Some(hashes[i]);
          MissingInPrefix(db, hashes, i + 1);
          return rows, Some(hashes[i]);
        }
        rows := rows + [(db.headers[hashes[i]].height, hashes[i])];
      }
      assert hashes[..|hashes|] == hashes;
      missing := None;
    }

    /** Write rows to the sidecar one at a time. */
    method WriteSlots(rows: seq<(Height, Hash)>)
      modifies sidecar.file, sidecar.file.data
      ensures sidecar.Value() == WriteAll(old(sidecar.Value()), rows)
      ensures sidecar.file.data == old(sidecar.file.data) || fresh(sidecar.file.data)
    {
      for i := 0 to |rows|
        invariant sidecar.Value() == WriteAll(old(sidecar.Value()), rows[..i])
        invariant sidecar.file.data == old(sidecar.file.data) || fresh(sidecar.file.data)
      {
        assert rows[..i + 1][..i] == rows[..i];
        sidecar.Extend(rows[i].0, rows[i].1);
      }
      assert rows[..|rows|] == rows;
    }

    /** Add one row put per entry to a batch. */
    method StageRows(batch: seq<Write>, rows: seq<(Height, Hash)>) returns (staged: seq<Write>)
      ensures Commit(db, staged) == Commit(db, batch).(canonical := Commit(db, batch).canonical + RowMap(rows))
    {
      hide Commit, RowMap;
      staged := batch;
      assert rows[..0] == [];
      NoRowsAdded(Commit(db, batch).canonical);
      for i := 0 to |rows|
        invariant Commit(db, staged) == Commit(db, batch).(canonical := Commit(db, batch).canonical + RowMap(rows[..i]))
      {
        assert rows[..i + 1][..i] == rows[..i];
        CommitOne(db, staged, PutRow(rows[i].0, rows[i].1));
        staged := staged + [PutRow(rows[i].0, rows[i].1)];
        RowMapMore(Commit(db, batch).canonical, rows[..i], rows[i].0, rows[i].1);
        assert rows[..i] + [(rows[i].0, rows[i].1)] == rows[..i + 1];
      }
      assert rows[..|rows|] == rows;
    }

    method SetCanonicalBatch(hashes: seq<Hash>) returns (r: Result<()>)
      modifies Repr()
      ensures fresh(Repr() - old(Repr()))
      ensures Outcome(View(), r) == StoreModel.SetCanonicalBatch(old(View()), hashes)
    {
      if readOnly { return Err(ReadOnly); }
      if hashes == [] {
        assert db.canonical + map[] == db.canonical;
        return Ok(());
      }
      var rows, missing := Validate(hashes);
      if missing.Some? { return Err(BlockNotInStore(missing.value)); }
      var batch := StageRows([], rows);
      db := Commit(db, batch);
      WriteSlots(rows);
      return Ok(());
    }

    method ExtendChain(b: Block, trains: bool) returns (r: Result<bool>)
      modifies Repr()
      ensures fresh(Repr() - old(Repr()))
      ensures Outcome(View(), r) == Extend(old(View()), b, trains)
    {
      if b.hash in db.headers || b.hash in db.blocks { return Ok(false); }
      r := PutBlock(b, true, trains);
      if r.Ok? {
        var moved := SetTip(ChainTip(b.hash, b.Height()));
        r := Ok(true);
      }
    }

    /** Collect the hashes at hi, hi-1, ..., lo. */
    method Collect(lo: nat, hi: Height) returns (reverted: seq<Hash>)
      modifies this`cache
      ensures View() == CollectDown(old(View()), lo, hi).0
      ensures reverted == CollectDown(old(View()), lo, hi).1
    {
      reverted := [];
      var h: int := hi;
      while h >= lo
        invariant h <= hi
        invariant View() == old(View()).(cache := cache)
        invariant CollectDown(old(View()), lo, hi).0 == CollectDown(View(), lo, h).0
        invariant CollectDown(old(View()), lo, hi).1 == reverted + CollectDown(View(), lo, h).1
      {
        ghost var before := View();
        var x := GetHashByHeight(h);
        ghost var rest := CollectDown(View(), lo, h - 1);
        assert CollectDown(before, lo, h).0 == rest.0 && CollectDown(before, lo, h).1 == Answer(x) + rest.1;
        assert reverted + (Answer(x) + rest.1) == reverted + Answer(x) + rest.1;
        if x.Some? { reverted := reverted + [x.value]; }
        h := h - 1;
      }
    }

    method BlocksToRevert(target: Height) returns (reverted: seq<Hash>)
      modifies this`cache
      ensures Outcome(View(), Ok(reverted)) == StoreModel.BlocksToRevert(old(View()), target)
    {
      if tip.None? || target >= tip.value.height { return []; }
      reverted := Collect(target + 1, tip.value.height);
    }

    /** Stage one row delete per height in lo..=hi. */
    method StageDeletes(lo: nat, hi: Height) returns (batch: seq<Write>)
      ensures Commit(db, batch) == db.(canonical := db.canonical - Range(lo, hi))
    {
      batch := [];
      if lo > hi {
        assert db.canonical - Range(lo, hi) == db.canonical;
        return;
      }
      assert db.canonical - Range(lo, lo - 1) == db.canonical;
      for h := lo to hi + 1
        invariant Commit(db, batch) == db.(canonical := db.canonical - Range(lo, h - 1))
      {
        CommitOne(db, batch, DeleteRow(h));
        batch := batch + [DeleteRow(h)];
        RangeUp(lo, h - 1);
        assert (db.canonical - Range(lo, h - 1)) - {h} == db.canonical - Range(lo, h);
      }
    }

    /** Drop the heights lo..=hi from the height cache. */
    method Evict(lo: nat, hi: Height)
      modifies this`cache
      ensures cache == old(cache) - Range(lo, hi)
    {
      if lo > hi { return; }
      for h := lo to hi + 1
        invariant cache == old(cache) - Range(lo, h - 1)
      {
        RangeUp(lo, h - 1);
        cache := cache - {h};
      }
    }

    method RollbackToHeight(target: Height) returns (r: Result<seq<Hash>>)
      modifies Repr()
      ensures fresh(Repr() - old(Repr()))
      ensures Outcome(View(), r) == Rollback(old(View()), target)
    {
      hide CollectDown, Resolve, Range, TruncateTo, Remember, Commit, Sidecar.Value;
      if readOnly { return Err(ReadOnly); }
      if tip.None? { return Err(NoTip); }
      var top := tip.value.height;
      if target > top { return Err(RollbackAboveTip(target, top)); }
      if target < floor { return Err(RollbackBelowMin(target, floor)); }
      if target == top { return Ok([]); }
      var reverted := Collect(target + 1, top);
      var batch := StageDeletes(target + 1, top);
      ghost var read := View();
      db := Commit(db, batch);
      sidecar.Truncate(target);
      assert View() == RowsCut(read, target, top);
      ghost var cut := View();
      var found := GetHashByHeight(target);
      if found.Some? {
        var moved := SetTip(ChainTip(found.value, target));
      }
      assert View() == TipMoved(cut, target);
      Evict(target + 1, top);
      return Ok(reverted);
    }

    method ApplyReorg(ancestor: Height, hashes: seq<Hash>) returns (r: Result<ReorgResult>)
      modifies Repr()
      ensures fresh(Repr() - old(Repr()))
      ensures Outcome(View(), r) == Reorg(old(View()), ancestor, hashes)
    {
      hide CollectDown, RowMap, Range, WriteAll, TruncateTo, Commit, FirstMissing, Sidecar.Value;
      if readOnly { return Err(ReadOnly); }
      if tip.None? { return Err(NoTip); }
      var top := tip.value.height;
      if hashes == [] { return Err(EmptyReorgChain); }
      var rows, missing := Validate(hashes);
      if missing.Some? { return Err(BlockNotInStore(missing.value)); }
      var reverted, batch := Revert(ancestor + 1, top);
      batch := StageRows(batch, rows);
      var newTip := ChainTip(rows[|rows| - 1].1, rows[|rows| - 1].0);
      CommitOne(db, batch, PutTip(newTip));
      batch := batch + [PutTip(newTip)];
      db := Commit(db, batch);
      sidecar.Truncate(ancestor);
      WriteSlots(rows);
      Evict(ancestor + 1, top);
      InsertRows(rows);
      tip := Some(newTip);
      return Ok(ReorgResult(reverted, hashes, newTip));
    }

    /** Collect the hashes at hi, hi-1, ..., lo and stage the delete of each height's row on the way. */
    method Revert(lo: nat, hi: Height) returns (reverted: seq<Hash>, batch: seq<Write>)
      modifies this`cache
      ensures View() == CollectDown(old(View()), lo, hi).0
      ensures reverted == CollectDown(old(View()), lo, hi).1
      ensures Commit(db, batch) == db.(canonical := db.canonical - Range(lo, hi))
    {
      hide Commit, Resolve, Looked, CollectDown, Range;
      reverted, batch := [], [];
      var h: int := hi;
      CommitNothing(db);
      NoHeights(db.canonical, hi);
      while h >= lo
        invariant h <= hi && (lo <= hi ==> lo - 1 <= h) && (lo > hi ==> h == hi)
        invariant View() == old(View()).(cache := cache)
        invariant CollectDown(old(View()), lo, hi).0 == CollectDown(View(), lo, h).0
        invariant CollectDown(old(View()), lo, hi).1 == reverted + CollectDown(View(), lo, h).1
        invariant Commit(db, batch) == db.(canonical := db.canonical - Range(h + 1, hi))
      {
        ghost var before := View();
        var x := GetHashByHeight(h);
        CollectDownStep(before, lo, h);
        ghost var rest := CollectDown(View(), lo, h - 1);
        assert reverted + (Answer(x) + rest.1) == reverted + Answer(x) + rest.1;
        if x.Some? { reverted := reverted + [x.value]; }
        CommitOne(db, batch, DeleteRow(h));
        batch := batch + [DeleteRow(h)];
        RangeDown(db.canonical, h, hi);
        h := h - 1;
      }
      CollectDownNothing(View(), lo, h);
      if lo > hi { SameEmptyRange(lo, hi); }
    }

    /** Insert rows into the height cache without the capacity check. */
    method InsertRows(rows: seq<(Height, Hash)>)
      modifies this`cache
      ensures cache == old(cache) + RowMap(rows)
    {
      for i := 0 to |rows|
        invariant cache == old(cache) + RowMap(rows[..i])
      {
        assert rows[..i + 1][..i] == rows[..i];
        cache := cache[rows[i].0 := rows[i].1];
      }
      assert rows[..|rows|] == rows;
    }

    method FindCommonAncestor(hash: Hash, depth: nat) returns (r: Option<(Hash, Height)>)
      modifies this`cache
      ensures (View(), r) == FindAncestor(old(View()), hash, depth)
    {
      var current := hash;
      for i := 0 to depth
        invariant View() == old(View()).(cache := cache)
        invariant FindAncestor(View(), current, depth - i) == FindAncestor(old(View()), hash, depth)
      {
        if current !in db.headers { return None; }
        var header := db.headers[current];
        var found := GetHashByHeight(header.height);
        if found == Some(current) {
          return Some((current, header.height));
        }
        current := header.parent;
      }
      return None;
    }

    /** `disable_canonical_bin_acceleration`. */
    method DisableBin()
      modifies sidecar
      ensures View() == old(View()).(bin := Disabled)
    {
      sidecar.Disable();
    }

    method PutAttestation(hash: Hash, bytes: seq<Byte>) returns (r: Result<()>)
      modifies this`db
      ensures Outcome(View(), r) == StoreModel.PutAttestation(old(View()), hash, bytes)
    {
      if readOnly { return Err(ReadOnly); }
      db := db.(attested := db.attested[hash := bytes]);
      return Ok(());
    }

    method GetBlocksInRange(start: Height, end: Height) returns (blocks: seq<Block>)
      modifies this`cache
      ensures View() == RangeBlocks(old(View()), start, end + 1).0
      ensures blocks == RangeBlocks(old(View()), start, end + 1).1
    {
      blocks := [];
      if start > end { return; }
      for h := start to end + 1
        invariant View() == RangeBlocks(old(View()), start, h).0
        invariant blocks == RangeBlocks(old(View()), start, h).1
      {
        var x := GetHashByHeight(h);
        if x.Some? && x.value in db.blocks {
          blocks := blocks + [db.blocks[x.value]];
        }
      }
    }

    /** Stage the deletes of one block: body, header, attestation. */
    method StageBlockDelete(batch: seq<Write>, x: Hash) returns (staged: seq<Write>)
      ensures var before := Commit(db, batch);
              Commit(db, staged) == before.(blocks := before.blocks - {x}, headers := before.headers - {x},
                                            attested := before.attested - {x})
    {
      CommitTwo(db, batch, DeleteBody(x), DeleteHeader(x));
      staged := batch + [DeleteBody(x), DeleteHeader(x)];
      CommitOne(db, staged, DeleteAttestation(x));
      staged := staged + [DeleteAttestation(x)];
    }

    /** The canonical pass of a prune: heights floor..height, each found row staged for deletion with its block. */
    method StageCanonical(height: Height) returns (batch: seq<Write>, pruned: seq<Hash>, ghost rows: Rows)
      requires floor <= height
      modifies this`cache
      ensures View() == CollectUp(old(View()), floor, height).0
      ensures rows == CollectUp(old(View()), floor, height).1
      ensures |pruned| == |rows| && Elements(pruned) == rows.Values
      ensures Commit(db, batch) == Erased(db, rows.Values, rows.Keys)
    {
      hide Commit, Erased, Resolve, Looked, Elements, CollectUp;
      CollectUpStep(View(), floor, floor);
      batch, pruned, rows := [], [], map[];
      ErasedNothing(db);
      assert Commit(db, []) == db by { CommitNothing(db); }
      assert Elements([]) == {} by { NoElements(); }
      for h := floor to height
        invariant View() == CollectUp(old(View()), floor, h).0
        invariant rows == CollectUp(old(View()), floor, h).1
        invariant forall k | k in rows :: k < h
        invariant |pruned| == |rows| && Elements(pruned) == rows.Values
        invariant Commit(db, batch) == Erased(db, rows.Values, rows.Keys)
      {
        CollectUpStep(old(View()), floor, h);
        var x := GetHashByHeight(h);
        if x.Some? {
          batch := StageBlockDelete(batch, x.value);
          CommitOne(db, batch, DeleteRow(h));
          batch := batch + [DeleteRow(h)];
          ErasedMore(db, rows, h, x.value);
          PushValue(pruned, rows, h, x.value);
          pruned := pruned + [x.value];
          rows := rows[h := x.value];
        }
      }
    }

    /** The fork pass of a prune: every header below the bound that the canonical pass did not collect. */
    method StageForks(height: Height, collected: set<Hash>, batch: seq<Write>, ghost heights: set<Height>)
      returns (staged: seq<Write>, count: nat)
      requires Commit(db, batch) == Erased(db, collected, heights)
      ensures var forks := ForksBelow(db, height, collected);
              count == |forks| && Commit(db, staged) == Erased(db, collected + forks, heights)
    {
      hide Commit, Erased, ForksBelow;
      staged, count := batch, 0;
      var todo := db.headers.Keys;
      ghost var forks := {};
      NoForksYet(db, height, collected);
      assert collected + forks == collected;
      while todo != {}
        invariant todo <= db.headers.Keys
        invariant forks == ForksBelow(db, height, collected + todo)
        invariant count == |forks|
        invariant Commit(db, staged) == Erased(db, collected + forks, heights)
        decreases todo
      {
        var x :| x in todo;
        MoreForks(db, height, collected, todo, x);
        todo := todo - {x};
        if x !in collected && db.headers[x].height < height {
          staged := StageBlockDelete(staged, x);
          ErasedFork(db, collected + forks, heights, x);
          assert collected + forks + {x} == collected + (forks + {x});
          forks := forks + {x};
          count := count + 1;
        }
      }
      assert collected + todo == collected;
    }

    /** Both passes and the new floor, in one batch. */
    method StagePrune(height: Height) returns (batch: seq<Write>, count: nat)
      requires floor <= height
      modifies this`cache
      ensures var up := CollectUp(old(View()), floor, height);
              && View() == up.0
              && Commit(db, batch) == PruneDb(db, height, up.1)
              && count == |up.1| + |ForksBelow(db, height, up.1.Values)|
    {
      hide Commit, CollectUp, Elements, ForksBelow, Erased, Apply, PruneDb, Sidecar.Value;
      var canonical, pruned, rows := StageCanonical(height);
      var staged, forks := StageForks(height, Elements(pruned), canonical, rows.Keys);
      CommitOne(db, staged, PutFloor(height));
      ErasedIsPruned(db, height, rows);
      batch, count := staged + [PutFloor(height)], |pruned| + forks;
    }

    method PruneBeforeHeight(height: Height) returns (r: Result<nat>)
      modifies Repr()
      ensures fresh(Repr() - old(Repr()))
      ensures Outcome(View(), r) == Prune(old(View()), height)
    {
      hide Commit, CollectUp, Elements, ForksBelow, Erased, Apply, PruneDb, CachedBelow, Sidecar.Value;
      if readOnly { return Err(ReadOnly); }
      if height <= floor { return Ok(0); }
      var batch, count := StagePrune(height);
      db := Commit(db, batch);
      floor := height;
      cache := cache - CachedBelow(cache, height);
      return Ok(count);
    }
  }
}
