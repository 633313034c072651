/** `find_common_ancestor` finds the nearest canonical block on the parent walk (src/store.rs). */
module Ancestor {
  import opened ChainTypes
  import opened CanonicalBin
  import opened StoreModel
  import opened Coherence
  import opened ChainShape

  /** The k-th block of the parent walk from a hash, while the walk stays in the store. */
  function Walk(db: Db, hash: Hash, k: nat): (r: Option<Hash>)
    ensures r.Some? ==> r.value in db.headers
    decreases k
  {
    if hash !in db.headers then None
    else if k == 0 then Some(hash)
    else Walk(db, db.headers[hash].parent, k - 1)
  }

  /** The block is the one a lookup answers at its own height. */
  ghost predicate IsCanonical(db: Db, x: Hash) {
    x in db.headers && Visible(db, db.headers[x].height) == Some(x)
  }

  /** Every block the walk visits before step k is stored and off the canonical chain. */
  ghost predicate OffChainBefore(db: Db, hash: Hash, k: nat) {
    forall j: nat | j < k :: Walk(db, hash, j).Some? && !IsCanonical(db, Walk(db, hash, j).value)
  }

  /** The step at which the walk finds a canonical block, within the depth. */
  ghost predicate FoundAt(db: Db, hash: Hash, depth: nat, k: nat) {
    k < depth && OffChainBefore(db, hash, k) && Walk(db, hash, k).Some? && IsCanonical(db, Walk(db, hash, k).value)
  }

  lemma WalkStep(db: Db, hash: Hash, k: nat)
    requires hash in db.headers
    ensures Walk(db, hash, k + 1) == Walk(db, db.headers[hash].parent, k)
    ensures Walk(db, hash, 0) == Some(hash)
  {
  }

  lemma OffChainStep(db: Db, hash: Hash, k: nat)
    requires hash in db.headers && !IsCanonical(db, hash)
    ensures OffChainBefore(db, hash, k + 1) <==> OffChainBefore(db, db.headers[hash].parent, k)
  {
    hide IsCanonical;
    var parent := db.headers[hash].parent;
    forall j: nat | j < k
      ensures Walk(db, hash, j + 1) == Walk(db, parent, j)
    {
      WalkStep(db, hash, j);
    }
    WalkStep(db, hash, 0);
    if OffChainBefore(db, hash, k + 1) {
      forall j: nat | j < k
        ensures Walk(db, parent, j).Some? && !IsCanonical(db, Walk(db, parent, j).value)
      {
        assert Walk(db, hash, j + 1) == Walk(db, parent, j);
      }
    }
    if OffChainBefore(db, parent, k) {
      forall j: nat | j < k + 1
        ensures Walk(db, hash, j).Some? && !IsCanonical(db, Walk(db, hash, j).value)
      {
        if j > 0 { WalkStep(db, hash, j - 1); }
      }
    }
  }

  /**
   The result is the first canonical block of the walk; it is absent exactly when the first `depth` blocks of the walk
   hold no canonical one, because the walk left the store or ran out of depth.
   */
  lemma {:induction false} AncestorIsTheNearestCanonical(s: Store, hash: Hash, depth: nat)
    returns (k: nat)
    requires Coherent(s)
    ensures var found := FindAncestor(s, hash, depth).1;
            && (found.Some? ==>
                  FoundAt(s.db, hash, depth, k) &&
                  Walk(s.db, hash, k) == Some(found.value.0) && s.db.headers[found.value.0].height == found.value.1)
            && (found.None? <==>
                  forall j: nat | j < depth && Walk(s.db, hash, j).Some? :: !IsCanonical(s.db, Walk(s.db, hash, j).value))
    decreases depth
  {
    hide Coherent, Resolve, Looked;
    var db := s.db;
    k := 0;
    if depth == 0 {
    } else if hash !in db.headers {
      forall j: nat ensures Walk(db, hash, j).None? { }
    } else {
      var h := db.headers[hash].height;
      LookupIsVisible(s, h);
      WalkStep(db, hash, 0);
      if !IsCanonical(db, hash) {
        var next, parent := Looked(s, h), db.headers[hash].parent;
        LookedCoherent(s, h);
        k := AncestorIsTheNearestCanonical(next, parent, depth - 1);
        var found := FindAncestor(next, parent, depth - 1).1;
        assert FindAncestor(s, hash, depth).1 == found;
        OffChainStep(db, hash, k);
        WalkStep(db, hash, k);
        k := k + 1;
        forall j: nat | 0 < j < depth
          ensures Walk(db, hash, j) == Walk(db, parent, j - 1)
        {
          WalkStep(db, hash, j - 1);
        }
        if exists j: nat :: j < depth - 1 && Walk(db, parent, j).Some? && IsCanonical(db, Walk(db, parent, j).value) {
          var j: nat :| j < depth - 1 && Walk(db, parent, j).Some? && IsCanonical(db, Walk(db, parent, j).value);
          WalkStep(db, hash, j);
          assert Walk(db, hash, j + 1) == Walk(db, parent, j);
        }
      }
    }
  }

  /** Heights fall by one from each stored block to its stored parent. */
  ghost predicate HeightsFall(db: Db) {
    forall x | x in db.headers && db.headers[x].parent in db.headers ::
      db.headers[x].height == db.headers[db.headers[x].parent].height + 1
  }

  lemma {:induction false} WalkHeight(db: Db, hash: Hash, k: nat)
    requires HeightsFall(db) && hash in db.headers && Walk(db, hash, k).Some?
    ensures k <= db.headers[hash].height
    ensures db.headers[Walk(db, hash, k).value].height == db.headers[hash].height - k
    decreases k
  {
    if k > 0 {
      WalkHeight(db, db.headers[hash].parent, k - 1);
    }
  }

  /**
   The search succeeds whenever the walk meets a canonical block within the depth, however many steps away; so a stored
   ancestry that ends on a canonical block is found by any depth above the number of its steps.
   */
  lemma StoredAncestryIsFound(s: Store, hash: Hash, steps: nat, depth: nat)
    requires Coherent(s) && depth > steps
    requires Walk(s.db, hash, steps).Some? && IsCanonical(s.db, Walk(s.db, hash, steps).value)
    ensures FindAncestor(s, hash, depth).1.Some?
  {
    var k := AncestorIsTheNearestCanonical(s, hash, depth);
  }

  // ---------------------------------------------------------------- the found ancestor feeds the reorg

  /** The walked blocks strictly above step k, lowest first: the fork to apply. */
  function ForkTo(db: Db, hash: Hash, k: nat): (r: seq<Hash>)
    ensures |r| <= k
    decreases k
  {
    if k == 0 || hash !in db.headers then [] else ForkTo(db, db.headers[hash].parent, k - 1) + [hash]
  }

  lemma {:induction false} ForkToLinks(db: Db, hash: Hash, k: nat)
    requires HeightsFall(db) && hash in db.headers && Walk(db, hash, k).Some?
    requires IsCanonical(db, Walk(db, hash, k).value)
    ensures var ancestor := db.headers[Walk(db, hash, k).value].height;
            && |ForkTo(db, hash, k)| == k
            && ancestor + k == db.headers[hash].height
            && LinkedFork(db, ancestor, ForkTo(db, hash, k))
            && (k > 0 ==> ForkTo(db, hash, k)[k - 1] == hash)
    decreases k
  {
    WalkHeight(db, hash, k);
    if k > 0 {
      ForkToLinks(db, db.headers[hash].parent, k - 1);
    }
  }

  /**
   In a chain, the ancestor that `find_common_ancestor` reports together with the blocks walked to reach it is a fork
   that `apply_reorg` accepts and that keeps the chain, ending at the block the search began from.
   */
  lemma FoundAncestorReorgKeepsTheChain(s: Store, hash: Hash, depth: nat)
    returns (fork: seq<Hash>)
    requires ChainOk(s) && HeightsFall(s.db) && !s.readOnly
    requires FindAncestor(s, hash, depth).1.Some? && !IsCanonical(s.db, hash)
    ensures var (_, ancestor) := FindAncestor(s, hash, depth).1.value;
            var r := Reorg(s, ancestor, fork);
            && LinkedFork(s.db, ancestor, fork)
            && r.result.Ok?
            && ChainOk(r.store)
            && r.store.tip == Some(ChainTip(hash, s.db.headers[hash].height))
  {
    hide CacheAgrees, BinAgrees, RowsLinked, Paired, CollectDown, LinkedFork, HeightsFall;
    var db := s.db;
    var k := AncestorIsTheNearestCanonical(s, hash, depth);
    assert k > 0 && hash in db.headers by { assert Walk(db, hash, k).Some?; }
    fork := ForkTo(db, hash, k);
    ForkToLinks(db, hash, k);
    var ancestor := FindAncestor(s, hash, depth).1.value.1;
    CanonicalIsOnChain(db, Walk(db, hash, k).value);
    ForkIsStored(db, ancestor, fork);
    ReorgChain(s, ancestor, fork);
  }

  lemma CanonicalIsOnChain(db: Db, x: Hash)
    requires Chain(db) && IsCanonical(db, x)
    ensures FloorOf(db) <= db.headers[x].height <= db.tip.value.height
  {
  }
}
