/** Ordered scans with early exit: canonical streaming and checkpoint ranges (src/pipeline.rs, src/store.rs). */
module Scan {
  import opened ChainTypes
  import opened Encoding
  import opened CanonicalBin
  import opened StoreModel
  import opened Coherence
  import opened ChainShape

  /** What an iterator over one column family yields: rows in strictly ascending bytewise key order. */
  ghost predicate Sorted<V>(rows: seq<(Bytes, V)>) {
    forall i, j | 0 <= i < j < |rows| :: LexLess(rows[i].0, rows[j].0)
  }

  /** An 8-byte key whose number lies in lo..=hi. */
  predicate Wanted(key: Bytes, lo: nat, hi: int) { |key| == 8 && lo <= DecodeKey(key) <= hi }

  /** The rows in the wanted range, in order. */
  function Selected<V>(rows: seq<(Bytes, V)>, lo: nat, hi: int): (r: seq<(Bytes, V)>) {
    if rows == [] then []
    else if Wanted(rows[|rows| - 1].0, lo, hi) then Selected(rows[..|rows| - 1], lo, hi) + [rows[|rows| - 1]]
    else Selected(rows[..|rows| - 1], lo, hi)
  }

  /** The other rows, in order. */
  function Others<V>(rows: seq<(Bytes, V)>, lo: nat, hi: int): (r: seq<(Bytes, V)>) {
    if rows == [] then []
    else if Wanted(rows[|rows| - 1].0, lo, hi) then Others(rows[..|rows| - 1], lo, hi)
    else Others(rows[..|rows| - 1], lo, hi) + [rows[|rows| - 1]]
  }

  lemma SortedMore<V>(rows: seq<(Bytes, V)>, last: (Bytes, V))
    requires Sorted(rows) && forall i | 0 <= i < |rows| :: LexLess(rows[i].0, last.0)
    ensures Sorted(rows + [last])
  {
    hide LexLess;
    var more := rows + [last];
    forall i, j | 0 <= i < j < |more| ensures LexLess(more[i].0, more[j].0) {
      assert more[i] == rows[i];
    }
  }

  lemma {:induction false} InEither<V>(rows: seq<(Bytes, V)>, lo: nat, hi: int, row: (Bytes, V))
    ensures row in Selected(rows, lo, hi) <==> row in rows && Wanted(row.0, lo, hi)
    ensures row in Others(rows, lo, hi) <==> row in rows && !Wanted(row.0, lo, hi)
  {
    hide Wanted;
    if rows != [] {
      var front, last := rows[..|rows| - 1], rows[|rows| - 1];
      InEither(front, lo, hi, row);
      assert rows == front + [last];
    }
  }

  lemma AllBelow<V>(rows: seq<(Bytes, V)>, part: seq<(Bytes, V)>, lo: nat, hi: int)
    requires Sorted(rows) && rows != []
    requires var front := rows[..|rows| - 1]; part == Selected(front, lo, hi) || part == Others(front, lo, hi)
    ensures forall i | 0 <= i < |part| :: LexLess(part[i].0, rows[|rows| - 1].0)
  {
    hide LexLess, Selected, Others;
    var front := rows[..|rows| - 1];
    forall i | 0 <= i < |part| ensures LexLess(part[i].0, rows[|rows| - 1].0) {
      InEither(front, lo, hi, part[i]);
      var k :| 0 <= k < |front| && front[k] == part[i];
      assert rows[k] == part[i];
    }
  }

  lemma {:induction false} BothSorted<V>(rows: seq<(Bytes, V)>, lo: nat, hi: int)
    requires Sorted(rows)
    ensures Sorted(Selected(rows, lo, hi)) && Sorted(Others(rows, lo, hi))
    ensures |Selected(rows, lo, hi)| + |Others(rows, lo, hi)| == |rows|
  {
    hide Wanted, LexLess;
    if rows != [] {
      var front, last := rows[..|rows| - 1], rows[|rows| - 1];
      BothSorted(front, lo, hi);
      AllBelow(rows, Selected(front, lo, hi), lo, hi);
      AllBelow(rows, Others(front, lo, hi), lo, hi);
      SortedMore(Selected(front, lo, hi), last);
      SortedMore(Others(front, lo, hi), last);
    }
  }

  /** The two lists are exactly the rows inside and outside the range, each in key order. */
  lemma SelectedAndOthers<V>(rows: seq<(Bytes, V)>, lo: nat, hi: int, row: (Bytes, V))
    requires Sorted(rows)
    ensures row in Selected(rows, lo, hi) <==> row in rows && Wanted(row.0, lo, hi)
    ensures row in Others(rows, lo, hi) <==> row in rows && !Wanted(row.0, lo, hi)
    ensures Sorted(Selected(rows, lo, hi)) && Sorted(Others(rows, lo, hi))
    ensures |Selected(rows, lo, hi)| + |Others(rows, lo, hi)| == |rows|
  {
    InEither(rows, lo, hi, row);
    BothSorted(rows, lo, hi);
  }

  lemma {:induction false} LexTransitive(a: Bytes, b: Bytes, c: Bytes)
    requires LexLess(a, b) && LexLess(b, c)
    ensures LexLess(a, c)
  {
    if a != [] && a[0] == b[0] == c[0] {
      LexTransitive(a[1..], b[1..], c[1..]);
    }
  }

  lemma NoRows<V>(lo: nat, hi: int)
    ensures Selected<V>([], lo, hi) == [] && Others<V>([], lo, hi) == []
  {
  }

  lemma SelectedMore<V>(rows: seq<(Bytes, V)>, i: nat, lo: nat, hi: int)
    requires i < |rows|
    ensures var before := rows[..i];
            Selected(rows[..i + 1], lo, hi) ==
            if Wanted(rows[i].0, lo, hi) then Selected(before, lo, hi) + [rows[i]] else Selected(before, lo, hi)
    ensures var before := rows[..i];
            Others(rows[..i + 1], lo, hi) ==
            if Wanted(rows[i].0, lo, hi) then Others(before, lo, hi) else Others(before, lo, hi) + [rows[i]]
  {
    assert rows[..i + 1][..i] == rows[..i];
  }

  lemma {:induction false} NothingBeyond<V>(rows: seq<(Bytes, V)>, i: nat, lo: nat, hi: int)
    requires i <= |rows| && forall j | i <= j < |rows| :: !Wanted(rows[j].0, lo, hi)
    ensures Selected(rows, lo, hi) == Selected(rows[..i], lo, hi)
    ensures Others(rows, lo, hi) == Others(rows[..i], lo, hi) + rows[i..]
    decreases |rows| - i
  {
    hide Wanted, Selected, Others, LexLess;
    if i < |rows| {
      SelectedMore(rows, i, lo, hi);
      NothingBeyond(rows, i + 1, lo, hi);
      assert rows[i..] == [rows[i]] + rows[i + 1..];
    } else {
      assert rows[..i] == rows;
    }
  }

  lemma {:induction false} NothingBefore<V>(rows: seq<(Bytes, V)>, i: nat, lo: nat, hi: int)
    requires i <= |rows| && forall j | 0 <= j < i :: !Wanted(rows[j].0, lo, hi)
    ensures Selected(rows[..i], lo, hi) == []
  {
    if i > 0 {
      SelectedMore(rows, i - 1, lo, hi);
      NothingBefore(rows, i - 1, lo, hi);
    }
  }

  /** Past an 8-byte key beyond the range, nothing in the range follows. */
  lemma BreakIsExact<V>(rows: seq<(Bytes, V)>, i: nat, lo: nat, hi: int)
    requires Sorted(rows) && i < |rows| && |rows[i].0| == 8 && DecodeKey(rows[i].0) > hi
    ensures Selected(rows, lo, hi) == Selected(rows[..i], lo, hi)
    ensures Others(rows, lo, hi) == Others(rows[..i], lo, hi) + rows[i..]
  {
    forall j | i <= j < |rows| ensures !Wanted(rows[j].0, lo, hi) {
      if j > i && |rows[j].0| == 8 { OrderIsNumeric(rows[i].0, rows[j].0); }
    }
    NothingBeyond(rows, i, lo, hi);
  }

  /** In sorted rows, past a key that is not below a bound no key is. */
  lemma NoneBelow<V>(rows: seq<(Bytes, V)>, p: nat, key: Bytes)
    requires Sorted(rows) && p <= |rows| && (p < |rows| ==> !LexLess(rows[p].0, key))
    ensures forall j | p <= j < |rows| :: !LexLess(rows[j].0, key)
  {
    forall j | p <= j < |rows| ensures !LexLess(rows[j].0, key) {
      if j > p && LexLess(rows[j].0, key) { LexTransitive(rows[p].0, rows[j].0, key); }
    }
  }

  /** Position an iterator at the first key not below the start key. */
  method Seek<V>(rows: seq<(Bytes, V)>, start: U64) returns (p: nat)
    requires Sorted(rows)
    ensures p <= |rows|
    ensures forall j | 0 <= j < p :: LexLess(rows[j].0, Key(start))
    ensures forall j | p <= j < |rows| :: !LexLess(rows[j].0, Key(start))
    ensures forall j | 0 <= j < p && |rows[j].0| == 8 :: DecodeKey(rows[j].0) < start
    ensures forall j | p <= j < |rows| && |rows[j].0| == 8 :: DecodeKey(rows[j].0) >= start
  {
    var key := Key(start);
    KeysRoundTripAndSort(start, start);
    p := 0;
    while p < |rows| && LexLess(rows[p].0, key)
      invariant p <= |rows|
      invariant forall j | 0 <= j < p :: LexLess(rows[j].0, key)
      invariant forall j | 0 <= j < p && |rows[j].0| == 8 :: DecodeKey(rows[j].0) < start
    {
      if |rows[p].0| == 8 { OrderIsNumeric(rows[p].0, key); }
      p := p + 1;
    }
    NoneBelow(rows, p, key);
    forall j | p <= j < |rows| && |rows[j].0| == 8 ensures DecodeKey(rows[j].0) >= start {
      OrderIsNumeric(rows[j].0, key);
    }
  }

  // ---------------------------------------------------------------- checkpoints

  /** `get_checkpoints_in_range`: exactly the checkpoints of the epochs asked for, in ascending order. */
  method CheckpointsInRange<V>(rows: seq<(Bytes, V)>, start: U64, end: U64) returns (found: seq<(Bytes, V)>)
    requires Sorted(rows)
    ensures found == Selected(rows, start, end)
  {
    if start > end {
      NothingBefore(rows, |rows|, start, end);
      assert rows[..|rows|] == rows;
      return [];
    }
    var p := Seek(rows, start);
    NothingBefore(rows, p, start, end);
    found := [];
    for i := p to |rows|
      invariant found == Selected(rows[..i], start, end)
    {
      SelectedMore(rows, i, start, end);
      if |rows[i].0| != 8 { continue; }
      if DecodeKey(rows[i].0) > end {
        BreakIsExact(rows, i, start, end);
        return;
      }
      found := found + [rows[i]];
    }
    assert rows[..|rows|] == rows;
  }

  /**
   `get_latest_checkpoint`: the row with the greatest key; when that is an epoch key, the highest epoch there is,
   whatever foreign keys the family holds besides.
   */
  method LatestCheckpoint<V>(rows: seq<(Bytes, V)>) returns (latest: Option<(Bytes, V)>)
    requires Sorted(rows)
    ensures latest.None? <==> rows == []
    ensures latest.Some? ==> latest.value in rows
    ensures latest.Some? ==>
              forall i | 0 <= i < |rows| :: rows[i] == latest.value || LexLess(rows[i].0, latest.value.0)
    ensures latest.Some? && |latest.value.0| == 8 ==>
              forall i | 0 <= i < |rows| && |rows[i].0| == 8 :: DecodeKey(rows[i].0) <= DecodeKey(latest.value.0)
  {
    if rows == [] { return None; }
    var last := rows[|rows| - 1];
    forall i | 0 <= i < |rows| && |rows[i].0| == |last.0| == 8 ensures DecodeKey(rows[i].0) <= DecodeKey(last.0) {
      OrderIsNumeric(rows[i].0, last.0);
    }
    return Some(last);
  }

  /** `prune_checkpoints_before_epoch`: a writable store deletes and counts exactly the epochs below the bound. */
  method PruneCheckpoints<V>(rows: seq<(Bytes, V)>, epoch: U64, readOnly: bool)
    returns (rest: seq<(Bytes, V)>, r: Result<nat>)
    requires Sorted(rows)
    ensures readOnly ==> rest == rows && r == Err(ReadOnly)
    ensures !readOnly ==> rest == Others(rows, 0, epoch - 1) && r == Ok(|Selected(rows, 0, epoch - 1)|)
  {
    hide Sorted, Selected, Others, LexLess;
    if readOnly { return rows, Err(ReadOnly); }
    NoRows<V>(0, epoch - 1);
    assert rows[..0] == [];
    if epoch == 0 {
      NothingBeyond(rows, 0, 0, epoch - 1);
      return rows, Ok(0);
    }
    rest := [];
    var count := 0;
    for i := 0 to |rows|
      invariant rest == Others(rows[..i], 0, epoch - 1)
      invariant count == |Selected(rows[..i], 0, epoch - 1)|
    {
      SelectedMore(rows, i, 0, epoch - 1);
      if |rows[i].0| != 8 {
        rest := rest + [rows[i]];
        continue;
      }
      if DecodeKey(rows[i].0) >= epoch {
        BreakIsExact(rows, i, 0, epoch - 1);
        return rest + rows[i..], Ok(count);
      }
      count := count + 1;
    }
    assert rows[..|rows|] == rows;
    r := Ok(count);
  }

  // ---------------------------------------------------------------- canonical stream

  /** The iteration of CF_CANONICAL: one row per canonical height, under its big-endian key. */
  ghost predicate IteratesCanonical(rows: seq<(Bytes, Hash)>, canonical: Rows) {
    && Sorted(rows)
    && (forall i | 0 <= i < |rows| ::
          |rows[i].0| == 8 && DecodeKey(rows[i].0) in canonical && canonical[DecodeKey(rows[i].0)] == rows[i].1)
    && (forall h | h in canonical :: exists i | 0 <= i < |rows| :: rows[i].0 == Key(h))
  }

  /** The canonical rows at lo, ..., hi-1, ascending. */
  function Ascending(canonical: Rows, lo: nat, hi: nat): (r: seq<(Height, Hash)>)
    requires hi <= SLOT_LIMIT
    decreases hi - lo
  {
    if hi <= lo then []
    else if hi - 1 in canonical then Ascending(canonical, lo, hi - 1) + [(hi - 1, canonical[hi - 1])]
    else Ascending(canonical, lo, hi - 1)
  }

  /** The keys an iterator bounded by the range yields. */
  predicate InWindow(key: Bytes, start: Height, end: Height) {
    !LexLess(key, Key(start)) && LexLess(key, Key(end + 1))
  }

  ghost predicate CleanWindow(rows: seq<(Bytes, Hash)>, start: Height, end: Height) {
    forall i | 0 <= i < |rows| && InWindow(rows[i].0, start, end) :: |rows[i].0| == 8
  }

  lemma WindowEnds(rows: seq<(Bytes, Hash)>, i: nat, start: Height, end: Height)
    requires Sorted(rows) && i < |rows| && !LexLess(rows[i].0, Key(end + 1))
    ensures forall j | i <= j < |rows| :: !InWindow(rows[j].0, start, end)
    ensures Selected(rows, start, end) == Selected(rows[..i], start, end)
  {
    hide Selected;
    NoneBelow(rows, i, Key(end + 1));
    KeysRoundTripAndSort(end + 1, end + 1);
    forall j | i <= j < |rows| ensures !Wanted(rows[j].0, start, end) {
      if |rows[j].0| == 8 { OrderIsNumeric(rows[j].0, Key(end + 1)); }
    }
    NothingBeyond(rows, i, start, end);
  }

  /**
   Phase one of `stream_blocks_in_range`: an iterator bounded below and above, pairs collected until it ends. The
   rows of the range, or an error exactly when the iterator meets a key that is not 8 bytes long.
   */
  method StreamPairs(rows: seq<(Bytes, Hash)>, start: Height, end: Height) returns (r: Result<seq<(Height, Hash)>>)
    requires Sorted(rows)
    ensures start > end ==> r == Ok([])
    ensures start <= end ==>
              r == if CleanWindow(rows, start, end) then Ok(Decoded(Selected(rows, start, end))) else Err(Malformed)
  {
    hide Sorted, Selected, Decoded, LexLess, FromBigEndian, BigEndian;
    if start > end { return Ok([]); }
    var p := Seek(rows, start);
    NothingBefore(rows, p, start, end);
    var pairs := [];
    assert Decoded([]) == [] by { DecodedNothing(); }
    KeysRoundTripAndSort(end + 1, end + 1);
    for i := p to |rows|
      invariant forall j | 0 <= j < i && InWindow(rows[j].0, start, end) :: |rows[j].0| == 8
      invariant pairs == Decoded(Selected(rows[..i], start, end))
    {
      if !LexLess(rows[i].0, Key(end + 1)) {
        WindowEnds(rows, i, start, end);
        return Ok(pairs);
      }
      if |rows[i].0| != 8 {
        assert InWindow(rows[i].0, start, end);
        return Err(Malformed);
      }
      OrderIsNumeric(rows[i].0, Key(end + 1));
      PairAdded(rows, i, start, end);
      pairs := pairs + [(DecodeKey(rows[i].0), rows[i].1)];
    }
    assert rows[..|rows|] == rows;
    return Ok(pairs);
  }

  /** Rows as (height, hash) pairs. */
  function Decoded(rows: seq<(Bytes, Hash)>): (r: seq<(Height, Hash)>) {
    if rows == [] then []
    else Decoded(rows[..|rows| - 1]) + DecodedRow(rows[|rows| - 1])
  }

  function DecodedRow(row: (Bytes, Hash)): (r: seq<(Height, Hash)>) {
    if |row.0| == 8 && DecodeKey(row.0) < SLOT_LIMIT then [(DecodeKey(row.0), row.1)] else []
  }

  lemma DecodedMore(rows: seq<(Bytes, Hash)>, row: (Bytes, Hash))
    ensures Decoded(rows + [row]) == Decoded(rows) + DecodedRow(row)
  {
    assert (rows + [row])[..|rows|] == rows;
  }

  lemma PairAdded(rows: seq<(Bytes, Hash)>, i: nat, start: Height, end: Height)
    requires i < |rows| && Wanted(rows[i].0, start, end)
    ensures Decoded(Selected(rows[..i + 1], start, end)) ==
            Decoded(Selected(rows[..i], start, end)) + [(DecodeKey(rows[i].0), rows[i].1)]
  {
    hide Selected, Decoded;
    SelectedMore(rows, i, start, end);
    DecodedMore(Selected(rows[..i], start, end), rows[i]);
  }

  /** Rows of canonical heights, in order. */
  ghost predicate FromCanonical(rows: seq<(Bytes, Hash)>, canonical: Rows) {
    && Sorted(rows)
    && forall i | 0 <= i < |rows| ::
         |rows[i].0| == 8 && DecodeKey(rows[i].0) in canonical && canonical[DecodeKey(rows[i].0)] == rows[i].1
  }

  ghost predicate Hit(rows: seq<(Bytes, Hash)>, n: nat, h: Height)
    requires n <= |rows| && forall i | 0 <= i < |rows| :: |rows[i].0| == 8
  {
    exists i | 0 <= i < n :: DecodeKey(rows[i].0) == h
  }

  lemma HitMore(rows: seq<(Bytes, Hash)>, canonical: Rows, n: nat, h: Height)
    requires FromCanonical(rows, canonical) && n < |rows|
    ensures Hit(rows, n + 1, h) <==> Hit(rows, n, h) || DecodeKey(rows[n].0) == h
    ensures Hit(rows, n, h) ==> DecodeKey(rows[n].0) > h
  {
    forall i | 0 <= i < n ensures DecodeKey(rows[i].0) < DecodeKey(rows[n].0) {
      OrderIsNumeric(rows[i].0, rows[n].0);
    }
  }

  /** Growing the range by one height adds that height's row, if any, at the end. */
  lemma {:induction false} SelectedGrows(rows: seq<(Bytes, Hash)>, canonical: Rows, lo: nat, hi: Height, n: nat)
    requires FromCanonical(rows, canonical) && n <= |rows| && lo <= hi
    ensures !Hit(rows, n, hi) ==> Decoded(Selected(rows[..n], lo, hi)) == Decoded(Selected(rows[..n], lo, hi - 1))
    ensures Hit(rows, n, hi) ==> hi in canonical
    ensures Hit(rows, n, hi) ==>
              Decoded(Selected(rows[..n], lo, hi)) == Decoded(Selected(rows[..n], lo, hi - 1)) + [(hi, canonical[hi])]
    decreases n
  {
    if n > 0 {
      var m, k := n - 1, DecodeKey(rows[n - 1].0);
      SelectedGrows(rows, canonical, lo, hi, m);
      HitMore(rows, canonical, m, hi);
      SelectedMore(rows, m, lo, hi);
      SelectedMore(rows, m, lo, hi - 1);
      DecodedMore(Selected(rows[..m], lo, hi), rows[m]);
      DecodedMore(Selected(rows[..m], lo, hi - 1), rows[m]);
      var wide, narrow := Decoded(Selected(rows[..m], lo, hi)), Decoded(Selected(rows[..m], lo, hi - 1));
      if k == hi {
        assert wide == narrow;
        assert Decoded(Selected(rows[..n], lo, hi - 1)) == narrow;
      } else if k > hi {
        assert Decoded(Selected(rows[..n], lo, hi - 1)) == narrow;
        assert Decoded(Selected(rows[..n], lo, hi)) == wide;
      }
    }
  }

  /** The scan yields exactly the canonical rows of the range, ascending. */
  lemma {:induction false} ScanIsAscending(rows: seq<(Bytes, Hash)>, canonical: Rows, lo: nat, hi: nat)
    requires IteratesCanonical(rows, canonical) && hi <= SLOT_LIMIT
    ensures Decoded(Selected(rows, lo, hi - 1)) == Ascending(canonical, lo, hi)
    decreases hi - lo
  {
    hide Selected, Decoded, FromCanonical, IteratesCanonical, Hit;
    assert rows[..|rows|] == rows;
    if hi <= lo {
      assert Selected(rows, lo, hi - 1) == [] by { EmptyRange(rows, lo, hi - 1); }
      assert Decoded([]) == [] by { DecodedNothing(); }
    } else {
      ScanIsAscending(rows, canonical, lo, hi - 1);
      assert FromCanonical(rows, canonical) by { IterationIsCanonical(rows, canonical); }
      SelectedGrows(rows, canonical, lo, hi - 1, |rows|);
      HitIsRow(rows, canonical, hi - 1);
    }
  }

  lemma EmptyRange(rows: seq<(Bytes, Hash)>, lo: nat, hi: int)
    requires hi < lo
    ensures Selected(rows, lo, hi) == []
  {
    NothingBefore(rows, |rows|, lo, hi);
    assert rows[..|rows|] == rows;
  }

  lemma DecodedNothing()
    ensures Decoded([]) == []
  {
  }

  lemma IterationIsCanonical(rows: seq<(Bytes, Hash)>, canonical: Rows)
    requires IteratesCanonical(rows, canonical)
    ensures FromCanonical(rows, canonical)
  {
  }

  lemma HitIsRow(rows: seq<(Bytes, Hash)>, canonical: Rows, h: Height)
    requires IteratesCanonical(rows, canonical)
    ensures Hit(rows, |rows|, h) <==> h in canonical
  {
    if h in canonical {
      var i :| 0 <= i < |rows| && rows[i].0 == Key(h);
      KeysRoundTripAndSort(h, h);
      assert DecodeKey(rows[i].0) == h;
    }
  }

  /** Phase two: one item per pair, the body or the error that it is missing. */
  function StreamItems(db: Db, pairs: seq<(Height, Hash)>): (r: seq<Result<Block>>) {
    seq(|pairs|, i requires 0 <= i < |pairs| =>
      if pairs[i].1 in db.blocks then Ok(db.blocks[pairs[i].1]) else Err(BlockNotFound(pairs[i].1)))
  }

  function Oks(blocks: seq<Block>): (r: seq<Result<Block>>) {
    seq(|blocks|, i requires 0 <= i < |blocks| => Ok(blocks[i]))
  }

  lemma RangeBlocksStep(s: Store, lo: nat, hi: nat)
    requires Coherent(s) && lo < hi <= SLOT_LIMIT && Coherent(RangeBlocks(s, lo, hi - 1).0)
    ensures Coherent(RangeBlocks(s, lo, hi).0)
    ensures RangeBlocks(s, lo, hi).1 == RangeBlocks(s, lo, hi - 1).1 + Bodies(s.db, Visible(s.db, hi - 1))
  {
    hide CacheAgrees, BinAgrees, Resolve, Looked;
    var before := RangeBlocks(s, lo, hi - 1).0;
    LookupIsVisible(before, hi - 1);
    LookedCoherent(before, hi - 1);
  }

  lemma {:induction false} RangeIsStream(s: Store, lo: nat, hi: nat)
    requires ChainOk(s) && hi <= SLOT_LIMIT
    ensures Coherent(RangeBlocks(s, lo, hi).0)
    ensures Oks(RangeBlocks(s, lo, hi).1) == StreamItems(s.db, Ascending(s.db.canonical, lo, hi))
    decreases hi - lo
  {
    hide Coherent, Chain, Resolve, Looked, Oks, StreamItems;
    if hi <= lo {
      assert Oks([]) == [] == StreamItems(s.db, []) by { NoItems(s.db); }
    } else {
      RangeIsStream(s, lo, hi - 1);
      RangeBlocksStep(s, lo, hi);
      ChainBody(s.db, hi - 1);
      var before, canonical := RangeBlocks(s, lo, hi - 1).1, s.db.canonical;
      assert before + [] == before;
      if hi - 1 in canonical {
        OksMore(before, s.db.blocks[canonical[hi - 1]]);
        ItemsMore(s.db, Ascending(canonical, lo, hi - 1), hi - 1, canonical[hi - 1]);
      }
    }
  }

  lemma NoItems(db: Db)
    ensures Oks([]) == [] && StreamItems(db, []) == []
  {
  }

  lemma OksMore(blocks: seq<Block>, b: Block)
    ensures Oks(blocks + [b]) == Oks(blocks) + [Ok(b)]
  {
  }

  lemma ItemsMore(db: Db, pairs: seq<(Height, Hash)>, h: Height, x: Hash)
    requires x in db.blocks
    ensures StreamItems(db, pairs + [(h, x)]) == StreamItems(db, pairs) + [Ok(db.blocks[x])]
  {
  }

  /** In a chain a height is visible exactly when it has a row, and then its body is stored. */
  lemma ChainBody(db: Db, h: Height)
    requires Chain(db)
    ensures Visible(db, h) == Row(db.canonical, h)
    ensures h in db.canonical ==> db.canonical[h] in db.blocks
  {
  }

  /** A family that holds the canonical rows and nothing else raises no scan error. */
  lemma CanonicalWindowIsClean(rows: seq<(Bytes, Hash)>, canonical: Rows, start: Height, end: Height)
    requires IteratesCanonical(rows, canonical)
    ensures CleanWindow(rows, start, end)
  {
    hide LexLess, DecodeKey;
  }

  /**
   In a chain the stream over any range of heights meets no malformed key and yields, without errors, exactly the
   blocks that `get_blocks_in_range` collects by point lookups, in the same order.
   */
  lemma StreamEqualsPointLookups(s: Store, rows: seq<(Bytes, Hash)>, start: Height, end: Height)
    requires ChainOk(s) && IteratesCanonical(rows, s.db.canonical)
    ensures CleanWindow(rows, start, end)
    ensures StreamItems(s.db, Decoded(Selected(rows, start, end))) == Oks(RangeBlocks(s, start, end + 1).1)
  {
    hide ChainOk, IteratesCanonical, CleanWindow;
    CanonicalWindowIsClean(rows, s.db.canonical, start, end);
    ScanIsAscending(rows, s.db.canonical, start, end + 1);
    RangeIsStream(s, start, end + 1);
  }

  /** In any store the stream has one item per canonical row: the body, or an error that names the hash without one. */
  lemma StreamNamesMissingBodies(db: Db, rows: seq<(Bytes, Hash)>, start: Height, end: Height)
    requires IteratesCanonical(rows, db.canonical)
    ensures CleanWindow(rows, start, end)
    ensures var items, listed := StreamItems(db, Decoded(Selected(rows, start, end))), Ascending(db.canonical, start, end + 1);
            && |items| == |listed|
            && forall i | 0 <= i < |items| ::
                 && (items[i].Ok? <==> listed[i].1 in db.blocks)
                 && (items[i].Ok? ==> items[i].value == db.blocks[listed[i].1])
                 && (items[i].Err? ==> items[i].error == BlockNotFound(listed[i].1))
  {
    hide IteratesCanonical, CleanWindow, Selected, Decoded, Ascending;
    CanonicalWindowIsClean(rows, db.canonical, start, end);
    ScanIsAscending(rows, db.canonical, start, end + 1);
  }

  /**
   `stream_blocks_in_range` as a whole: over any sorted family one item per row of the range, or the scan error; in a
   chain, over the family of its rows, the blocks of `get_blocks_in_range`.
   */
  method StreamBlocks(s: Store, rows: seq<(Bytes, Hash)>, start: Height, end: Height)
    returns (r: Result<seq<Result<Block>>>)
    requires Sorted(rows)
    ensures start <= end && !CleanWindow(rows, start, end) ==> r == Err(Malformed)
    ensures start > end || CleanWindow(rows, start, end) ==>
              r == Ok(StreamItems(s.db, if start > end then [] else Decoded(Selected(rows, start, end))))
    ensures ChainOk(s) && IteratesCanonical(rows, s.db.canonical) ==> r == Ok(Oks(RangeBlocks(s, start, end + 1).1))
  {
    hide Sorted, ChainOk, IteratesCanonical, CleanWindow, Selected, Decoded;
    ghost var chain := ChainOk(s) && IteratesCanonical(rows, s.db.canonical);
    if chain { StreamEqualsPointLookups(s, rows, start, end); }
    var scanned := StreamPairs(rows, start, end);
    match scanned {
      case Err(e) => r := Err(e);
      case Ok(pairs) =>
        var items := [];
        for i := 0 to |pairs|
          invariant items == StreamItems(s.db, pairs[..i])
        {
          var x := pairs[i].1;
          items := items + [if x in s.db.blocks then Ok(s.db.blocks[x]) else Err(BlockNotFound(x))];
        }
        assert pairs[..|pairs|] == pairs;
        r := Ok(items);
    }
  }
}
