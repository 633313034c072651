/** The height-to-hash sidecar as the store holds it, and its rebuild from the canonical rows (src/canonical/mmap.rs). */
module CanonicalBin {
  import opened ChainTypes
  import opened DenseFile

  /** Writable mapping, read-only mapping, or no mapping. */
  datatype Bin = Rw(bytes: seq<Byte>) | Ro(bytes: seq<Byte>) | Disabled

  function ReadBin(bin: Bin, h: Height): (r: Option<Hash>) {
    if bin.Disabled? then None else View(bin.bytes, h)
  }

  function ExtendWrite(bin: Bin, h: Height, x: Hash): (r: Bin) {
    if bin.Rw? then Rw(PutSlot(bin.bytes, h, x)) else bin
  }

  function TruncateTo(bin: Bin, h: Height): (r: Bin) {
    if bin.Rw? then Rw(SetLen(bin.bytes, (h + 1) * 32)) else bin
  }

  predicate Mappable(bin: Bin) { bin.Rw? ==> Aligned(bin.bytes) }

  lemma ExtendWriteReads(bin: Bin, h: Height, x: Hash)
    requires Mappable(bin)
    ensures Mappable(ExtendWrite(bin, h, x))
    ensures bin.Rw? ==> forall k: Height ::
              ReadBin(ExtendWrite(bin, h, x), k) == if k == h then Nonzero(x) else ReadBin(bin, k)
    ensures !bin.Rw? ==> ExtendWrite(bin, h, x) == bin
  {
    if bin.Rw? {
      PutSlotUpdates(bin.bytes, h, x);
      forall k: Height
        ensures View(PutSlot(bin.bytes, h, x), k) == if k == h then Nonzero(x) else View(bin.bytes, k)
      {
        PutSlotView(bin.bytes, h, x, k);
      }
    }
  }

  lemma TruncateReads(bin: Bin, h: Height)
    requires Mappable(bin)
    ensures Mappable(TruncateTo(bin, h))
    ensures bin.Rw? ==> forall k: Height ::
              ReadBin(TruncateTo(bin, h), k) == if k <= h then ReadBin(bin, k) else None
    ensures !bin.Rw? ==> TruncateTo(bin, h) == bin
  {
    if bin.Rw? {
      SetLenResizes(bin.bytes, h + 1);
      forall k: Height
        ensures View(SetLen(bin.bytes, (h + 1) * 32), k) == if k <= h then View(bin.bytes, k) else None
      {
        TruncateView(bin.bytes, h, k);
      }
    }
  }

  // ---------------------------------------------------------------- rebuild

  type Rows = map<Height, Hash>

  /** One past the highest canonical height. */
  ghost function Span(rows: Rows): (r: nat)
    ensures forall h | h in rows :: h < r
    ensures r > 0 ==> r - 1 in rows
  {
    if rows == map[] then 0
    else
      var h :| h in rows;
      var rest := Span(rows - {h});
      assert forall k | k in rows :: k == h || k in rows - {h};
      if h + 1 > rest then h + 1 else rest
  }

  lemma SpanIsLeast(rows: Rows, n: nat)
    requires forall h | h in rows :: h < n
    requires n > 0 ==> n - 1 in rows
    ensures n == Span(rows)
  {
  }

  /** The file the canonical rows call for: each row in its slot, zeros in the gaps. */
  ghost function DenseBytes(rows: Rows): (r: seq<Byte>)
    ensures |r| == 32 * Span(rows)
  {
    seq(32 * Span(rows), i requires 0 <= i < 32 * Span(rows) => if i / 32 in rows then rows[i / 32][i % 32] else 0)
  }

  lemma DenseWindow(rows: Rows, h: Height)
    requires h < Span(rows)
    ensures Window(DenseBytes(rows), h) == if h in rows then rows[h] else ZERO
  {
    var bytes := DenseBytes(rows);
    var w := Window(bytes, h);
    forall k | 0 <= k < 32
      ensures w[k] == if h in rows then rows[h][k] else 0
    {
      assert w[k] == bytes[h * 32 + k];
    }
    assert h !in rows ==> w == ZERO;
    assert h in rows ==> w == rows[h];
  }

  lemma DenseSlots(rows: Rows, h: Height)
    ensures Aligned(DenseBytes(rows))
    ensures View(DenseBytes(rows), h) == if h in rows then Nonzero(rows[h]) else None
    ensures h < Span(rows) ==> Slots(DenseBytes(rows))[h] == if h in rows then rows[h] else ZERO
  {
    var slots := Slots(DenseBytes(rows));
    ViewIsSlot(DenseBytes(rows), h);
    assert |slots| == Span(rows);
    if h < Span(rows) {
      DenseWindow(rows, h);
      assert slots[h] == Window(DenseBytes(rows), h);
    }
  }

  /** The canonical rows an iteration of CF_CANONICAL yields. */
  function RowMap(rows: seq<(Height, Hash)>): (r: Rows) {
    if rows == [] then map[]
    else RowMap(rows[..|rows| - 1])[rows[|rows| - 1].0 := rows[|rows| - 1].1]
  }

  /** `dense_bytes_from_cf`: find the highest height, zero a buffer of that many slots, copy each row in. */
  method DenseBytesFromRows(rows: seq<(Height, Hash)>) returns (buf: array<Byte>)
    ensures fresh(buf) && buf[..] == DenseBytes(RowMap(rows))
  {
    var slots: nat := 0;
    for i := 0 to |rows|
      invariant slots == Span(RowMap(rows[..i]))
    {
      assert rows[..i + 1][..i] == rows[..i];
      var next: nat := rows[i].0;
      if next + 1 > slots { slots := next + 1; }
      SpanIsLeast(RowMap(rows[..i + 1]), slots);
    }
    assert rows[..|rows|] == rows;
    buf := new Byte[slots * 32](_ => 0);
    for i := 0 to |rows|
      invariant forall h | h in RowMap(rows[..i]) :: h < slots
      invariant forall j | 0 <= j < buf.Length ::
                  buf[j] == if j / 32 in RowMap(rows[..i]) then RowMap(rows[..i])[j / 32][j % 32] else 0
    {
      assert rows[..i + 1][..i] == rows[..i];
      var (h, hash) := rows[i];
      RowsAppear(rows, i);
      ghost var before, after := RowMap(rows[..i]), RowMap(rows[..i + 1]);
      assert after == before[h := hash];
      CopySlot(buf, h, hash);
    }
  }

  method CopySlot(buf: array<Byte>, h: Height, hash: Hash)
    requires (h + 1) * 32 <= buf.Length
    modifies buf
    ensures forall j | 0 <= j < buf.Length :: buf[j] == if j / 32 == h then hash[j % 32] else old(buf[j])
  {
    forall k | 0 <= k < 32 {
      buf[h * 32 + k] := hash[k];
    }
    forall j | 0 <= j < buf.Length
      ensures buf[j] == if j / 32 == h then hash[j % 32] else old(buf[j])
    {
      if j / 32 == h {
        assert j == h * 32 + j % 32;
      }
    }
  }

  lemma RowsAppear(rows: seq<(Height, Hash)>, i: nat)
    requires i < |rows|
    ensures rows[i].0 in RowMap(rows)
  {
    if i < |rows| - 1 {
      RowsAppear(rows[..|rows| - 1], i);
    }
  }

  /** `open_synced` as a function of the rows and whatever the file held (`None`: no file). */
  ghost function OpenSynced(rows: Rows, onDisk: Option<seq<Byte>>, writable: bool): (r: Bin) {
    var expected := DenseBytes(rows);
    var found := if onDisk.Some? then onDisk.value else [];
    if found != expected then
      if writable then Rw(expected) else Disabled
    else if expected == [] && onDisk.None? then
      if writable then Rw([]) else Disabled
    else
      if writable then Rw(found) else Ro(found)
  }

  /**
   Recovery from arbitrary corruption: whatever bytes were on disk, a writable open leaves exactly one slot per
   height up to the highest row, equal to the row or zero; a read-only open maps those same bytes or nothing.
   */
  lemma RecoversFromAnyFile(rows: Rows, onDisk: Option<seq<Byte>>, writable: bool, h: Height)
    ensures var bin := OpenSynced(rows, onDisk, writable);
            && Mappable(bin)
            && (writable ==> bin == Rw(DenseBytes(rows)))
            && (!writable ==> bin == if onDisk == Some(DenseBytes(rows)) then Ro(DenseBytes(rows)) else Disabled)
            && (!bin.Disabled? ==>
                  && |bin.bytes| == 32 * Span(rows)
                  && (h < Span(rows) ==> Slots(bin.bytes)[h] == if h in rows then rows[h] else ZERO)
                  && ReadBin(bin, h) == if h in rows then Nonzero(rows[h]) else None)
  {
    DenseSlots(rows, h);
  }

  // ---------------------------------------------------------------- the sidecar as an object

  datatype Mode = Writable | ReadOnlyMap | Off

  /** `CanonicalBin`: a mapped file and the way it may be used. */
  class Sidecar {
    var mode: Mode
    const file: MappedFile

    ghost function Value(): (r: Bin)
      reads this, file, file.data
    {
      match mode
      case Writable => Rw(file.Bytes())
      case ReadOnlyMap => Ro(file.Bytes())
      case Off => Disabled
    }

    /** `open_synced`: compare the file with the rebuilt bytes, then rewrite, disable or map it. */
    constructor (rows: seq<(Height, Hash)>, onDisk: Option<seq<Byte>>, writable: bool)
      ensures Value() == OpenSynced(RowMap(rows), onDisk, writable)
      ensures fresh(file) && fresh(file.data)
    {
      var buf := DenseBytesFromRows(rows);
      var expected := buf[..];
      var found := if onDisk.Some? then onDisk.value else [];
      var usable := true;
      if found != expected {
        usable := writable;
        found := expected;
      } else if expected == [] && onDisk.None? {
        usable := writable;
      }
      var mapped := new MappedFile(found);
      file := mapped;
      mode := if !usable then Off else if writable then Writable else ReadOnlyMap;
    }

    method Read(h: Height) returns (r: Option<Hash>)
      ensures r == ReadBin(Value(), h)
    {
      if mode.Off? { return None; }
      r := file.ReadSlot(h);
    }

    method Extend(h: Height, x: Hash)
      modifies file, file.data
      ensures Value() == ExtendWrite(old(Value()), h, x)
      ensures file.data == old(file.data) || fresh(file.data)
    {
      if mode.Writable? {
        var ok := file.Write(h, x);
      }
    }

    method Truncate(h: Height)
      modifies file
      ensures Value() == TruncateTo(old(Value()), h)
      ensures file.data == old(file.data) || fresh(file.data)
    {
      if mode.Writable? {
        var ok := file.Cut(h);
      }
    }

    method Disable()
      modifies this`mode
      ensures Value() == Disabled
    {
      mode := Off;
    }
  }
}
