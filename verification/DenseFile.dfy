/**
 `canonical.bin`: the dense array of 32-byte hashes indexed by height (src/canonical/mmap.rs).

 The file is a byte sequence; every offset is computed in 64-bit arithmetic as the code does, with its checked
 and its unchecked operations kept apart.
 */
module DenseFile {
  import opened ChainTypes

  // ---------------------------------------------------------------- machine arithmetic

  function CheckedAdd(a: U64, b: U64): (r: Option<U64>) {
    if a + b < U64_SIZE then Some(a + b) else None
  }

  function CheckedMul(a: U64, b: U64): (r: Option<U64>) {
    if a * b < U64_SIZE then Some(a * b) else None
  }

  /** `(height + 1) * 32` as `write_hash` and `truncate` compute it. */
  function BytesNeeded(height: U64): (r: Option<U64>)
    ensures r.Some? <==> height < SLOT_LIMIT
    ensures r.Some? ==> r.value == (height + 1) * 32
  {
    match CheckedAdd(height, 1)
    case None => None
    case Some(n) => CheckedMul(n, 32)
  }

  // ---------------------------------------------------------------- the file as bytes

  /** `File::set_len`: cut the tail off or extend with zero bytes. */
  function SetLen(bytes: seq<Byte>, n: nat): (r: seq<Byte>)
    ensures |r| == n
  {
    if n <= |bytes| then bytes[..n] else bytes + seq(n - |bytes|, _ => 0)
  }

  /** What a read of the mapped file does; `Overflow` is the reported error, `Panic` the unchecked `offset + 32`. */
  datatype Read = Found(hash: Hash) | Absent | Overflow | Panic

  function ReadHash(bytes: seq<Byte>, height: U64): (r: Read) {
    match CheckedMul(height, 32)
    case None => Overflow
    case Some(off) =>
      if off + 32 >= U64_SIZE then Panic
      else if off + 32 > |bytes| then Absent
      else Found(bytes[off..off + 32])
  }

  /** `read_slot_nonzero_bytes`: an all-zero slot reads as absent. */
  function ReadNonzero(bytes: seq<Byte>, height: U64): (r: Read) {
    match CheckedMul(height, 32)
    case None => Absent
    case Some(off) =>
      if off + 32 >= U64_SIZE then Panic
      else if off + 32 > |bytes| || bytes[off..off + 32] == ZERO then Absent
      else Found(bytes[off..off + 32])
  }

  function PutSlot(bytes: seq<Byte>, height: Height, hash: Hash): (r: seq<Byte>) {
    var need := (height + 1) * 32;
    var grown := if need > |bytes| then SetLen(bytes, need) else bytes;
    grown[..height * 32] + hash + grown[need..]
  }

  function WriteHash(bytes: seq<Byte>, height: U64, hash: Hash): (r: Option<seq<Byte>>) {
    if BytesNeeded(height).None? then None else Some(PutSlot(bytes, height, hash))
  }

  function Truncate(bytes: seq<Byte>, height: U64): (r: Option<seq<Byte>>) {
    match BytesNeeded(height)
    case None => None
    case Some(n) => Some(SetLen(bytes, n))
  }

  /** The nonzero slot at a height, on heights a slot can have. */
  function View(bytes: seq<Byte>, h: Height): (r: Option<Hash>) {
    if (h + 1) * 32 <= |bytes| && bytes[h * 32..(h + 1) * 32] != ZERO
    then Some(bytes[h * 32..(h + 1) * 32])
    else None
  }

  /**
   Every read is safe except at one height: 2^59 - 1, where `height * 32` still fits but `offset + 32` does not.
   Below it the nonzero read is the slot; above it the read reports absence, whatever the file holds.
   */
  lemma ReadPanicsExactlyAtTheLimit(bytes: seq<Byte>, height: U64)
    ensures ReadNonzero(bytes, height) == Panic <==> height == SLOT_LIMIT
    ensures ReadHash(bytes, height) == Panic <==> height == SLOT_LIMIT
    ensures ReadHash(bytes, height) == Overflow <==> height > SLOT_LIMIT
    ensures height < SLOT_LIMIT ==>
              ReadNonzero(bytes, height) ==
              match View(bytes, height) { case Some(x) => Found(x) case None => Absent }
    ensures height > SLOT_LIMIT ==> ReadNonzero(bytes, height) == Absent
  {
    if height < SLOT_LIMIT {
      assert (height + 1) * 32 == height * 32 + 32;
    }
  }

  // ---------------------------------------------------------------- refinement of a sequence of slots

  predicate Aligned(bytes: seq<Byte>) { |bytes| % 32 == 0 }

  /** The 32-byte window of slot i. */
  function Window(bytes: seq<Byte>, i: nat): (r: Hash)
    requires (i + 1) * 32 <= |bytes|
  {
    bytes[i * 32..(i + 1) * 32]
  }

  function Slots(bytes: seq<Byte>): (r: seq<Hash>) {
    seq(|bytes| / 32, i requires 0 <= i < |bytes| / 32 => Window(bytes, i))
  }

  function Resized(s: seq<Hash>, n: nat): (r: seq<Hash>)
    ensures |r| == n
  {
    if n <= |s| then s[..n] else s + seq(n - |s|, _ => ZERO)
  }

  lemma SetLenKeeps(bytes: seq<Byte>, n: nat, i: nat)
    requires i < n && (i + 1) * 32 <= |bytes|
    ensures (i + 1) * 32 <= n * 32 && Window(SetLen(bytes, n * 32), i) == Window(bytes, i)
  {
    var after := SetLen(bytes, n * 32);
    assert forall k | i * 32 <= k < (i + 1) * 32 :: after[k] == bytes[k];
  }

  lemma SetLenResizes(bytes: seq<Byte>, n: nat)
    requires Aligned(bytes)
    ensures Aligned(SetLen(bytes, n * 32))
    ensures Slots(SetLen(bytes, n * 32)) == Resized(Slots(bytes), n)
  {
    var after := SetLen(bytes, n * 32);
    forall i | 0 <= i < n
      ensures Window(after, i) == Resized(Slots(bytes), n)[i]
    {
      if i >= |bytes| / 32 {
        assert Window(after, i) == ZERO;
      } else {
        SetLenKeeps(bytes, n, i);
      }
    }
  }

  lemma PutSlotUpdates(bytes: seq<Byte>, h: Height, hash: Hash)
    requires Aligned(bytes)
    ensures Aligned(PutSlot(bytes, h, hash))
    ensures var s := Slots(bytes);
            Slots(PutSlot(bytes, h, hash)) == Resized(s, if h < |s| then |s| else h + 1)[h := hash]
  {
    var s := Slots(bytes);
    var n := if h < |s| then |s| else h + 1;
    SetLenResizes(bytes, n);
    var grown := SetLen(bytes, n * 32);
    assert |bytes| == |s| * 32;
    assert n * 32 == |bytes| ==> grown == bytes;
    var after := PutSlot(bytes, h, hash);
    assert after == grown[..h * 32] + hash + grown[(h + 1) * 32..];
    forall i | 0 <= i < n
      ensures Window(after, i) == if i == h then hash else Window(grown, i)
    {
      PutWindow(grown, h, hash, i);
    }
    assert forall i | 0 <= i < n :: Slots(grown)[i] == Window(grown, i);
  }

  lemma PutWindow(grown: seq<Byte>, h: nat, hash: Hash, i: nat)
    requires (h + 1) * 32 <= |grown| && (i + 1) * 32 <= |grown|
    ensures var after := grown[..h * 32] + hash + grown[(h + 1) * 32..];
            |after| == |grown| && Window(after, i) == if i == h then hash else Window(grown, i)
  {
    var after := grown[..h * 32] + hash + grown[(h + 1) * 32..];
    if i < h {
      assert (i + 1) * 32 <= h * 32;
    } else if i > h {
      assert (h + 1) * 32 <= i * 32;
    }
    assert forall k | 0 <= k < 32 :: Window(after, i)[k] == after[i * 32 + k];
    assert forall k | 0 <= k < 32 :: Window(grown, i)[k] == grown[i * 32 + k];
  }

  /** One mutation of the file; a rejected one leaves the bytes alone. */
  datatype FileOp = Write(height: U64, hash: Hash) | Cut(height: U64)

  function Accepted(before: seq<Byte>, after: Option<seq<Byte>>): (r: seq<Byte>) {
    if after.Some? then after.value else before
  }

  function StepBytes(bytes: seq<Byte>, op: FileOp): (r: seq<Byte>) {
    match op
    case Write(h, x) => Accepted(bytes, WriteHash(bytes, h, x))
    case Cut(h) => Accepted(bytes, Truncate(bytes, h))
  }

  function RunBytes(bytes: seq<Byte>, ops: seq<FileOp>): (r: seq<Byte>) {
    if ops == [] then bytes else StepBytes(RunBytes(bytes, ops[..|ops| - 1]), ops[|ops| - 1])
  }

  function StepSlots(s: seq<Hash>, op: FileOp): (r: seq<Hash>) {
    if op.height >= SLOT_LIMIT then s
    else match op
      case Write(h, x) => Resized(s, if h < |s| then |s| else h + 1)[h := x]
      case Cut(h) => Resized(s, h + 1)
  }

  function RunSlots(s: seq<Hash>, ops: seq<FileOp>): (r: seq<Hash>) {
    if ops == [] then s else StepSlots(RunSlots(s, ops[..|ops| - 1]), ops[|ops| - 1])
  }

  /** Under any sequence of writes and truncates the bytes are, slot for slot, the abstract sequence. */
  lemma {:induction false} DenseFileRefinesSlots(bytes: seq<Byte>, ops: seq<FileOp>)
    requires Aligned(bytes)
    ensures Aligned(RunBytes(bytes, ops))
    ensures Slots(RunBytes(bytes, ops)) == RunSlots(Slots(bytes), ops)
  {
    if ops != [] {
      DenseFileRefinesSlots(bytes, ops[..|ops| - 1]);
      var before := RunBytes(bytes, ops[..|ops| - 1]);
      match ops[|ops| - 1]
      case Write(h, x) => if h < SLOT_LIMIT { PutSlotUpdates(before, h, x); }
      case Cut(h) => if h < SLOT_LIMIT { SetLenResizes(before, h + 1); }
    }
  }

  /** The last write at h that no later truncate removed. */
  function Surviving(ops: seq<FileOp>, h: U64): (r: Option<Hash>) {
    if ops == [] then None
    else match ops[|ops| - 1]
      case Write(k, x) => if k == h && k < SLOT_LIMIT then Some(x) else Surviving(ops[..|ops| - 1], h)
      case Cut(m) => if m < h && m < SLOT_LIMIT then None else Surviving(ops[..|ops| - 1], h)
  }

  /** The number of slots a history leaves: truncation sets it, a write can only raise it. */
  function Extent(ops: seq<FileOp>): (r: nat) {
    if ops == [] then 0
    else match ops[|ops| - 1]
      case Write(k, _) => if k < SLOT_LIMIT && k >= Extent(ops[..|ops| - 1]) then k + 1 else Extent(ops[..|ops| - 1])
      case Cut(m) => if m < SLOT_LIMIT then m + 1 else Extent(ops[..|ops| - 1])
  }

  lemma {:induction false} SlotsHoldSurvivors(ops: seq<FileOp>, h: Height)
    ensures |RunSlots([], ops)| == Extent(ops)
    ensures Surviving(ops, h).Some? ==> h < Extent(ops)
    ensures h < Extent(ops) ==>
              RunSlots([], ops)[h] == match Surviving(ops, h) { case Some(x) => x case None => ZERO }
  {
    if ops != [] {
      SlotsHoldSurvivors(ops[..|ops| - 1], h);
    }
  }

  /** Starting from an empty file, a read returns the last surviving write; gaps read as zero or absent. */
  lemma ReadsReturnTheLastSurvivingWrite(ops: seq<FileOp>, h: Height)
    ensures |RunBytes([], ops)| == 32 * Extent(ops)
    ensures ReadHash(RunBytes([], ops), h) ==
            if h >= Extent(ops) then Absent
            else match Surviving(ops, h) { case Some(x) => Found(x) case None => Found(ZERO) }
    ensures ReadNonzero(RunBytes([], ops), h) ==
            match Surviving(ops, h) { case Some(x) => if x == ZERO then Absent else Found(x) case None => Absent }
  {
    DenseFileRefinesSlots([], ops);
    assert Slots([]) == [];
    SlotsHoldSurvivors(ops, h);
    var bytes := RunBytes([], ops);
    assert |Slots(bytes)| == |bytes| / 32;
    if h < Extent(ops) {
      assert Slots(bytes)[h] == Window(bytes, h);
      assert (h + 1) * 32 <= |bytes|;
    } else {
      assert (h + 1) * 32 > |bytes|;
    }
  }

  // ---------------------------------------------------------------- what writes do to the nonzero view

  function Nonzero(x: Hash): (r: Option<Hash>) { if x == ZERO then None else Some(x) }

  lemma ViewIsSlot(bytes: seq<Byte>, h: Height)
    ensures View(bytes, h) == if h < |Slots(bytes)| then Nonzero(Slots(bytes)[h]) else None
  {
    if h < |bytes| / 32 {
      assert (h + 1) * 32 <= |bytes|;
    } else {
      assert (h + 1) * 32 > |bytes|;
    }
  }

  lemma PutSlotView(bytes: seq<Byte>, h: Height, x: Hash, k: Height)
    requires Aligned(bytes)
    ensures View(PutSlot(bytes, h, x), k) == if k == h then Nonzero(x) else View(bytes, k)
  {
    PutSlotUpdates(bytes, h, x);
    ViewIsSlot(bytes, k);
    ViewIsSlot(PutSlot(bytes, h, x), k);
  }

  lemma TruncateView(bytes: seq<Byte>, h: Height, k: Height)
    requires Aligned(bytes)
    ensures View(SetLen(bytes, (h + 1) * 32), k) == if k <= h then View(bytes, k) else None
  {
    SetLenResizes(bytes, h + 1);
    ViewIsSlot(bytes, k);
    ViewIsSlot(SetLen(bytes, (h + 1) * 32), k);
  }

  // ---------------------------------------------------------------- the mapped file

  /** `CanonicalDenseFile`: the mapping is an array that a write fills in place and growth replaces. */
  class MappedFile {
    var data: array<Byte>

    ghost function Bytes(): seq<Byte>
      reads this, data
    {
      data[..]
    }

    constructor (contents: seq<Byte>)
      ensures Bytes() == contents && fresh(data)
    {
      data := new Byte[|contents|](i requires 0 <= i < |contents| => contents[i]);
    }

    /** Remap with a new length, keeping the common prefix. */
    method Remap(n: nat)
      modifies this
      ensures Bytes() == SetLen(old(Bytes()), n) && fresh(data)
    {
      var before := data[..];
      var after := SetLen(before, n);
      data := new Byte[n](i requires 0 <= i < n => after[i]);
    }

    /** `read_slot_nonzero_bytes`, at a height a slot can have. */
    method ReadSlot(h: Height) returns (r: Option<Hash>)
      ensures r == View(Bytes(), h)
    {
      var off := h * 32;
      if off + 32 > data.Length { return None; }
      var slot := data[off..off + 32];
      assert slot == Bytes()[h * 32..(h + 1) * 32];
      r := if slot == ZERO then None else Some(slot);
    }

    method Write(height: U64, hash: Hash) returns (ok: bool)
      modifies this, data
      ensures ok == WriteHash(old(Bytes()), height, hash).Some?
      ensures Bytes() == StepBytes(old(Bytes()), FileOp.Write(height, hash))
      ensures data == old(data) || fresh(data)
    {
      var need := BytesNeeded(height);
      if need.None? {
        return false;
      }
      if need.value > data.Length {
        Remap(need.value);
      }
      var mapped := data;
      ghost var grown := mapped[..];
      var o := height * 32;
      for i := 0 to 32
        invariant data == mapped
        invariant forall k | 0 <= k < mapped.Length :: mapped[k] == if o <= k < o + i then hash[k - o] else grown[k]
      {
        mapped[o + i] := hash[i];
      }
      assert mapped[..] == grown[..o] + hash + grown[o + 32..];
      return true;
    }

    method Cut(height: U64) returns (ok: bool)
      modifies this
      ensures ok == Truncate(old(Bytes()), height).Some?
      ensures Bytes() == StepBytes(old(Bytes()), FileOp.Cut(height))
      ensures data == old(data) || fresh(data)
    {
      var need := BytesNeeded(height);
      if need.None? {
        return false;
      }
      Remap(need.value);
      return true;
    }
  }
}
