/** Fixed-width integer keys and length prefixes (src/encoding.rs). */
module Encoding {
  import opened ChainTypes

  type Bytes = seq<Byte>

  /** n in `width` bytes, most significant first, high bytes cut off. */
  function BigEndian(n: nat, width: nat): (r: Bytes)
    ensures |r| == width
  {
    if width == 0 then [] else BigEndian(n / 256, width - 1) + [n % 256]
  }

  function FromBigEndian(bytes: Bytes): (r: nat) {
    if bytes == [] then 0 else FromBigEndian(bytes[..|bytes| - 1]) * 256 + bytes[|bytes| - 1]
  }

  function Pow256(width: nat): (r: nat)
    ensures r > 0
  {
    if width == 0 then 1 else Pow256(width - 1) * 256
  }

  lemma {:induction false} DecodeEncode(n: nat, width: nat)
    requires n < Pow256(width)
    ensures FromBigEndian(BigEndian(n, width)) == n
  {
    if width > 0 {
      DecodeEncode(n / 256, width - 1);
      var key := BigEndian(n, width);
      assert key[..width - 1] == BigEndian(n / 256, width - 1);
    }
  }

  lemma {:induction false} EncodeDecode(bytes: Bytes)
    ensures FromBigEndian(bytes) < Pow256(|bytes|)
    ensures BigEndian(FromBigEndian(bytes), |bytes|) == bytes
  {
    if bytes != [] {
      EncodeDecode(bytes[..|bytes| - 1]);
    }
  }

  // ---------------------------------------------------------------- bytewise order

  /** RocksDB's default comparator. */
  predicate LexLess(a: Bytes, b: Bytes) {
    b != [] && (a == [] || a[0] < b[0] || (a[0] == b[0] && LexLess(a[1..], b[1..])))
  }

  lemma {:induction false} LexLast(a: Bytes, x: Byte, b: Bytes, y: Byte)
    requires |a| == |b|
    ensures LexLess(a + [x], b + [y]) <==> LexLess(a, b) || (a == b && x < y)
  {
    if a != [] {
      LexLast(a[1..], x, b[1..], y);
      assert (a + [x])[1..] == a[1..] + [x] && (b + [y])[1..] == b[1..] + [y];
      assert a == [a[0]] + a[1..] && b == [b[0]] + b[1..];
    }
  }

  /** Among keys of one width, bytewise order is numeric order. */
  lemma {:induction false} OrderIsNumeric(a: Bytes, b: Bytes)
    requires |a| == |b|
    ensures LexLess(a, b) <==> FromBigEndian(a) < FromBigEndian(b)
    ensures a == b <==> FromBigEndian(a) == FromBigEndian(b)
  {
    if a != [] {
      var fa, fb, n := a[..|a| - 1], b[..|b| - 1], |a| - 1;
      OrderIsNumeric(fa, fb);
      LexLast(fa, a[n], fb, b[n]);
      assert a == fa + [a[n]] && b == fb + [b[n]];
    }
  }

  /** `height_key` and `epoch_key`. */
  function Key(n: U64): (r: Bytes)
    ensures |r| == 8
  {
    BigEndian(n, 8)
  }

  lemma EightBytes()
    ensures Pow256(8) == U64_SIZE
  {
    assert Pow256(4) == 0x1_0000_0000;
    assert Pow256(8) == Pow256(4) * 256 * 256 * 256 * 256;
  }

  /** `decode_height_key` and `decode_epoch_key`. */
  function DecodeKey(key: Bytes): (r: U64)
    requires |key| == 8
  {
    EncodeDecode(key);
    EightBytes();
    FromBigEndian(key)
  }

  /** Keys decode to what they encode and sort as the numbers do. */
  lemma KeysRoundTripAndSort(a: U64, b: U64)
    ensures DecodeKey(Key(a)) == a
    ensures LexLess(Key(a), Key(b)) <==> a < b
  {
    EightBytes();
    DecodeEncode(a, 8);
    DecodeEncode(b, 8);
    OrderIsNumeric(Key(a), Key(b));
  }

  // ---------------------------------------------------------------- little-endian lengths

  function Reverse(bytes: Bytes): (r: Bytes)
    ensures |r| == |bytes|
  {
    seq(|bytes|, i requires 0 <= i < |bytes| => bytes[|bytes| - 1 - i])
  }

  const U32_SIZE: nat := 0x1_0000_0000

  /** A 32-bit unsigned integer. */
  type U32 = x: int | 0 <= x < U32_SIZE

  /** `(len as u32).to_le_bytes()`: the cast drops everything above 32 bits. */
  function LengthPrefix(len: nat): (r: Bytes)
    ensures |r| == 4
  {
    Reverse(BigEndian(len % U32_SIZE, 4))
  }

  function ReadLength(prefix: Bytes): (r: nat)
    requires |prefix| == 4
  {
    FromBigEndian(Reverse(prefix))
  }

  lemma LengthRoundTrip(len: nat, prefix: Bytes)
    requires |prefix| == 4
    ensures ReadLength(LengthPrefix(len)) == len % U32_SIZE
    ensures ReadLength(prefix) < U32_SIZE && LengthPrefix(ReadLength(prefix)) == prefix
  {
    assert Pow256(4) == U32_SIZE;
    DecodeEncode(len % U32_SIZE, 4);
    assert Reverse(Reverse(BigEndian(len % U32_SIZE, 4))) == BigEndian(len % U32_SIZE, 4);
    EncodeDecode(Reverse(prefix));
    assert Reverse(Reverse(prefix)) == prefix;
  }

  /** A length prefix has the lowest byte of the length first. */
  lemma LengthPrefixDigits(len: nat)
    ensures var p := LengthPrefix(len);
            p[0] as int + 0x100 * p[1] as int + 0x1_0000 * p[2] as int + 0x100_0000 * p[3] as int == len % U32_SIZE
  {
    var n := len % U32_SIZE;
    var bytes := BigEndian(n, 4);
    assert bytes == BigEndian(n / 256, 3) + [n % 256];
    assert BigEndian(n / 256, 3) == BigEndian(n / 256 / 256, 2) + [n / 256 % 256];
    assert BigEndian(n / 256 / 256, 2) == BigEndian(n / 256 / 256 / 256, 1) + [n / 256 / 256 % 256];
    assert BigEndian(n / 256 / 256 / 256, 1) == [n / 256 / 256 / 256 % 256];
  }

  /** A key has the highest byte first. */
  lemma KeyDigits(n: U64)
    ensures n == 0x100_0000_0000_0000 * Key(n)[0] as int + FromBigEndian(Key(n)[1..])
    ensures FromBigEndian(Key(n)[1..]) < 0x100_0000_0000_0000
  {
    EightBytes();
    DecodeEncode(n, 8);
    FirstDigit(Key(n));
    EncodeDecode(Key(n)[1..]);
    assert Pow256(7) == 0x100_0000_0000_0000;
  }

  lemma {:induction false} FirstDigit(bytes: Bytes)
    requires bytes != []
    ensures FromBigEndian(bytes) == Pow256(|bytes| - 1) * bytes[0] + FromBigEndian(bytes[1..])
  {
    if |bytes| > 1 {
      var front, last := bytes[..|bytes| - 1], bytes[|bytes| - 1];
      FirstDigit(front);
      assert bytes[1..][..|bytes| - 2] == front[1..];
      var p := Pow256(|front| - 1);
      assert p * front[0] * 256 == Pow256(|bytes| - 1) * bytes[0];
    } else {
      assert bytes[..0] == [];
    }
  }

  /** The first byte of a little-endian number is its lowest. */
  lemma LittleEndianDigits(n: nat, width: nat)
    ensures width > 0 ==> LittleEndian(n, width) == [n % 256] + LittleEndian(n / 256, width - 1)
  {
  }

  /** n in `width` bytes, least significant first. */
  function LittleEndian(n: nat, width: nat): (r: Bytes)
    ensures |r| == width
  {
    Reverse(BigEndian(n, width))
  }

  function FromLittleEndian(bytes: Bytes): (r: nat) { FromBigEndian(Reverse(bytes)) }

  lemma LittleEndianRoundTrip(n: nat, width: nat, bytes: Bytes)
    ensures n < Pow256(width) ==> FromLittleEndian(LittleEndian(n, width)) == n
    ensures FromLittleEndian(bytes) < Pow256(|bytes|)
    ensures LittleEndian(FromLittleEndian(bytes), |bytes|) == bytes
  {
    if n < Pow256(width) {
      DecodeEncode(n, width);
      assert Reverse(Reverse(BigEndian(n, width))) == BigEndian(n, width);
    }
    EncodeDecode(Reverse(bytes));
    assert Reverse(Reverse(bytes)) == bytes;
  }
}
