/**
 Base 128 varints: seven bits a byte, least significant group first, the top bit set on
 every byte but the last. Readers take at most ten bytes and drop what does not fit.
 */
module Base128 {
  type byte = b: int | 0 <= b < 256
  type Bytes = seq<byte>

  const UINT32: nat := 0x1_0000_0000
  const UINT64: nat := 0x1_0000_0000_0000_0000
  const MAX_VARINT_BYTES: nat := 10

  /** A value and the bytes after it, or a failure to read one. */
  datatype Read<+T> = Failed | Got(value: T, rest: Bytes)

  function EncodeVarint(n: nat): (b: Bytes)
    ensures b != []
  {
    if n < 128 then [n] else [n % 128 + 128] + EncodeVarint(n / 128)
  }

  /** Reads at most `limit` bytes; the value is not cut off yet. */
  function ReadVarint(b: Bytes, limit: nat): (r: Read<nat>)
    ensures r.Got? ==> |r.rest| < |b|
    decreases limit
  {
    if limit == 0 || b == [] then Failed
    else if b[0] < 128 then Got(b[0], b[1..])
    else match ReadVarint(b[1..], limit - 1)
      case Failed => Failed
      case Got(v, rest) => Got(b[0] - 128 + 128 * v, rest)
  }

  function ReadVarint64(b: Bytes): (r: Read<nat>)
    ensures r.Got? ==> |r.rest| < |b| && r.value < UINT64
  {
    match ReadVarint(b, MAX_VARINT_BYTES)
    case Failed => Failed
    case Got(v, rest) => Got(v % UINT64, rest)
  }

  function ReadVarint32(b: Bytes): (r: Read<nat>)
    ensures r.Got? ==> |r.rest| < |b| && r.value < UINT32
  {
    match ReadVarint(b, MAX_VARINT_BYTES)
    case Failed => Failed
    case Got(v, rest) => Got(v % UINT32, rest)
  }

  // ---------------------------------------------------------------- round trip and size

  function Pow128(k: nat): (p: nat)
    ensures p > 0
  {
    if k == 0 then 1 else 128 * Pow128(k - 1)
  }

  lemma Pow128Values()
    ensures Pow128(1) == 0x80 && Pow128(2) == 0x4000 && Pow128(3) == 0x20_0000 && Pow128(4) == 0x1000_0000
    ensures Pow128(5) == 0x8_0000_0000 && Pow128(6) == 0x400_0000_0000 && Pow128(7) == 0x2_0000_0000_0000
    ensures Pow128(8) == 0x100_0000_0000_0000 && Pow128(9) == 0x8000_0000_0000_0000 && Pow128(10) > UINT64
  {
    assert Pow128(0) == 1;
    assert Pow128(2) == 128 * Pow128(1);
    assert Pow128(4) == 128 * Pow128(3);
    assert Pow128(6) == 128 * Pow128(5);
    assert Pow128(8) == 128 * Pow128(7);
  }

  /** The encoding has `k` bytes exactly when the number needs `k` base 128 digits. */
  lemma {:induction false} EncodedSize(n: nat, k: nat)
    requires k > 0
    ensures |EncodeVarint(n)| <= k <==> n < Pow128(k)
    decreases k
  {
    if k == 1 {
      assert Pow128(0) == 1;
    } else if n >= 128 {
      EncodedSize(n / 128, k - 1);
      DivideBound(n, Pow128(k - 1));
    } else {
      assert Pow128(k - 1) >= 1;
    }
  }

  lemma DivideBound(n: nat, p: nat)
    ensures n / 128 < p <==> n < 128 * p
  {
  }

  /** What was written is read back, whatever follows it. */
  lemma {:induction false} WrittenIsRead(n: nat, limit: nat, rest: Bytes)
    requires |EncodeVarint(n)| <= limit
    ensures ReadVarint(EncodeVarint(n) + rest, limit) == Got(n, rest)
    decreases limit
  {
    var b := EncodeVarint(n) + rest;
    if n >= 128 {
      WrittenIsRead(n / 128, limit - 1, rest);
      assert b[1..] == EncodeVarint(n / 128) + rest;
    } else {
      assert b[1..] == rest;
    }
  }

  lemma SmallRemainder(n: nat, m: nat)
    requires n < m
    ensures n % m == n
  {
  }

  lemma Written64IsRead(n: nat, rest: Bytes)
    requires n < UINT64
    ensures ReadVarint64(EncodeVarint(n) + rest) == Got(n, rest)
    ensures ReadVarint32(EncodeVarint(n) + rest) == Got(n % UINT32, rest)
  {
    TenBytes(n);
    WrittenIsRead(n, MAX_VARINT_BYTES, rest);
    SmallRemainder(n, UINT64);
  }

  lemma TenBytes(n: nat)
    requires n < UINT64
    ensures |EncodeVarint(n)| <= MAX_VARINT_BYTES
  {
    Pow128Values();
    EncodedSize(n, MAX_VARINT_BYTES);
  }

  lemma Written32IsRead(n: nat, rest: Bytes)
    requires n < UINT32
    ensures ReadVarint32(EncodeVarint(n) + rest) == Got(n, rest)
  {
    var b := EncodeVarint(n) + rest;
    Written64IsRead(n, rest);
    SmallRemainder(n, UINT32);
    assert ReadVarint32(b).value == n;
  }

  /** Reading never looks past the end of the varint, canonical or not. */
  lemma {:induction false} ReadAppend(b: Bytes, c: Bytes, limit: nat)
    requires ReadVarint(b, limit).Got?
    ensures ReadVarint(b + c, limit) == Got(ReadVarint(b, limit).value, ReadVarint(b, limit).rest + c)
    decreases limit
  {
    assert (b + c)[0] == b[0] && (b + c)[1..] == b[1..] + c;
    if b[0] >= 128 {
      ReadAppend(b[1..], c, limit - 1);
    }
  }

  /** The encoding is the shortest byte string that is read as this number. */
  lemma {:induction false} EncodingIsShortest(b: Bytes, limit: nat)
    requires ReadVarint(b, limit).Got?
    ensures |EncodeVarint(ReadVarint(b, limit).value)| <= |b| - |ReadVarint(b, limit).rest|
    decreases limit
  {
    if b[0] >= 128 {
      EncodingIsShortest(b[1..], limit - 1);
      var v := ReadVarint(b[1..], limit - 1).value;
      assert (b[0] - 128 + 128 * v) / 128 == v;
    }
  }

  // ---------------------------------------------------------------- what any bytes are read as

  /** The number whose base 128 digits are the first `k` bytes without their top bits. */
  function Digits(b: Bytes, k: nat): nat
    requires k <= |b|
  {
    if k == 0 then 0 else Digits(b, k - 1) + b[k - 1] % 128 * Pow128(k - 1)
  }

  lemma {:induction false} DigitsFront(b: Bytes, k: nat)
    requires 0 < k <= |b|
    ensures Digits(b, k) == b[0] % 128 + 128 * Digits(b[1..], k - 1)
    decreases k
  {
    if k == 1 {
      assert Digits(b, 0) == 0 && Pow128(0) == 1 && Digits(b[1..], 0) == 0;
    } else {
      DigitsFront(b, k - 1);
      var d, p := b[k - 1] % 128, Pow128(k - 2);
      assert b[1..][k - 2] == b[k - 1];
      assert d * (128 * p) == 128 * (d * p);
    }
  }

  /** The first byte below 128, if it is among the first `limit`, ends the varint. */
  lemma {:induction false} VarintMeans(b: Bytes, k: nat, limit: nat)
    requires k < limit && k < |b| && b[k] < 128 && forall i | 0 <= i < k :: b[i] >= 128
    ensures ReadVarint(b, limit) == Got(Digits(b, k + 1), b[k + 1..])
    decreases k
  {
    DigitsFront(b, k + 1);
    if k == 0 {
      assert Digits(b[1..], 0) == 0;
    } else {
      VarintMeans(b[1..], k - 1, limit - 1);
      assert b[1..][k..] == b[k + 1..];
    }
  }

  lemma {:induction false} VarintFails(b: Bytes, limit: nat)
    ensures ReadVarint(b, limit).Failed? <==> forall i | 0 <= i < limit && i < |b| :: b[i] >= 128
    decreases limit
  {
    if limit > 0 && b != [] && b[0] >= 128 {
      VarintFails(b[1..], limit - 1);
      if forall i | 0 <= i < limit - 1 && i < |b[1..]| :: b[1..][i] >= 128 {
        assert forall i | 0 < i < limit && i < |b| :: b[i] == b[1..][i - 1];
      } else {
        var i :| 0 <= i < limit - 1 && i < |b[1..]| && b[1..][i] < 128;
        assert b[i + 1] < 128;
      }
    }
  }

  /** Reading fails exactly if none of the first ten bytes ends the varint; else its digits are kept to 64 bits. */
  lemma TenBytesDecide(b: Bytes)
    ensures ReadVarint64(b).Failed? <==> forall i | 0 <= i < 10 && i < |b| :: b[i] >= 128
    ensures forall k | 0 <= k < 10 && k < |b| && b[k] < 128 && (forall i | 0 <= i < k :: b[i] >= 128) ::
              && ReadVarint64(b) == Got(Digits(b, k + 1) % 0x1_0000_0000_0000_0000, b[k + 1..])
              && ReadVarint32(b) == Got(Digits(b, k + 1) % 0x1_0000_0000, b[k + 1..])
  {
    VarintFails(b, 10);
    forall k | 0 <= k < 10 && k < |b| && b[k] < 128 && (forall i | 0 <= i < k :: b[i] >= 128)
      ensures ReadVarint64(b) == Got(Digits(b, k + 1) % 0x1_0000_0000_0000_0000, b[k + 1..])
      ensures ReadVarint32(b) == Got(Digits(b, k + 1) % 0x1_0000_0000, b[k + 1..])
    {
      VarintMeans(b, k, 10);
    }
  }

  lemma ShortVarints(n: nat)
    ensures n < 128 ==> EncodeVarint(n) == [n]
    ensures 128 <= n < 0x4000 ==> EncodeVarint(n) == [n % 128 + 128, n / 128]
  {
  }

  // ---------------------------------------------------------------- signed numbers

  type int32 = v: int | -0x8000_0000 <= v < 0x8000_0000

  /** The number written for an int32: negative ones are sign-extended to 64 bits first. */
  function Extended(v: int32): (n: nat)
    ensures n < UINT64 && (v < 0 ==> n >= 0x8000_0000_0000_0000)
  {
    if v < 0 then UINT64 + v else v
  }

  /** The low 32 bits, read as a signed number. */
  function Truncated(n: nat): int32
    requires n < UINT32
  {
    if n < 0x8000_0000 then n else n - UINT32
  }

  lemma SignedRoundTrip(v: int32)
    ensures Truncated(Extended(v) % UINT32) == v
    ensures v < 0 ==> |EncodeVarint(Extended(v))| == 10
  {
    if v < 0 {
      assert UINT64 == UINT32 * UINT32;
      assert Extended(v) == UINT32 * (UINT32 - 1) + (UINT32 + v);
      Pow128Values();
      EncodedSize(Extended(v), 9);
      EncodedSize(Extended(v), 10);
    }
  }

  lemma DropMore(n: nat)
    ensures n % UINT64 % UINT32 == n % UINT32
  {
    assert UINT64 == UINT32 * UINT32;
    var q := n / UINT64;
    assert n == UINT32 * (UINT32 * q) + n % UINT64;
  }

  /** Reading 32 bits is reading 64 and keeping the low ones. */
  lemma LowBits(b: Bytes)
    ensures match ReadVarint64(b)
            case Failed => ReadVarint32(b) == Failed
            case Got(v, rest) => ReadVarint32(b) == Got(v % UINT32, rest)
  {
    if ReadVarint64(b).Got? {
      DropMore(ReadVarint(b, MAX_VARINT_BYTES).value);
    }
  }

  // ---------------------------------------------------------------- sizes as they are computed

  function VarintSize32(value: nat): (size: nat)
    requires value < UINT32
    ensures size == |EncodeVarint(value)|
  {
    SizeOf(value);
    if value < 0x80 then 1
    else if value < 0x4000 then 2
    else if value < 0x20_0000 then 3
    else if value < 0x1000_0000 then 4
    else 5
  }

  function VarintSize64(value: nat): (size: nat)
    requires value < UINT64
    ensures size == |EncodeVarint(value)|
  {
    SizeOf(value);
    if value < 0x8_0000_0000 then
      if value < 0x80 then 1
      else if value < 0x4000 then 2
      else if value < 0x20_0000 then 3
      else if value < 0x1000_0000 then 4
      else 5
    else
      if value < 0x400_0000_0000 then 6
      else if value < 0x2_0000_0000_0000 then 7
      else if value < 0x100_0000_0000_0000 then 8
      else if value < 0x8000_0000_0000_0000 then 9
      else 10
  }

  function VarintSize32SignExtended(value: int32): (size: nat)
    ensures size == |EncodeVarint(Extended(value))|
  {
    SignedRoundTrip(value);
    if value < 0 then 10 else VarintSize32(value)
  }

  /** The thresholds at which the encoding gets a byte longer. */
  lemma SizeOf(n: nat)
    requires n < UINT64
    ensures forall k | 0 < k <= 10 :: |EncodeVarint(n)| <= k <==> n < Pow128(k)
    ensures Pow128(1) == 0x80 && Pow128(2) == 0x4000 && Pow128(3) == 0x20_0000 && Pow128(4) == 0x1000_0000
    ensures Pow128(5) == 0x8_0000_0000 && Pow128(6) == 0x400_0000_0000 && Pow128(7) == 0x2_0000_0000_0000
    ensures Pow128(8) == 0x100_0000_0000_0000 && Pow128(9) == 0x8000_0000_0000_0000 && Pow128(10) > UINT64
  {
    Pow128Values();
    forall k | 0 < k <= 10 ensures |EncodeVarint(n)| <= k <==> n < Pow128(k) {
      EncodedSize(n, k);
    }
  }
}
