/**
 Writing the wire format: byte by byte to a stream, and straight into an array, where a
 varint's size is found by comparisons and its bytes are cut out of three 32-bit parts.
 */
module CodedOutput {
  import opened Base128
  import opened Wire

  // ---------------------------------------------------------------- digits

  /** `k` groups of seven bits dropped. */
  function Shift(n: nat, k: nat): nat {
    if k == 0 then n else Shift(n / 128, k - 1)
  }

  /** The k-th group of seven bits. */
  function Digit(n: nat, k: nat): byte {
    Shift(n, k) % 128
  }

  /** The bytes of a varint are its digits, all but the last one marked. */
  lemma {:induction false} EncodedDigit(n: nat, k: nat)
    requires k < |EncodeVarint(n)|
    ensures EncodeVarint(n)[k] == Digit(n, k) + if k + 1 < |EncodeVarint(n)| then 128 else 0
    decreases k
  {
    if k > 0 {
      EncodedDigit(n / 128, k - 1);
    }
  }

  lemma {:induction false} ShiftTwice(n: nat, a: nat, b: nat)
    ensures Shift(Shift(n, a), b) == Shift(n, a + b)
    decreases a
  {
    if a > 0 {
      ShiftTwice(n / 128, a - 1, b);
    }
  }

  lemma ShiftValues(n: nat)
    ensures Shift(n, 0) == n && Shift(n, 1) == n / 0x80 && Shift(n, 2) == n / 0x4000
    ensures Shift(n, 3) == n / 0x20_0000 && Shift(n, 4) == n / 0x1000_0000
  {
    ShiftTwice(n, 1, 1);
    ShiftTwice(n, 2, 1);
    ShiftTwice(n, 3, 1);
    assert Shift(n, 1) == Shift(n / 128, 0);
    assert Shift(Shift(n, 1), 1) == Shift(Shift(n, 1) / 128, 0);
    assert Shift(Shift(n, 2), 1) == Shift(Shift(n, 2) / 128, 0);
    assert Shift(Shift(n, 3), 1) == Shift(Shift(n, 3) / 128, 0);
  }

  lemma MultipleDrops(m: nat, a: nat)
    ensures (128 * m + a) % 128 == a % 128
  {
  }

  lemma CutDigit0(n: nat, q: nat, r: nat)
    requires n == UINT32 * q + r
    ensures r % 128 == n % 128
  {
    MultipleDrops(0x200_0000 * q, r);
  }

  lemma CutDigit1(n: nat, q: nat, r: nat)
    requires n == UINT32 * q + r
    ensures r / 0x80 % 128 == n / 0x80 % 128
  {
    assert n == 0x80 * (0x200_0000 * q + r / 0x80) + r % 0x80;
    MultipleDrops(0x4_0000 * q, r / 0x80);
  }

  lemma CutDigit2(n: nat, q: nat, r: nat)
    requires n == UINT32 * q + r
    ensures r / 0x4000 % 128 == n / 0x4000 % 128
  {
    assert n == 0x4000 * (0x4_0000 * q + r / 0x4000) + r % 0x4000;
    MultipleDrops(0x800 * q, r / 0x4000);
  }

  lemma CutDigit3(n: nat, q: nat, r: nat)
    requires n == UINT32 * q + r
    ensures r / 0x20_0000 % 128 == n / 0x20_0000 % 128
  {
    assert n == 0x20_0000 * (0x800 * q + r / 0x20_0000) + r % 0x20_0000;
    MultipleDrops(0x10 * q, r / 0x20_0000);
  }

  /** The first four digits of a number, read off its low 32 bits. */
  lemma LowDigits(n: nat, part: nat)
    requires part == n % UINT32
    ensures part % 128 == Digit(n, 0) && part / 0x80 % 128 == Digit(n, 1)
    ensures part / 0x4000 % 128 == Digit(n, 2) && part / 0x20_0000 % 128 == Digit(n, 3)
  {
    var q := n / UINT32;
    CutDigit0(n, q, part);
    CutDigit1(n, q, part);
    CutDigit2(n, q, part);
    CutDigit3(n, q, part);
    ShiftValues(n);
  }

  /** Each digit of a number below 2^64 is a digit of one of its three parts. */
  lemma PartDigits(value: nat, part0: nat, part1: nat, part2: nat)
    requires part0 == value % UINT32 && part1 == value / 0x1000_0000 % UINT32 && part2 == value / 0x100_0000_0000_0000
    ensures forall k | 0 <= k < 4 :: Digit(part0, k) == Digit(value, k)
    ensures forall k | 0 <= k < 4 :: Digit(part1, k) == Digit(value, 4 + k)
    ensures forall k | 0 <= k < 2 :: Digit(part2, k) == Digit(value, 8 + k)
  {
    ShiftValues(value);
    ShiftValues(value / 0x1000_0000);
    ShiftTwice(value, 4, 4);
    assert Shift(value, 8) == value / 0x1000_0000 / 0x1000_0000 == part2;
    forall k | 0 <= k < 4 ensures Digit(part0, k) == Digit(value, k) && Digit(part1, k) == Digit(value, 4 + k) {
      SameDigits(value, part0, k);
      SameDigits(value / 0x1000_0000, part1, k);
      ShiftTwice(value, 4, k);
    }
    forall k | 0 <= k < 2 ensures Digit(part2, k) == Digit(value, 8 + k) {
      ShiftTwice(value, 8, k);
    }
  }

  lemma SameDigits(n: nat, part: nat, k: nat)
    requires part == n % UINT32 && k < 4
    ensures Digit(part, k) == Digit(n, k)
  {
    LowDigits(n, part);
    ShiftValues(part);
  }

  // ---------------------------------------------------------------- into an array

  /** The bytes `b` replace what stood at `at`; nothing else changes. */
  ghost predicate Wrote(before: Bytes, after: Bytes, at: nat, b: Bytes) {
    at + |b| <= |before| && after == before[..at] + b + before[at + |b|..]
  }

  lemma WroteBoth(x: Bytes, y: Bytes, z: Bytes, at: nat, b: Bytes, c: Bytes)
    requires Wrote(x, y, at, b) && Wrote(y, z, at + |b|, c)
    ensures Wrote(x, z, at, b + c)
  {
    assert z == x[..at] + (b + c) + x[at + |b + c|..];
  }

  lemma WroteNothing(x: Bytes, at: nat)
    requires at <= |x|
    ensures Wrote(x, x, at, [])
  {
    assert x == x[..at] + [] + x[at..];
  }

  lemma WroteByIndex(before: Bytes, after: Bytes, at: nat, b: Bytes)
    requires at + |b| <= |before| == |after|
    requires forall k | 0 <= k < |b| :: after[at + k] == b[k]
    requires forall k | 0 <= k < |before| && !(at <= k < at + |b|) :: after[k] == before[k]
    ensures Wrote(before, after, at, b)
  {
    forall k | at <= k < at + |b| ensures after[k] == b[k - at] {
      assert after[at + (k - at)] == b[k - at];
    }
  }

  method WriteRawToArray(data: Bytes, target: array<byte>, at: nat) returns (end: nat)
    requires at + |data| <= target.Length
    modifies target
    ensures Wrote(old(target[..]), target[..], at, data) && end == at + |data|
  {
    forall k | 0 <= k < |data| {
      target[at + k] := data[k];
    }
    WroteByIndex(old(target[..]), target[..], at, data);
    return at + |data|;
  }

  /** The size of a varint, found by comparing its parts. */
  function SizeByParts(part0: nat, part1: nat, part2: nat): nat {
    if part2 == 0 then
      if part1 == 0 then
        if part0 < 0x4000 then (if part0 < 0x80 then 1 else 2) else (if part0 < 0x20_0000 then 3 else 4)
      else
        if part1 < 0x4000 then (if part1 < 0x80 then 5 else 6) else (if part1 < 0x20_0000 then 7 else 8)
    else
      if part2 < 0x80 then 9 else 10
  }

  lemma PartsTellSize(value: nat, part0: nat, part1: nat, part2: nat)
    requires value < UINT64
    requires part0 == value % UINT32 && part1 == value / 0x1000_0000 % UINT32 && part2 == value / 0x100_0000_0000_0000
    ensures SizeByParts(part0, part1, part2) == |EncodeVarint(value)| <= 10
  {
    SizeOf(value);
    var high := value / 0x1000_0000;
    assert high / 0x1000_0000 == part2;
    if part2 == 0 {
      assert part1 == high;
      if part1 == 0 {
        assert part0 == value;
      }
    }
  }

  /** Writes up to four digits of a part, all marked. */
  method WritePart(part: nat, count: nat, target: array<byte>, at: nat)
    requires count <= 4 && at + count <= target.Length
    modifies target
    ensures forall k | 0 <= k < count :: target[at + k] == Digit(part, k) + 128
    ensures forall k | 0 <= k < target.Length && !(at <= k < at + count) :: target[k] == old(target[k])
  {
    ShiftValues(part);
    if count >= 4 {
      target[at + 3] := part / 0x20_0000 % 128 + 128;
    }
    if count >= 3 {
      target[at + 2] := part / 0x4000 % 128 + 128;
    }
    if count >= 2 {
      target[at + 1] := part / 0x80 % 128 + 128;
    }
    if count >= 1 {
      target[at] := part % 128 + 128;
    }
  }

  /** Writes the digits of a varint, part by part, every one of them marked. */
  method WriteParts(value: nat, size: nat, target: array<byte>, at: nat)
    requires value < UINT64 && 0 < size <= 10 && at + size <= target.Length
    modifies target
    ensures forall k | 0 <= k < size :: target[at + k] == Digit(value, k) + 128
    ensures forall k | 0 <= k < target.Length && !(at <= k < at + size) :: target[k] == old(target[k])
  {
    var part0, part1, part2 := value % UINT32, value / 0x1000_0000 % UINT32, value / 0x100_0000_0000_0000;
    PartDigits(value, part0, part1, part2);
    WritePart(part2, if size > 8 then size - 8 else 0, target, if size > 8 then at + 8 else at);
    WritePart(part1, if size > 8 then 4 else if size > 4 then size - 4 else 0, target, if size > 4 then at + 4 else at);
    WritePart(part0, if size > 4 then 4 else size, target, at);
    forall k | 0 <= k < size ensures target[at + k] == Digit(value, k) + 128 {
      if k >= 8 {
        assert Digit(part2, k - 8) == Digit(value, 8 + (k - 8));
        assert target[at + 8 + (k - 8)] == Digit(part2, k - 8) + 128;
      } else if k >= 4 {
        assert Digit(part1, k - 4) == Digit(value, 4 + (k - 4));
        assert target[at + 4 + (k - 4)] == Digit(part1, k - 4) + 128;
      }
    }
  }

  /** Writes a varint whose size is known beforehand, and takes the mark off its last byte. */
  method WriteVarint64ToArray(value: nat, target: array<byte>, at: nat) returns (end: nat)
    requires value < UINT64 && at + |EncodeVarint(value)| <= target.Length
    modifies target
    ensures Wrote(old(target[..]), target[..], at, EncodeVarint(value)) && end == at + |EncodeVarint(value)|
  {
    var size := SizeByParts(value % UINT32, value / 0x1000_0000 % UINT32, value / 0x100_0000_0000_0000);
    PartsTellSize(value, value % UINT32, value / 0x1000_0000 % UINT32, value / 0x100_0000_0000_0000);
    WriteParts(value, size, target, at);
    assert target[at + (size - 1)] == Digit(value, size - 1) + 128;
    target[at + size - 1] := target[at + size - 1] % 128;
    DigitsWritten(old(target[..]), target[..], at, value);
    return at + size;
  }

  lemma DigitsWritten(before: Bytes, after: Bytes, at: nat, value: nat)
    requires at + |EncodeVarint(value)| <= |before| == |after|
    requires forall k | 0 <= k < |EncodeVarint(value)| ::
               after[at + k] == Digit(value, k) + if k + 1 < |EncodeVarint(value)| then 128 else 0
    requires forall k | 0 <= k < |before| && !(at <= k < at + |EncodeVarint(value)|) :: after[k] == before[k]
    ensures Wrote(before, after, at, EncodeVarint(value))
  {
    forall k | 0 <= k < |EncodeVarint(value)| ensures after[at + k] == EncodeVarint(value)[k] {
      EncodedDigit(value, k);
    }
    WroteByIndex(before, after, at, EncodeVarint(value));
  }

  /** Writes a varint of at most five bytes, deciding at each byte whether another follows. */
  method WriteVarint32ToArray(value: nat, target: array<byte>, at: nat) returns (end: nat)
    requires value < UINT32 && at + |EncodeVarint(value)| <= target.Length
    modifies target
    ensures Wrote(old(target[..]), target[..], at, EncodeVarint(value)) && end == at + |EncodeVarint(value)|
  {
    ShiftValues(value);
    var digits: Bytes :=
      [value % 128, value / 0x80 % 128, value / 0x4000 % 128, value / 0x20_0000 % 128, value / 0x1000_0000];
    end := WriteDigits(value, digits, target, at, |EncodeVarint(value)|);
    assert forall k | 0 <= k < |EncodeVarint(value)| :: digits[k] == Digit(value, k);
    DigitsWritten(old(target[..]), target[..], at, value);
  }

  method WriteDigits(value: nat, digits: Bytes, target: array<byte>, at: nat, ghost size: nat) returns (end: nat)
    requires |digits| == 5 && forall k | 0 <= k < 5 :: digits[k] < 128
    requires value < UINT32 && size == VarintSize32(value) && at + size <= target.Length
    modifies target
    ensures end == at + size
    ensures forall k | 0 <= k < size :: target[at + k] == digits[k] + if k + 1 < size then 128 else 0
    ensures forall k | 0 <= k < target.Length && !(at <= k < end) :: target[k] == old(target[k])
  {
    target[at] := digits[0] + 128;
    if value >= 0x80 {
      target[at + 1] := digits[1] + 128;
      if value >= 0x4000 {
        target[at + 2] := digits[2] + 128;
        if value >= 0x20_0000 {
          target[at + 3] := digits[3] + 128;
          if value >= 0x1000_0000 {
            target[at + 4] := digits[4];
            end := at + 5;
          } else {
            target[at + 3] := target[at + 3] % 128;
            end := at + 4;
          }
        } else {
          target[at + 2] := target[at + 2] % 128;
          end := at + 3;
        }
      } else {
        target[at + 1] := target[at + 1] % 128;
        end := at + 2;
      }
    } else {
      target[at] := target[at] % 128;
      end := at + 1;
    }
  }

  /** Writes a tag, one of one or two bytes without ado. */
  method WriteTagToArray(tag: nat, target: array<byte>, at: nat) returns (end: nat)
    requires tag < UINT32 && at + |EncodeVarint(tag)| <= target.Length
    modifies target
    ensures Wrote(old(target[..]), target[..], at, EncodeVarint(tag)) && end == at + |EncodeVarint(tag)|
  {
    if tag >= 0x4000 {
      end := WriteVarint32ToArray(tag, target, at);
      return;
    }
    ShiftValues(tag);
    if tag < 0x80 {
      target[at] := tag;
      end := at + 1;
    } else {
      target[at] := tag % 128 + 128;
      target[at + 1] := tag / 128;
      end := at + 2;
    }
    assert end == at + VarintSize32(tag);
    DigitsWritten(old(target[..]), target[..], at, tag);
  }

  method WriteLittleEndianToArray(value: nat, width: nat, target: array<byte>, at: nat) returns (end: nat)
    requires at + width <= target.Length
    modifies target
    ensures Wrote(old(target[..]), target[..], at, LittleEndian(value, width)) && end == at + width
  {
    end := WriteRawToArray(LittleEndian(value, width), target, at);
  }

  /** A length and the bytes, after a tag. */
  method WriteDelimitedToArray(data: Bytes, target: array<byte>, at: nat) returns (end: nat)
    requires |data| < MAX_LENGTH && at + |EncodeVarint(|data|)| + |data| <= target.Length
    modifies target
    ensures Wrote(old(target[..]), target[..], at, EncodeVarint(|data|) + data)
            && end == at + |EncodeVarint(|data|) + data|
  {
    ghost var x := target[..];
    var mid := WriteVarint32ToArray(|data|, target, at);
    ghost var y := target[..];
    end := WriteRawToArray(data, target, mid);
    WroteBoth(x, y, target[..], at, EncodeVarint(|data|), data);
  }

  method WriteValueToArray(f: Field, target: array<byte>, at: nat) returns (end: nat)
    requires FieldFits(f) && at + |EncodeValue(f)| <= target.Length
    modifies target
    ensures Wrote(old(target[..]), target[..], at, EncodeValue(f)) && end == at + |EncodeValue(f)|
    decreases f, 0
  {
    match f
    case Varint(_, v) => end := WriteVarint64ToArray(v, target, at);
    case Fixed64(_, v) => end := WriteLittleEndianToArray(v, 8, target, at);
    case Delimited(_, d) => end := WriteDelimitedToArray(d, target, at);
    case Group(n, fs) =>
      ghost var x := target[..];
      var mid := SerializeUnknownFieldsToArray(fs, target, at);
      ghost var y := target[..];
      end := WriteTagToArray(MakeTag(n, END_GROUP), target, mid);
      WroteBoth(x, y, target[..], at, Encode(fs), EncodeVarint(MakeTag(n, END_GROUP)));
    case Fixed32(_, v) => end := WriteLittleEndianToArray(v, 4, target, at);
  }

  method WriteFieldToArray(f: Field, target: array<byte>, at: nat) returns (end: nat)
    requires FieldFits(f) && at + |EncodeField(f)| <= target.Length
    modifies target
    ensures Wrote(old(target[..]), target[..], at, EncodeField(f)) && end == at + |EncodeField(f)|
    decreases f, 1
  {
    ghost var x := target[..];
    var mid := WriteTagToArray(Tag(f), target, at);
    ghost var y := target[..];
    end := WriteValueToArray(f, target, mid);
    WroteBoth(x, y, target[..], at, EncodeVarint(Tag(f)), EncodeValue(f));
  }

  /** Writes unknown fields into an array, which must have room for them. */
  method SerializeUnknownFieldsToArray(fields: seq<Field>, target: array<byte>, at: nat) returns (end: nat)
    requires Fits(fields) && at + |Encode(fields)| <= target.Length
    modifies target
    ensures Wrote(old(target[..]), target[..], at, Encode(fields)) && end == at + |Encode(fields)|
    decreases fields, 2
  {
    end := at;
    ghost var x := target[..];
    WroteNothing(x, at);
    for i := 0 to |fields|
      invariant Wrote(x, target[..], at, Encode(fields[..i])) && end == at + |Encode(fields[..i])|
    {
      EncodeNext(fields, i);
      EncodePrefix(fields, i + 1);
      ghost var y := target[..];
      end := WriteFieldToArray(fields[i], target, end);
      WroteBoth(x, y, target[..], at, Encode(fields[..i]), EncodeField(fields[i]));
    }
    assert fields[..|fields|] == fields;
  }

  lemma EncodePrefix(fields: seq<Field>, i: nat)
    requires i <= |fields|
    ensures |Encode(fields[..i])| <= |Encode(fields)|
  {
    EncodeJoin(fields[..i], fields[i..]);
    assert fields[..i] + fields[i..] == fields;
  }

  method WriteStringToArray(number: nat, data: Bytes, target: array<byte>, at: nat) returns (end: nat)
    requires number < MAX_NUMBER && |data| < MAX_LENGTH
    requires at + |EncodeField(Delimited(number, data))| <= target.Length
    modifies target
    ensures Wrote(old(target[..]), target[..], at, EncodeField(Delimited(number, data)))
    ensures end == at + |EncodeField(Delimited(number, data))|
  {
    ghost var x, f := target[..], Delimited(number, data);
    var mid := WriteTagToArray(MakeTag(number, DELIMITED), target, at);
    ghost var y := target[..];
    end := WriteDelimitedToArray(data, target, mid);
    WroteBoth(x, y, target[..], at, EncodeVarint(Tag(f)), EncodeValue(f));
  }

  method WriteInt32ToArray(number: nat, value: int32, target: array<byte>, at: nat) returns (end: nat)
    requires number < MAX_NUMBER
    requires at + |EncodeField(Varint(number, Extended(value)))| <= target.Length
    modifies target
    ensures Wrote(old(target[..]), target[..], at, EncodeField(Varint(number, Extended(value))))
    ensures end == at + |EncodeField(Varint(number, Extended(value)))|
  {
    ghost var x, f := target[..], Varint(number, Extended(value));
    var mid := WriteTagToArray(MakeTag(number, VARINT), target, at);
    ghost var y := target[..];
    if value < 0 {
      end := WriteVarint64ToArray(Extended(value), target, mid);
    } else {
      end := WriteVarint32ToArray(value, target, mid);
    }
    WroteBoth(x, y, target[..], at, EncodeVarint(Tag(f)), EncodeValue(f));
  }

  /** The last part of a message, left out if there are no unknown fields. */
  method WriteUnknownToArray(fields: seq<Field>, target: array<byte>, at: nat) returns (end: nat)
    requires Fits(fields) && at + |Encode(fields)| <= target.Length
    modifies target
    ensures Wrote(old(target[..]), target[..], at, Encode(fields)) && end == at + |Encode(fields)|
  {
    if fields != [] {
      end := SerializeUnknownFieldsToArray(fields, target, at);
    } else {
      WroteNothing(target[..], at);
      end := at;
    }
  }

  // ---------------------------------------------------------------- to a stream

  lemma JoinThree(a: Bytes, b: Bytes, c: Bytes)
    ensures a + b + c == a + (b + c)
  {
  }

  class CodedOutputStream {
    var out: Bytes

    constructor ()
      ensures out == []
    {
      out := [];
    }

    method WriteRaw(data: Bytes)
      modifies this
      ensures out == old(out) + data
    {
      out := out + data;
    }

    /** With room in the buffer a varint is written straight into it, otherwise byte by byte. */
    method WriteVarint64(value: nat)
      requires value < UINT64
      modifies this
      ensures out == old(out) + EncodeVarint(value)
    {
      SizeOf(value);
      var bytes := new byte[10];
      var size;
      if * {
        size := WriteVarint64ToArray(value, bytes, 0);
        assert bytes[..][..size] == EncodeVarint(value);
      } else {
        size := WriteVarintSlowly(value, bytes);
      }
      WriteRaw(bytes[..size]);
    }

    method WriteVarint32(value: nat)
      requires value < UINT32
      modifies this
      ensures out == old(out) + EncodeVarint(value)
    {
      SizeOf(value);
      var bytes := new byte[5];
      var size;
      if * {
        size := WriteVarint32ToArray(value, bytes, 0);
        assert bytes[..][..size] == EncodeVarint(value);
      } else {
        size := WriteVarintSlowly(value, bytes);
      }
      WriteRaw(bytes[..size]);
    }

    method WriteDelimited(data: Bytes)
      requires |data| < MAX_LENGTH
      modifies this
      ensures out == old(out) + (EncodeVarint(|data|) + data)
    {
      WriteVarint32(|data|);
      WriteRaw(data);
      JoinThree(old(out), EncodeVarint(|data|), data);
    }

    /** A string field: tag, length, bytes. */
    method WriteString(number: nat, data: Bytes)
      requires number < MAX_NUMBER && |data| < MAX_LENGTH
      modifies this
      ensures out == old(out) + EncodeField(Delimited(number, data))
    {
      ghost var f := Delimited(number, data);
      WriteVarint32(MakeTag(number, DELIMITED));
      WriteDelimited(data);
      JoinThree(old(out), EncodeVarint(Tag(f)), EncodeValue(f));
    }

    /** An int32 field; a negative number takes the way of a 64-bit one. */
    method WriteInt32(number: nat, value: int32)
      requires number < MAX_NUMBER
      modifies this
      ensures out == old(out) + EncodeField(Varint(number, Extended(value)))
    {
      ghost var f := Varint(number, Extended(value));
      WriteVarint32(MakeTag(number, VARINT));
      if value < 0 {
        WriteVarint64(Extended(value));
      } else {
        WriteVarint32(value);
      }
      JoinThree(old(out), EncodeVarint(Tag(f)), EncodeValue(f));
    }

    method WriteValue(f: Field)
      requires FieldFits(f)
      modifies this
      ensures out == old(out) + EncodeValue(f)
      decreases f, 0
    {
      match f
      case Varint(_, v) => WriteVarint64(v);
      case Fixed64(_, v) => WriteRaw(LittleEndian(v, 8));
      case Delimited(_, d) => WriteDelimited(d);
      case Group(n, fs) =>
        SerializeUnknownFields(fs);
        WriteVarint32(MakeTag(n, END_GROUP));
        JoinThree(old(out), Encode(fs), EncodeVarint(MakeTag(n, END_GROUP)));
      case Fixed32(_, v) => WriteRaw(LittleEndian(v, 4));
    }

    method WriteField(f: Field)
      requires FieldFits(f)
      modifies this
      ensures out == old(out) + EncodeField(f)
      decreases f, 1
    {
      ghost var start, tag, value := out, EncodeVarint(Tag(f)), EncodeValue(f);
      WriteVarint32(Tag(f));
      WriteValue(f);
      JoinThree(start, tag, value);
    }

    /** Writes unknown fields to the stream. */
    method SerializeUnknownFields(fields: seq<Field>)
      requires Fits(fields)
      modifies this
      ensures out == old(out) + Encode(fields)
      decreases fields, 2
    {
      for i := 0 to |fields|
        invariant out == old(out) + Encode(fields[..i])
      {
        EncodeNext(fields, i);
        WriteField(fields[i]);
        JoinThree(old(out), Encode(fields[..i]), EncodeField(fields[i]));
      }
      assert fields[..|fields|] == fields;
    }
  }

  /** Writes a varint seven bits at a time. */
  method WriteVarintSlowly(value: nat, bytes: array<byte>) returns (size: nat)
    requires bytes.Length >= |EncodeVarint(value)|
    modifies bytes
    ensures size == |EncodeVarint(value)| && bytes[..size] == EncodeVarint(value)
  {
    var v := value;
    size := 0;
    while v > 0x7F
      invariant size + |EncodeVarint(v)| <= bytes.Length && bytes[..size] + EncodeVarint(v) == EncodeVarint(value)
    {
      ghost var done := bytes[..size];
      bytes[size] := v % 128 + 128;
      assert bytes[..size + 1] == done + [v % 128 + 128];
      v, size := v / 128, size + 1;
    }
    ghost var done := bytes[..size];
    bytes[size] := v % 128;
    assert bytes[..size + 1] == done + [v];
    size := size + 1;
  }
}
