/** Reading the wire format from a buffer: primitive values, tags, and unknown fields. */
module CodedInput {
  import opened Base128
  import opened Wire
  import opened Messages

  /** A string on the heap, as message fields point at. */
  class StringCell {
    var value: Bytes

    constructor ()
      ensures value == []
    {
      value := [];
    }
  }

  class UnknownFieldSet {
    var fields: seq<Field>

    constructor ()
      ensures fields == []
    {
      fields := [];
    }

    method AddField(f: Field)
      modifies this
      ensures fields == old(fields) + [f]
    {
      fields := fields + [f];
    }

    method Clear()
      modifies this
      ensures fields == []
    {
      fields := [];
    }

    method MergeFrom(other: UnknownFieldSet)
      requires other != this
      modifies this
      ensures fields == old(fields) + other.fields
    {
      for i := 0 to |other.fields|
        invariant fields == old(fields) + other.fields[..i]
      {
        AddField(other.fields[i]);
      }
    }
  }

  class CodedInputStream {
    const buffer: Bytes
    const recursionLimit: nat
    var pos: nat
    var lastTag: nat
    var legitimateMessageEnd: bool
    var recursionDepth: nat

    ghost predicate Valid()
      reads this
    {
      pos <= |buffer|
    }

    /** What has not been read. */
    ghost function Rest(): Bytes
      requires Valid()
      reads this
    {
      buffer[pos..]
    }

    /** How many more levels groups may nest. */
    ghost function Depth(): nat
      reads this
    {
      if recursionDepth <= recursionLimit then recursionLimit - recursionDepth else 0
    }

    constructor (data: Bytes)
      ensures Valid() && buffer == data && Rest() == data && Depth() == RECURSION_LIMIT && !legitimateMessageEnd
    {
      buffer, recursionLimit := data, RECURSION_LIMIT;
      pos, lastTag, legitimateMessageEnd, recursionDepth := 0, 0, false, 0;
    }

    predicate ConsumedEntireMessage()
      reads this
    {
      legitimateMessageEnd
    }

    /** Reads a varint byte by byte; one of the first ten must end it, and bits past the 64th are dropped. */
    method ReadVarint64() returns (ok: bool, value: nat)
      requires Valid()
      modifies `pos
      ensures Valid() && old(pos) <= pos
      ensures ok <==> Base128.ReadVarint64(old(Rest())).Got?
      ensures ok ==> Got(value, Rest()) == Base128.ReadVarint64(old(Rest()))
    {
      ghost var whole, all: nat := Rest(), 0;   // `all` is the value before anything is dropped
      StartVarint(whole);
      value := 0;
      for count := 0 to MAX_VARINT_BYTES
        invariant Valid() && old(pos) <= pos
        invariant Reading(whole, all, value, count, Rest())
      {
        if pos == |buffer| {
          NoMoreBytes(whole, all, value, count, Rest());
          return false, 0;
        }
        var last: bool;
        last, value, all := ReadVarintByte(whole, all, value, count);
        if last {
          return true, value;
        }
      }
      NoMoreBytes(whole, all, value, MAX_VARINT_BYTES, Rest());
      return false, 0;
    }

    method ReadVarintByte(ghost whole: Bytes, ghost all: nat, value: nat, count: nat)
      returns (last: bool, value': nat, ghost all': nat)
      requires Valid() && pos < |buffer| && count < MAX_VARINT_BYTES && Reading(whole, all, value, count, Rest())
      modifies `pos
      ensures Valid() && old(pos) <= pos
      ensures if last then Base128.ReadVarint64(whole) == Got(value', Rest())
              else Reading(whole, all', value', count + 1, Rest())
    {
      var b := buffer[pos];
      ReadMore(whole, all, value, count, Rest());
      value', all', last := Add64(value, Shifted(b, count)), all + Shifted(b, count), b < 128;
      assert buffer[pos + 1..] == Rest()[1..];
      pos := pos + 1;
    }

    /** Reads a varint and keeps its low 32 bits. */
    method ReadVarint32() returns (ok: bool, value: nat)
      requires Valid()
      modifies `pos
      ensures Valid() && old(pos) <= pos
      ensures ok <==> Base128.ReadVarint32(old(Rest())).Got?
      ensures ok ==> Got(value, Rest()) == Base128.ReadVarint32(old(Rest()))
    {
      ok, value := ReadVarint64();
      if ok {
        LowBits(old(Rest()));
        value := value % UINT32;
      }
    }

    /** Reads a fixed-width word, least significant byte first. */
    method ReadLittleEndian(width: nat) returns (ok: bool, value: nat)
      requires Valid() && (width == 4 || width == 8)
      modifies `pos
      ensures Valid() && old(pos) <= pos
      ensures ok <==> Wire.ReadLittleEndian(old(Rest()), width).Got?
      ensures ok ==> Got(value, Rest()) == Wire.ReadLittleEndian(old(Rest()), width)
    {
      if |buffer| - pos < width {
        return false, 0;
      }
      value := FromLittleEndian(buffer[pos..pos + width]);
      assert Rest()[..width] == buffer[pos..pos + width] && Rest()[width..] == buffer[pos + width..];
      pos := pos + width;
      return true, value;
    }

    /** Reads a tag; 0 stands for the end of the input, for a tag that cannot be read, and for itself. */
    method ReadTag() returns (tag: nat)
      requires Valid()
      modifies `pos, `lastTag, `legitimateMessageEnd
      ensures Valid() && old(pos) <= pos && lastTag == tag
      ensures legitimateMessageEnd == (old(legitimateMessageEnd) || old(Rest()) == [])
      ensures old(Rest()) == [] ==> pos == old(pos)
      ensures match Wire.ReadTag(old(Rest())) case Failed => tag == 0 case got => Got(tag, Rest()) == got
    {
      if pos == |buffer| {
        legitimateMessageEnd, lastTag := true, 0;
        return 0;
      }
      var ok: bool;
      ok, tag := ReadVarint32();
      if !ok {
        tag := 0;
      }
      lastTag := tag;
    }

    method LastTagWas(expected: nat) returns (yes: bool)
      ensures yes <==> lastTag == expected
    {
      return lastTag == expected;
    }

    /** Takes a tag of one or two bytes if it is known to come next. It may always answer no. */
    method ExpectTag(expected: nat) returns (yes: bool)
      requires Valid()
      modifies `pos
      ensures Valid() && old(pos) <= pos
      ensures yes ==> Base128.ReadVarint32(old(Rest())) == Got(expected, Rest())
      ensures !yes ==> pos == old(pos)
    {
      if expected < 0x80 {
        if pos < |buffer| && buffer[pos] == expected {
          if * {
            assert buffer[pos + 1..] == Rest()[1..];
            pos := pos + 1;
            return true;
          }
        }
      } else if expected < 0x4000 {
        if |buffer| - pos >= 2 && buffer[pos] == expected % 128 + 128 && buffer[pos + 1] == expected / 128 {
          if * {
            assert buffer[pos + 1..] == Rest()[1..] && buffer[pos + 2..] == Rest()[1..][1..];
            pos := pos + 2;
            return true;
          }
        }
      }
      return false;
    }

    /** Acts as if the end had been read if it is known to be there. It may always answer no. */
    method ExpectAtEnd() returns (yes: bool)
      requires Valid()
      modifies `lastTag, `legitimateMessageEnd
      ensures Valid()
      ensures yes ==> Rest() == [] && lastTag == 0 && legitimateMessageEnd
      ensures !yes ==> lastTag == old(lastTag) && legitimateMessageEnd == old(legitimateMessageEnd)
    {
      if pos == |buffer| {
        if * {
          lastTag, legitimateMessageEnd := 0, true;
          return true;
        }
      }
      return false;
    }

    /** Reads a length and that many bytes into a string. */
    method ReadString(cell: StringCell) returns (ok: bool)
      requires Valid()
      modifies `pos, cell
      ensures Valid() && old(pos) <= pos
      ensures ok <==> ReadDelimited(old(Rest())).Got?
      ensures ok ==> Got(cell.value, Rest()) == ReadDelimited(old(Rest()))
    {
      var size: nat;
      ok, size := ReadVarint32();
      if !ok {
        return false;
      }
      if size >= MAX_LENGTH {   // negative as a 32-bit int
        return false;
      }
      if |buffer| - pos < size {
        cell.value := buffer[pos..];
        pos := |buffer|;
        return false;
      }
      assert Rest()[..size] == buffer[pos..pos + size] && Rest()[size..] == buffer[pos + size..];
      cell.value := buffer[pos..pos + size];
      pos := pos + size;
    }

    method IncrementRecursionDepth() returns (ok: bool)
      modifies `recursionDepth
      ensures recursionDepth == old(recursionDepth) + 1 && (ok <==> old(Depth()) > 0)
    {
      recursionDepth := recursionDepth + 1;
      return recursionDepth <= recursionLimit;
    }

    method DecrementRecursionDepth()
      modifies `recursionDepth
      ensures recursionDepth == if old(recursionDepth) > 0 then old(recursionDepth) - 1 else 0
    {
      if recursionDepth > 0 {
        recursionDepth := recursionDepth - 1;
      }
    }

    /** The state in which a message that stopped like this leaves the stream. */
    ghost predicate StoppedAt(stop: Stop, rest: Bytes)
      requires Valid()
      reads this
    {
      match stop
      case EndOfInput => lastTag == 0 && legitimateMessageEnd && Rest() == rest
      case BadTag => lastTag == 0
      case EndGroup(n) => lastTag == MakeTag(n, END_GROUP) && Rest() == rest
      case Broken => false
    }
  }

  /** Whether a message parser has failed, has reached the end, or goes on. */
  datatype Progress = Fail | Finish | More

  // ---------------------------------------------------------------- unknown fields

  function Collect(fields: seq<Field>, f: Field): seq<Field> {
    fields + [f]
  }

  lemma {:induction false} CollectAll(init: seq<Field>, fields: seq<Field>)
    ensures Fold(Collect, init, fields) == init + fields
    decreases |fields|
  {
    if fields == [] {
      assert init + [] == init;
    } else {
      CollectAll(init + [fields[0]], fields[1..]);
      assert init + [fields[0]] + fields[1..] == init + fields;
    }
  }

  /** One more unknown field was read. */
  predicate Added(before: seq<Field>, after: seq<Field>, r: Read<Field>, rest: Bytes) {
    r.Got? && after == before + [r.value] && rest == r.rest
  }

  /** Reads the value after `tag` into the unknown fields. */
  method SkipField(input: CodedInputStream, tag: nat, unknown: UnknownFieldSet) returns (ok: bool)
    requires input.Valid()
    modifies input, unknown
    ensures input.Valid() && old(input.pos) <= input.pos
    ensures ok <==> ReadField(tag, old(input.Rest()), old(input.Depth())).Got?
    ensures ok ==> Added(old(unknown.fields), unknown.fields,
                         ReadField(tag, old(input.Rest()), old(input.Depth())), input.Rest())
    ensures ok ==> input.recursionDepth == old(input.recursionDepth)
    ensures ok ==> input.legitimateMessageEnd == old(input.legitimateMessageEnd)
    decreases |input.buffer| - input.pos, 1
  {
    match tag % 8
    case 2 =>
      ok := SkipDelimited(input, tag, unknown);
    case 3 =>
      ok := SkipGroup(input, tag / 8, unknown);
    case 4 =>
      ok := false;
    case _ =>
      ok := SkipNumber(input, tag, unknown);
  }

  method SkipDelimited(input: CodedInputStream, tag: nat, unknown: UnknownFieldSet) returns (ok: bool)
    requires input.Valid() && tag % 8 == DELIMITED
    modifies input`pos, unknown
    ensures input.Valid() && old(input.pos) <= input.pos
    ensures var r := ReadField(tag, old(input.Rest()), input.Depth());
      (ok <==> r.Got?) && (ok ==> Added(old(unknown.fields), unknown.fields, r, input.Rest()))
  {
    DelimitedField(tag, input.Rest(), input.Depth());
    var data := new StringCell();
    ok := input.ReadString(data);
    if ok {
      unknown.AddField(Delimited(tag / 8, data.value));
    }
  }

  /** Reads a varint or a word of fixed width; the remaining wire types do not exist. */
  method SkipNumber(input: CodedInputStream, tag: nat, unknown: UnknownFieldSet) returns (ok: bool)
    requires input.Valid() && tag % 8 !in {DELIMITED, START_GROUP, END_GROUP}
    modifies input`pos, unknown
    ensures input.Valid() && old(input.pos) <= input.pos
    ensures var r := ReadField(tag, old(input.Rest()), input.Depth());
      (ok <==> r.Got?) && (ok ==> Added(old(unknown.fields), unknown.fields, r, input.Rest()))
  {
    var value: nat;
    if tag % 8 == VARINT {
      ok, value := input.ReadVarint64();
    } else if tag % 8 == FIXED64 {
      ok, value := input.ReadLittleEndian(8);
    } else if tag % 8 == FIXED32 {
      ok, value := input.ReadLittleEndian(4);
    } else {
      return false;
    }
    if ok {
      unknown.AddField(NumberField(tag, value));
    }
  }

  function NumberField(tag: nat, value: nat): Field {
    if tag % 8 == VARINT then Varint(tag / 8, value)
    else if tag % 8 == FIXED64 then Fixed64(tag / 8, value)
    else Fixed32(tag / 8, value)
  }

  /** Reads a group, which must be closed by its own tag. */
  method SkipGroup(input: CodedInputStream, number: nat, unknown: UnknownFieldSet) returns (ok: bool)
    requires input.Valid()
    modifies input, unknown
    ensures input.Valid() && old(input.pos) <= input.pos
    ensures var tag := MakeTag(number, START_GROUP);
      && (ok <==> ReadField(tag, old(input.Rest()), old(input.Depth())).Got?)
      && (ok ==> Added(old(unknown.fields), unknown.fields,
                       ReadField(tag, old(input.Rest()), old(input.Depth())), input.Rest()))
    ensures ok ==> input.recursionDepth == old(input.recursionDepth)
    ensures ok ==> input.legitimateMessageEnd == old(input.legitimateMessageEnd)
    decreases |input.buffer| - input.pos, 0, 1
  {
    TagParts(number, START_GROUP);
    ok := input.IncrementRecursionDepth();
    if !ok {
      return false;
    }
    var group := new UnknownFieldSet();
    ghost var inner := ScanFields(input.Rest(), input.Depth());
    CollectAll([], inner.fields);
    assert [] + inner.fields == inner.fields;
    ok := SkipMessage(input, group);
    if !ok {
      return false;
    }
    input.DecrementRecursionDepth();
    ok := input.LastTagWas(MakeTag(number, END_GROUP));
    assert ok <==> inner.stop == EndGroup(number);
    if ok {
      unknown.AddField(Group(number, group.fields));
    }
  }

  /** Reads fields up to the end of the message or group and keeps them all. */
  method SkipMessage(input: CodedInputStream, unknown: UnknownFieldSet) returns (ok: bool)
    requires input.Valid()
    modifies input, unknown
    ensures input.Valid() && old(input.pos) <= input.pos
    ensures var p := Parse(Collect, old(unknown.fields), old(input.Rest()), old(input.Depth()));
      && (ok <==> p.stop != Broken)
      && (ok ==> unknown.fields == p.message && input.StoppedAt(p.stop, p.rest))
      && (ok ==> input.legitimateMessageEnd == (old(input.legitimateMessageEnd) || p.stop == EndOfInput))
    ensures ok ==> input.recursionDepth == old(input.recursionDepth)
    decreases |input.buffer| - input.pos, 0, 0
  {
    while true
      invariant input.Valid() && old(input.pos) <= input.pos && input.recursionDepth == old(input.recursionDepth)
      invariant input.legitimateMessageEnd == old(input.legitimateMessageEnd)
      invariant Parse(Collect, unknown.fields, input.Rest(), input.Depth())
             == Parse(Collect, old(unknown.fields), old(input.Rest()), old(input.Depth()))
      decreases |input.buffer| - input.pos
    {
      ghost var b := input.Rest();
      var tag := input.ReadTag();
      if tag == 0 {
        return true;
      }
      if tag % 8 == END_GROUP {
        return true;
      }
      ParseStep(Collect, unknown.fields, b, tag, input.Rest(), input.Depth());
      ok := SkipField(input, tag, unknown);
      if !ok {
        return false;
      }
    }
  }

  /** A number of which the low digits, worth less than `p`, have been read. */
  function Continued(low: nat, p: nat, r: Read<nat>): Read<nat> {
    match r
    case Failed => Failed
    case Got(v, rest) => Got(low + p * v, rest)
  }

  /** After `count` bytes of `whole` the digits read so far are worth `all`, of which `value` has been kept. */
  ghost predicate Reading(whole: Bytes, all: nat, value: nat, count: nat, rest: Bytes) {
    && count <= MAX_VARINT_BYTES && value == all % UINT64
    && ReadVarint(whole, MAX_VARINT_BYTES) == Continued(all, Pow128(count), ReadVarint(rest, MAX_VARINT_BYTES - count))
  }

  lemma StartVarint(whole: Bytes)
    ensures Reading(whole, 0, 0, 0, whole)
  {
    assert Pow128(0) == 1;
  }

  lemma NoMoreBytes(whole: Bytes, all: nat, value: nat, count: nat, rest: Bytes)
    requires Reading(whole, all, value, count, rest) && (count == MAX_VARINT_BYTES || rest == [])
    ensures Base128.ReadVarint64(whole) == Failed
  {
  }

  /** The seven bits of a byte, moved to their place. */
  function Shifted(b: byte, count: nat): nat {
    b % 128 * Pow128(count)
  }

  /** Sixty-four bits of a sum. */
  function Add64(a: nat, b: nat): nat {
    (a + b) % UINT64
  }

  lemma Add64Drops(all: nat, value: nat, more: nat)
    requires value == all % UINT64
    ensures Add64(value, more) == (all + more) % UINT64
  {
  }

  lemma Distribute(low: nat, p: nat, c: nat, v: nat)
    ensures low + p * (c + 128 * v) == low + c * p + 128 * p * v
  {
  }

  /** What is read when seven more bits stand before the rest. */
  function OneMoreDigit(c: nat, r: Read<nat>): Read<nat> {
    match r
    case Failed => Failed
    case Got(v, rest) => Got(c + 128 * v, rest)
  }

  lemma ContinuedMore(low: nat, p: nat, c: nat, r: Read<nat>)
    ensures Continued(low, p, OneMoreDigit(c, r)) == Continued(low + c * p, 128 * p, r)
  {
    if r.Got? {
      Distribute(low, p, c, r.value);
    }
  }

  lemma MoreDigits(low: nat, count: nat, rest: Bytes, limit: nat)
    requires rest != [] && limit > 0
    ensures Continued(low, Pow128(count), ReadVarint(rest, limit))
         == if rest[0] < 128 then Got(low + Shifted(rest[0], count), rest[1..])
            else Continued(low + Shifted(rest[0], count), Pow128(count + 1), ReadVarint(rest[1..], limit - 1))
  {
    if rest[0] >= 128 {
      var r := ReadVarint(rest[1..], limit - 1);
      assert ReadVarint(rest, limit) == OneMoreDigit(rest[0] % 128, r);
      ContinuedMore(low, Pow128(count), rest[0] % 128, r);
    }
  }

  lemma ReadMore(whole: Bytes, all: nat, value: nat, count: nat, rest: Bytes)
    requires Reading(whole, all, value, count, rest) && count < MAX_VARINT_BYTES && rest != []
    ensures var d := Shifted(rest[0], count);
            if rest[0] < 128 then Base128.ReadVarint64(whole) == Got(Add64(value, d), rest[1..])
            else Reading(whole, all + d, Add64(value, d), count + 1, rest[1..])
  {
    MoreDigits(all, count, rest, MAX_VARINT_BYTES - count);
    Add64Drops(all, value, Shifted(rest[0], count));
  }
}
