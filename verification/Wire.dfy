/**
 The fields of a message as a byte string carries them: a tag (field number and wire type)
 and a value. Groups nest. Scanning is what a parser does that recognises no field at all.
 */
module Wire {
  import opened Base128

  datatype Field =
    | Varint(number: nat, value: nat)
    | Fixed64(number: nat, value: nat)
    | Delimited(number: nat, data: Bytes)
    | Group(number: nat, fields: seq<Field>)
    | Fixed32(number: nat, value: nat)

  const VARINT := 0
  const FIXED64 := 1
  const DELIMITED := 2
  const START_GROUP := 3
  const END_GROUP := 4
  const FIXED32 := 5

  const MAX_NUMBER: nat := 0x2000_0000   // field numbers have 29 bits
  const MAX_LENGTH: nat := 0x8000_0000   // lengths are non-negative 32-bit ints

  function WireType(f: Field): nat {
    match f
    case Varint(_, _) => VARINT
    case Fixed64(_, _) => FIXED64
    case Delimited(_, _) => DELIMITED
    case Group(_, _) => START_GROUP
    case Fixed32(_, _) => FIXED32
  }

  function MakeTag(number: nat, wireType: nat): nat {
    8 * number + wireType
  }

  function Tag(f: Field): nat {
    MakeTag(f.number, WireType(f))
  }

  /** The values fit the widths they have in memory. */
  predicate Fits(fields: seq<Field>) {
    forall i | 0 <= i < |fields| :: FieldFits(fields[i])
  }

  predicate FieldFits(f: Field) {
    && f.number < MAX_NUMBER
    && match f
       case Varint(_, v) => v < UINT64
       case Fixed64(_, v) => v < UINT64
       case Delimited(_, d) => |d| < MAX_LENGTH
       case Group(_, fs) => Fits(fs)
       case Fixed32(_, v) => v < UINT32
  }

  // ---------------------------------------------------------------- little-endian words

  function LittleEndian(n: nat, width: nat): (b: Bytes)
    ensures |b| == width
  {
    if width == 0 then [] else [n % 256] + LittleEndian(n / 256, width - 1)
  }

  function FromLittleEndian(b: Bytes): nat {
    if b == [] then 0 else b[0] + 256 * FromLittleEndian(b[1..])
  }

  function Pow256(k: nat): nat {
    if k == 0 then 1 else 256 * Pow256(k - 1)
  }

  lemma {:induction false} WordRoundTrip(n: nat, width: nat)
    requires n < Pow256(width)
    ensures FromLittleEndian(LittleEndian(n, width)) == n
    decreases width
  {
    if width > 0 {
      WordRoundTrip(n / 256, width - 1);
      assert LittleEndian(n, width)[1..] == LittleEndian(n / 256, width - 1);
    }
  }

  lemma {:induction false} WordBound(b: Bytes)
    ensures FromLittleEndian(b) < Pow256(|b|)
    decreases |b|
  {
    if b != [] {
      WordBound(b[1..]);
    }
  }

  lemma Pow256Values()
    ensures Pow256(4) == UINT32 && Pow256(8) == UINT64
  {
    assert Pow256(0) == 1;
    assert Pow256(2) == 256 * Pow256(1);
    assert Pow256(4) == 256 * Pow256(3);
    assert Pow256(6) == 256 * Pow256(5);
  }

  function ReadLittleEndian(b: Bytes, width: nat): (r: Read<nat>)
    ensures r.Got? ==> |r.rest| <= |b| && r.value < Pow256(width)
  {
    if |b| < width then Failed
    else
      WordBound(b[..width]);
      Got(FromLittleEndian(b[..width]), b[width..])
  }

  lemma WordIsRead(n: nat, width: nat, rest: Bytes)
    requires n < Pow256(width)
    ensures ReadLittleEndian(LittleEndian(n, width) + rest, width) == Got(n, rest)
  {
    var b := LittleEndian(n, width) + rest;
    assert b[..width] == LittleEndian(n, width) && b[width..] == rest;
    WordRoundTrip(n, width);
  }

  // ---------------------------------------------------------------- scanning

  /** Why a scan stopped. */
  datatype Stop =
    | EndOfInput
    | BadTag                  // the next tag is zero or cannot be read
    | EndGroup(number: nat)
    | Broken                  // the value after a tag cannot be read

  datatype Scan = Scan(fields: seq<Field>, stop: Stop, rest: Bytes)

  function ReadTag(b: Bytes): (r: Read<nat>)
    ensures r.Got? ==> |r.rest| < |b| && 0 < r.value < UINT32
  {
    var r := ReadVarint32(b);
    if r.Got? && r.value != 0 then r else Failed
  }

  function ReadDelimited(b: Bytes): (r: Read<Bytes>)
    ensures r.Got? ==> |r.rest| <= |b| && |r.value| < MAX_LENGTH
  {
    match ReadVarint32(b)
    case Failed => Failed
    case Got(length, rest) =>
      if length >= MAX_LENGTH || length > |rest| then Failed else Got(rest[..length], rest[length..])
  }

  /** Reads the value that follows a tag; groups may nest `depth` levels from here. */
  function ReadField(tag: nat, b: Bytes, depth: nat): (r: Read<Field>)
    ensures r.Got? ==> |r.rest| <= |b| && Tag(r.value) == tag
    decreases |b|, 1
  {
    var number := tag / 8;
    match tag % 8
    case 0 =>
      (match ReadVarint64(b)
       case Failed => Failed
       case Got(v, rest) => Got(Varint(number, v), rest))
    case 1 =>
      (match ReadLittleEndian(b, 8)
       case Failed => Failed
       case Got(v, rest) => Got(Fixed64(number, v), rest))
    case 2 =>
      (match ReadDelimited(b)
       case Failed => Failed
       case Got(d, rest) => Got(Delimited(number, d), rest))
    case 3 =>
      if depth == 0 then Failed
      else
        var inner := ScanFields(b, depth - 1);
        if inner.stop == EndGroup(number) then Got(Group(number, inner.fields), inner.rest) else Failed
    case 5 =>
      (match ReadLittleEndian(b, 4)
       case Failed => Failed
       case Got(v, rest) => Got(Fixed32(number, v), rest))
    case _ => Failed
  }

  lemma DelimitedField(tag: nat, b: Bytes, depth: nat)
    requires tag % 8 == DELIMITED
    ensures ReadField(tag, b, depth) == match ReadDelimited(b)
              case Failed => Failed
              case Got(d, rest) => Got(Delimited(tag / 8, d), rest)
  {
  }

  lemma VarintField(tag: nat, b: Bytes, depth: nat)
    requires tag % 8 == VARINT
    ensures ReadField(tag, b, depth) == match ReadVarint64(b)
              case Failed => Failed
              case Got(v, rest) => Got(Varint(tag / 8, v), rest)
  {
  }

  /** Reads fields until the input ends or something else than a field turns up. */
  function ScanFields(b: Bytes, depth: nat): (s: Scan)
    ensures |s.rest| <= |b|
    ensures s.stop == EndOfInput ==> s.rest == []
    decreases |b|, 0
  {
    if b == [] then Scan([], EndOfInput, b)
    else match ReadTag(b)
      case Failed => Scan([], BadTag, b)
      case Got(tag, rest) =>
        if tag % 8 == END_GROUP then Scan([], EndGroup(tag / 8), rest)
        else match ReadField(tag, rest, depth)
          case Failed => Scan([], Broken, rest)
          case Got(f, rest') => Before([f], ScanFields(rest', depth))
  }

  function Before(fields: seq<Field>, s: Scan): Scan {
    s.(fields := fields + s.fields)
  }

  // ---------------------------------------------------------------- concatenation

  lemma ReadTagAppend(b: Bytes, c: Bytes)
    requires ReadTag(b).Got?
    ensures ReadTag(b + c) == Got(ReadTag(b).value, ReadTag(b).rest + c)
  {
    ReadAppend(b, c, MAX_VARINT_BYTES);
  }

  lemma ReadWordAppend(b: Bytes, c: Bytes, width: nat)
    requires ReadLittleEndian(b, width).Got?
    ensures ReadLittleEndian(b + c, width) == Got(ReadLittleEndian(b, width).value, ReadLittleEndian(b, width).rest + c)
  {
    assert (b + c)[..width] == b[..width] && (b + c)[width..] == b[width..] + c;
  }

  lemma ReadDelimitedAppend(b: Bytes, c: Bytes)
    requires ReadDelimited(b).Got?
    ensures ReadDelimited(b + c) == Got(ReadDelimited(b).value, ReadDelimited(b).rest + c)
  {
    ReadAppend(b, c, MAX_VARINT_BYTES);
    var r := ReadVarint32(b);
    assert (r.rest + c)[..r.value] == r.rest[..r.value] && (r.rest + c)[r.value..] == r.rest[r.value..] + c;
  }

  lemma {:induction false} ReadFieldAppend(tag: nat, b: Bytes, c: Bytes, depth: nat)
    requires ReadField(tag, b, depth).Got?
    ensures ReadField(tag, b + c, depth) == Got(ReadField(tag, b, depth).value, ReadField(tag, b, depth).rest + c)
    decreases |b|, 1
  {
    match tag % 8
    case 0 => ReadAppend(b, c, MAX_VARINT_BYTES);
    case 1 => ReadWordAppend(b, c, 8);
    case 2 => ReadDelimitedAppend(b, c);
    case 3 => ScanAppend(b, c, depth - 1);
    case 5 => ReadWordAppend(b, c, 4);
    case _ =>
  }

  /** What a scan becomes when `c` follows its input. */
  function Appended(s: Scan, c: Bytes, depth: nat): Scan {
    match s.stop
    case EndOfInput => Before(s.fields, ScanFields(c, depth))
    case _ => s.(rest := s.rest + c)
  }

  lemma BeforeAppended(f: Field, s: Scan, c: Bytes, depth: nat)
    ensures Before([f], Appended(s, c, depth)) == Appended(Before([f], s), c, depth)
  {
    if s.stop.EndOfInput? {
      assert [f] + (s.fields + ScanFields(c, depth).fields) == [f] + s.fields + ScanFields(c, depth).fields;
    }
  }

  /**
   Scanning two byte strings put together: if the first ends properly the scan goes on with
   the second; if the first ends a group the second is left over.
   */
  lemma {:induction false} ScanAppend(b: Bytes, c: Bytes, depth: nat)
    requires ScanFields(b, depth).stop.EndOfInput? || ScanFields(b, depth).stop.EndGroup?
    ensures ScanFields(b + c, depth) == Appended(ScanFields(b, depth), c, depth)
    decreases |b|, 0
  {
    if b == [] {
      assert b + c == c && [] + ScanFields(c, depth).fields == ScanFields(c, depth).fields;
    } else {
      ReadTagAppend(b, c);
      var t := ReadTag(b);
      if t.value % 8 != END_GROUP {
        ReadFieldAppend(t.value, t.rest, c, depth);
        var r := ReadField(t.value, t.rest, depth);
        ScanAppend(r.rest, c, depth);
        BeforeAppended(r.value, ScanFields(r.rest, depth), c, depth);
      }
    }
  }

  // ---------------------------------------------------------------- writing

  /** The bytes of a sequence of fields. */
  function Encode(fields: seq<Field>): Bytes {
    if fields == [] then [] else EncodeField(fields[0]) + Encode(fields[1..])
  }

  function EncodeField(f: Field): Bytes
    decreases f, 1
  {
    EncodeVarint(Tag(f)) + EncodeValue(f)
  }

  function EncodeValue(f: Field): Bytes
    decreases f, 0
  {
    match f
    case Varint(_, v) => EncodeVarint(v)
    case Fixed64(_, v) => LittleEndian(v, 8)
    case Delimited(_, d) => EncodeVarint(|d|) + d
    case Group(n, fs) => Encode(fs) + EncodeVarint(MakeTag(n, END_GROUP))
    case Fixed32(_, v) => LittleEndian(v, 4)
  }

  /** No tag is zero, and groups nest at most `depth` deep. */
  predicate Recoverable(fields: seq<Field>, depth: nat)
    decreases fields
  {
    forall i | 0 <= i < |fields| :: FieldRecoverable(fields[i], depth)
  }

  predicate FieldRecoverable(f: Field, depth: nat)
    decreases f
  {
    Tag(f) != 0 && (f.Group? ==> depth > 0 && Recoverable(f.fields, depth - 1))
  }

  lemma WrittenTagIsRead(tag: nat, c: Bytes)
    requires tag < UINT32
    ensures ReadTag(EncodeVarint(tag) + c) == if tag == 0 then Failed else Got(tag, c)
  {
    Written32IsRead(tag, c);
  }

  /** A scan of bytes that start with this tag. */
  function AfterTag(tag: nat, v: Bytes, depth: nat): Scan {
    match ReadField(tag, v, depth)
    case Failed => Scan([], Broken, v)
    case Got(f, rest) => Before([f], ScanFields(rest, depth))
  }

  lemma ScanAfterTag(tag: nat, v: Bytes, depth: nat)
    requires tag < UINT32 && tag % 8 != END_GROUP
    ensures if tag == 0 then ScanFields(EncodeVarint(tag) + v, depth).stop.BadTag?
            else ScanFields(EncodeVarint(tag) + v, depth) == AfterTag(tag, v, depth)
  {
    WrittenTagIsRead(tag, v);
  }

  lemma TagParts(number: nat, wireType: nat)
    requires wireType < 8
    ensures MakeTag(number, wireType) / 8 == number && MakeTag(number, wireType) % 8 == wireType
  {
  }

  lemma DelimitedWritten(d: Bytes, c: Bytes)
    requires |d| < MAX_LENGTH
    ensures ReadDelimited(EncodeVarint(|d|) + d + c) == Got(d, c)
  {
    Written32IsRead(|d|, d + c);
    assert EncodeVarint(|d|) + d + c == EncodeVarint(|d|) + (d + c);
    assert (d + c)[..|d|] == d && (d + c)[|d|..] == c;
  }

  /** A group that is closed by its own tag. */
  lemma {:induction false} GroupWritten(number: nat, fields: seq<Field>, c: Bytes, depth: nat)
    requires number < MAX_NUMBER && Fits(fields)
    ensures var s := ScanFields(Encode(fields) + EncodeVarint(MakeTag(number, END_GROUP)) + c, depth);
            if Recoverable(fields, depth) then s == Scan(fields, EndGroup(number), c) else !s.stop.EndGroup?
    decreases fields, 1
  {
    var end := EncodeVarint(MakeTag(number, END_GROUP)) + c;
    WrittenTagIsRead(MakeTag(number, END_GROUP), c);
    TagParts(number, END_GROUP);
    assert ScanFields(end, depth) == Scan([], EndGroup(number), c);
    FieldsWritten(fields, end, depth);
    assert Encode(fields) + EncodeVarint(MakeTag(number, END_GROUP)) + c == Encode(fields) + end;
    assert fields + [] == fields;
  }

  /** One field is read back exactly when its tag is not zero and its groups are not too deep. */
  lemma {:induction false} FieldWritten(f: Field, c: Bytes, depth: nat)
    requires FieldFits(f) && Tag(f) != 0
    ensures ReadsBack(f, EncodeValue(f) + c, c, depth)
    decreases f
  {
    TagParts(f.number, WireType(f));
    Pow256Values();
    match f
    case Varint(_, v) => Written64IsRead(v, c);
    case Fixed64(_, v) => WordIsRead(v, 8, c);
    case Delimited(_, d) => DelimitedWritten(d, c);
    case Group(n, fs) => if depth > 0 { GroupWritten(n, fs, c, depth - 1); }
    case Fixed32(_, v) => WordIsRead(v, 4, c);
  }

  predicate ReadsBack(f: Field, b: Bytes, c: Bytes, depth: nat) {
    ReadField(Tag(f), b, depth) == if FieldRecoverable(f, depth) then Got(f, c) else Failed
  }

  /** What scanning written fields gives, when scanning what follows them gives `next`. */
  predicate ScansBack(fields: seq<Field>, depth: nat, s: Scan, next: Scan) {
    if Recoverable(fields, depth) then s == Before(fields, next) else s.stop.BadTag? || s.stop.Broken?
  }

  /** Written fields are all read back, or the scan stops early. */
  lemma {:induction false} FieldsWritten(fields: seq<Field>, c: Bytes, depth: nat)
    requires Fits(fields)
    ensures ScansBack(fields, depth, ScanFields(Encode(fields) + c, depth), ScanFields(c, depth))
    decreases fields, 0
  {
    if fields == [] {
      assert Encode(fields) + c == c && fields + ScanFields(c, depth).fields == ScanFields(c, depth).fields;
    } else {
      var f, c' := fields[0], Encode(fields[1..]) + c;
      if Tag(f) != 0 {
        FieldWritten(f, c', depth);
      }
      FirstWritten(f, c', depth);
      FieldsWritten(fields[1..], c, depth);
      assert Encode(fields) + c == EncodeField(f) + c';
      FirstThenRest(fields, depth, ScanFields(EncodeField(f) + c', depth), ScanFields(c', depth), ScanFields(c, depth));
    }
  }

  lemma FirstWritten(f: Field, c: Bytes, depth: nat)
    requires FieldFits(f) && (Tag(f) != 0 ==> ReadsBack(f, EncodeValue(f) + c, c, depth))
    ensures ScansBack([f], depth, ScanFields(EncodeField(f) + c, depth), ScanFields(c, depth))
  {
    FirstScanned(f, c, depth);
    FirstScansBack(f, EncodeValue(f) + c, c, depth, ScanFields(EncodeField(f) + c, depth));
  }

  lemma FirstScanned(f: Field, c: Bytes, depth: nat)
    requires FieldFits(f)
    ensures var s := ScanFields(EncodeField(f) + c, depth);
            if Tag(f) == 0 then s.stop.BadTag? else s == AfterTag(Tag(f), EncodeValue(f) + c, depth)
  {
    var t, v := Tag(f), EncodeValue(f);
    assert EncodeField(f) + c == EncodeVarint(t) + (v + c);
    TagParts(f.number, WireType(f));
    ScanAfterTag(t, v + c, depth);
  }

  lemma FirstScansBack(f: Field, v: Bytes, c: Bytes, depth: nat, s: Scan)
    requires if Tag(f) == 0 then s.stop.BadTag? else ReadsBack(f, v, c, depth) && s == AfterTag(Tag(f), v, depth)
    ensures ScansBack([f], depth, s, ScanFields(c, depth))
  {
    RecoverableFirst([f], depth);
    assert [f][1..] == [];
  }

  lemma FirstThenRest(fields: seq<Field>, depth: nat, s: Scan, s': Scan, next: Scan)
    requires fields != [] && ScansBack([fields[0]], depth, s, s') && ScansBack(fields[1..], depth, s', next)
    ensures ScansBack(fields, depth, s, next)
  {
    RecoverableFirst(fields, depth);
    assert [fields[0]][0] == fields[0];
    assert [fields[0]] + (fields[1..] + next.fields) == fields + next.fields;
  }

  lemma RecoverableFirst(fields: seq<Field>, depth: nat)
    requires fields != []
    ensures Recoverable(fields, depth) <==> FieldRecoverable(fields[0], depth) && Recoverable(fields[1..], depth)
  {
    if FieldRecoverable(fields[0], depth) && Recoverable(fields[1..], depth) {
      forall i | 0 <= i < |fields| ensures FieldRecoverable(fields[i], depth) {
        assert i > 0 ==> fields[i] == fields[1..][i - 1];
      }
    }
  }

  lemma RecoverableJoin(x: seq<Field>, y: seq<Field>, depth: nat)
    ensures Recoverable(x + y, depth) <==> Recoverable(x, depth) && Recoverable(y, depth)
  {
    if Recoverable(x + y, depth) {
      forall i | 0 <= i < |x| ensures FieldRecoverable(x[i], depth) {
        assert (x + y)[i] == x[i];
      }
      forall i | 0 <= i < |y| ensures FieldRecoverable(y[i], depth) {
        assert (x + y)[|x| + i] == y[i];
      }
    }
  }

  /** Writing fields and scanning them gives them back exactly when no tag is zero and no group too deep. */
  lemma RoundTripExactly(fields: seq<Field>, depth: nat)
    requires Fits(fields)
    ensures ScanFields(Encode(fields), depth) == Scan(fields, EndOfInput, []) <==> Recoverable(fields, depth)
  {
    FieldsWritten(fields, [], depth);
    assert Encode(fields) + [] == Encode(fields) && fields + [] == fields;
  }

  /** Whatever is scanned, from canonical bytes or not, can be written and scanned again. */
  lemma {:induction false} ScannedIsRecoverable(b: Bytes, depth: nat)
    ensures Fits(ScanFields(b, depth).fields) && Recoverable(ScanFields(b, depth).fields, depth)
    decreases |b|, 0
  {
    if b != [] && ReadTag(b).Got? {
      var t := ReadTag(b);
      if t.value % 8 != END_GROUP && ReadField(t.value, t.rest, depth).Got? {
        FieldReadIsRecoverable(t.value, t.rest, depth);
        ScannedIsRecoverable(ReadField(t.value, t.rest, depth).rest, depth);
      }
    }
  }

  lemma {:induction false} FieldReadIsRecoverable(tag: nat, b: Bytes, depth: nat)
    requires 0 < tag < UINT32 && ReadField(tag, b, depth).Got?
    ensures FieldFits(ReadField(tag, b, depth).value) && FieldRecoverable(ReadField(tag, b, depth).value, depth)
    decreases |b|, 1
  {
    Pow256Values();
    if tag % 8 == START_GROUP {
      ScannedIsRecoverable(b, depth - 1);
    }
  }

  // ---------------------------------------------------------------- the bytes of a field

  lemma {:induction false} WordBack(b: Bytes)
    ensures LittleEndian(FromLittleEndian(b), |b|) == b
    decreases |b|
  {
    if b != [] {
      WordBack(b[1..]);
      assert (b[0] + 256 * FromLittleEndian(b[1..])) / 256 == FromLittleEndian(b[1..]);
    }
  }

  /** The lowest byte comes first. */
  lemma LowestFirst(a: byte, b: Bytes)
    ensures FromLittleEndian([a] + b) == a + 256 * FromLittleEndian(b)
  {
    assert ([a] + b)[1..] == b;
  }

  lemma FourBytes(a: byte, b: byte, c: byte, d: byte, more: Bytes)
    ensures FromLittleEndian([a, b, c, d] + more)
         == FourToNumber(a, b, c, d) + 0x1_0000_0000 * FromLittleEndian(more)
  {
    LowestFirst(d, more);
    LowestFirst(c, [d] + more);
    LowestFirst(b, [c] + ([d] + more));
    LowestFirst(a, [b] + ([c] + ([d] + more)));
    assert [a, b, c, d] + more == [a] + ([b] + ([c] + ([d] + more)));
  }

  function FourToNumber(a: int, b: int, c: int, d: int): int {
    a + 0x100 * b + 0x1_0000 * c + 0x100_0000 * d
  }

  lemma WordIsThere(b: Bytes, c: Bytes)
    ensures ReadLittleEndian(b + c, |b|) == Got(FromLittleEndian(b), c)
  {
    assert (b + c)[..|b|] == b && (b + c)[|b|..] == c;
  }

  lemma Fixed32Field(tag: nat, b: Bytes, depth: nat)
    requires tag % 8 == 5
    ensures ReadField(tag, b, depth) == match ReadLittleEndian(b, 4)
              case Failed => Failed
              case Got(v, rest) => Got(Fixed32(tag / 8, v), rest)
  {
  }

  lemma Fixed64Field(tag: nat, b: Bytes, depth: nat)
    requires tag % 8 == 1
    ensures ReadField(tag, b, depth) == match ReadLittleEndian(b, 8)
              case Failed => Failed
              case Got(v, rest) => Got(Fixed64(tag / 8, v), rest)
  {
  }

  /** Wire type 5 in numbers: any four bytes, the lowest first. */
  lemma Fixed32Bytes(n: nat, a: byte, b: byte, c: byte, d: byte, rest: Bytes, depth: nat)
    ensures FourToNumber(a, b, c, d) >= 0
    ensures var f := Fixed32(n, FourToNumber(a, b, c, d));
            && ReadField(8 * n + 5, [a, b, c, d] + rest, depth) == Got(f, rest)
            && EncodeField(f) == EncodeVarint(8 * n + 5) + [a, b, c, d]
  {
    var word := [a, b, c, d];
    FourBytes(a, b, c, d, []);
    assert word + [] == word && FromLittleEndian([]) == 0;
    WordBack(word);
    WordIsThere(word, rest);
    TagParts(n, 5);
    Fixed32Field(8 * n + 5, word + rest, depth);
  }

  /** Wire type 1 in numbers: any eight bytes, the lowest first. */
  lemma Fixed64Bytes(n: nat, a: byte, b: byte, c: byte, d: byte, e: byte, f: byte, g: byte, h: byte,
                     rest: Bytes, depth: nat)
    ensures FourToNumber(a, b, c, d) >= 0 && FourToNumber(e, f, g, h) >= 0
    ensures var x := Fixed64(n, FourToNumber(a, b, c, d) + 0x1_0000_0000 * FourToNumber(e, f, g, h));
            && ReadField(8 * n + 1, [a, b, c, d, e, f, g, h] + rest, depth) == Got(x, rest)
            && EncodeField(x) == EncodeVarint(8 * n + 1) + [a, b, c, d, e, f, g, h]
  {
    var word := [a, b, c, d, e, f, g, h];
    FourBytes(e, f, g, h, []);
    assert [e, f, g, h] + [] == [e, f, g, h] && FromLittleEndian([]) == 0;
    FourBytes(a, b, c, d, [e, f, g, h]);
    assert word == [a, b, c, d] + [e, f, g, h];
    WordBack(word);
    WordIsThere(word, rest);
    TagParts(n, 1);
    Fixed64Field(8 * n + 1, word + rest, depth);
  }

  /** Fewer bytes than that are not enough, whatever they are. */
  lemma FixedNeedsAll(tag: nat, b: Bytes, depth: nat)
    requires tag % 8 == 5 || tag % 8 == 1
    ensures ReadField(tag, b, depth).Failed? <==> |b| < if tag % 8 == 5 then 4 else 8
  {
  }

  /** Wire type 0: a varint. */
  lemma VarintBytes(n: nat, v: nat, c: Bytes, depth: nat)
    requires n < 0x2000_0000 && v < 0x1_0000_0000_0000_0000
    ensures ReadField(8 * n, EncodeVarint(v) + c, depth) == Got(Varint(n, v), c)
    ensures EncodeField(Varint(n, v)) == EncodeVarint(8 * n) + EncodeVarint(v)
  {
    Written64IsRead(v, c);
  }

  /** Wire type 2: a length below 2^31 and as many bytes, or a failure. */
  lemma DelimitedBytes(n: nat, length: nat, b: Bytes, depth: nat)
    requires n < 0x2000_0000 && length < 0x1_0000_0000
    ensures ReadField(8 * n + 2, EncodeVarint(length) + b, depth) ==
            if length < 0x8000_0000 && length <= |b| then Got(Delimited(n, b[..length]), b[length..]) else Failed
    ensures EncodeField(Delimited(n, b)) == EncodeVarint(8 * n + 2) + (EncodeVarint(|b|) + b)
  {
    Written32IsRead(length, b);
  }

  /** Wire types 3 and 4: what stands between them is a group, if it can be read and is not too deep. */
  lemma GroupBytes(n: nat, fields: seq<Field>, c: Bytes, depth: nat)
    requires n < 0x2000_0000 && Fits(fields)
    ensures ReadField(8 * n + 3, Encode(fields) + EncodeVarint(8 * n + 4) + c, depth) ==
            if depth > 0 && Recoverable(fields, depth - 1) then Got(Group(n, fields), c) else Failed
  {
    FieldWritten(Group(n, fields), c, depth);
  }

  lemma GroupIsWritten(n: nat, fields: seq<Field>)
    ensures EncodeField(Group(n, fields)) == EncodeVarint(8 * n + 3) + (Encode(fields) + EncodeVarint(8 * n + 4))
  {
  }

  /** An end of group stops any scan. */
  lemma GroupEndBytes(n: nat, c: Bytes, depth: nat)
    requires n < 0x2000_0000
    ensures ScanFields(EncodeVarint(8 * n + 4) + c, depth) == Scan([], EndGroup(n), c)
  {
    TagParts(n, 4);
    WrittenTagIsRead(8 * n + 4, c);
  }

  /** A group can be read exactly if scanning what follows its tag, one level deeper, ends with its own number. */
  lemma GroupExactly(tag: nat, b: Bytes, depth: nat)
    requires tag % 8 == 3
    ensures ReadField(tag, b, depth).Got? <==> depth > 0 && ScanFields(b, depth - 1).stop == EndGroup(tag / 8)
  {
  }

  lemma OtherEnd(n: nat, m: nat, fields: seq<Field>, c: Bytes, depth: nat)
    requires m < MAX_NUMBER && m != n && Fits(fields)
    ensures ScanFields(Encode(fields) + EncodeVarint(8 * m + 4) + c, depth).stop != EndGroup(n)
  {
    GroupWritten(m, fields, c, depth);
    assert MakeTag(m, END_GROUP) == 8 * m + 4;
  }

  /** A group that another number closes cannot be read. */
  lemma GroupNeedsItsEnd(tag: nat, m: nat, fields: seq<Field>, c: Bytes, depth: nat)
    requires tag % 8 == 3 && tag / 8 != m < 0x2000_0000 && Fits(fields)
    ensures ReadField(tag, Encode(fields) + EncodeVarint(8 * m + 4) + c, depth).Failed?
  {
    if depth > 0 {
      OtherEnd(tag / 8, m, fields, c, depth - 1);
    }
    GroupExactly(tag, Encode(fields) + EncodeVarint(8 * m + 4) + c, depth);
  }

  /** A tag of zero, or one that cannot be read, stops a scan without failing it. */
  lemma UnreadableTagStops(b: Bytes, depth: nat)
    requires b != [] && (b[0] == 0 || forall i | 0 <= i < 10 && i < |b| :: b[i] >= 128)
    ensures ScanFields(b, depth) == Scan([], BadTag, b)
  {
    if b[0] != 0 {
      TenBytesDecide(b);
      LowBits(b);
    }
  }

  /** No value starts with an end of group or with wire type 6 or 7. */
  lemma NoSuchField(tag: nat, b: Bytes, depth: nat)
    requires tag % 8 == 4 || tag % 8 == 6 || tag % 8 == 7
    ensures ReadField(tag, b, depth).Failed?
  {
  }

  /** A group that holds groups, this many of them one inside the other. */
  function Nested(levels: nat): seq<Field> {
    if levels == 0 then [] else [Group(1, Nested(levels - 1))]
  }

  lemma {:induction false} NestedRecoverable(levels: nat, depth: nat)
    ensures Recoverable(Nested(levels), depth) <==> levels <= depth
    ensures Fits(Nested(levels))
    decreases levels
  {
    if levels > 0 {
      var f := Nested(levels)[0];
      assert Nested(levels) == [f];
      NestedRecoverable(levels - 1, if depth > 0 then depth - 1 else 0);
    }
  }

  // ---------------------------------------------------------------- size

  lemma {:induction false} EncodeJoin(a: seq<Field>, b: seq<Field>)
    ensures Encode(a + b) == Encode(a) + Encode(b)
    decreases |a|
  {
    if a == [] {
      assert a + b == b;
    } else {
      assert (a + b)[1..] == a[1..] + b;
      EncodeJoin(a[1..], b);
    }
  }

  /** The number of bytes of one value. */
  method ValueSize(f: Field) returns (size: nat)
    requires FieldFits(f)
    ensures size == |EncodeValue(f)|
    decreases f
  {
    match f
    case Varint(_, v) => return VarintSize64(v);
    case Fixed64(_, _) => return 8;
    case Delimited(_, d) => return VarintSize32(|d|) + |d|;
    case Group(n, fs) =>
      size := ComputeUnknownFieldsSize(fs);
      return size + VarintSize32(MakeTag(n, END_GROUP));
    case Fixed32(_, _) => return 4;
  }

  /** The number of bytes that writing these fields takes. */
  method ComputeUnknownFieldsSize(fields: seq<Field>) returns (size: nat)
    requires Fits(fields)
    ensures size == |Encode(fields)|
    decreases fields
  {
    size := 0;
    for i := 0 to |fields|
      invariant size == |Encode(fields[..i])|
    {
      var n := ValueSize(fields[i]);
      size := size + VarintSize32(Tag(fields[i])) + n;
      EncodeNext(fields, i);
    }
    assert fields[..|fields|] == fields;
  }

  lemma EncodeNext(fields: seq<Field>, i: nat)
    requires i < |fields|
    ensures Encode(fields[..i + 1]) == Encode(fields[..i]) + EncodeField(fields[i])
  {
    assert fields[..i + 1] == fields[..i] + [fields[i]];
    EncodeJoin(fields[..i], [fields[i]]);
    assert Encode([fields[i]]) == EncodeField(fields[i]) + Encode([]);
  }

  lemma EncodeOne(f: Field)
    ensures Encode([f]) == EncodeField(f)
  {
    assert [f][0] == f && [f][1..] == [];
  }
}
