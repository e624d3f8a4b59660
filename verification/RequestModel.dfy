/** Search requests as values: parsing, merging and serialising them. */
module RequestModel {
  import opened Wrappers
  import opened Base128
  import opened Wire
  import opened Messages

  /** A set field has a value; a field that is not set reads as its default. */
  datatype Request = Request(query: Option<Bytes>, pageNumber: Option<int32>, unknown: seq<Field>)

  const EMPTY_REQUEST := Request(None, None, [])
  const QUERY := 1
  const PAGE_NUMBER := 2
  const DEFAULT_PAGE: int32 := 1

  predicate RequestKnows(f: Field) {
    (f.Delimited? && f.number == QUERY) || (f.Varint? && f.number == PAGE_NUMBER)
  }

  /** What reading one field does to a request. */
  function ApplyToRequest(m: Request, f: Field): Request {
    if f.Delimited? && f.number == QUERY then m.(query := Some(f.data))
    else if f.Varint? && f.number == PAGE_NUMBER then m.(pageNumber := Some(Truncated(f.value % UINT32)))
    else m.(unknown := m.unknown + [f])
  }

  function MergeRequests(m: Request, from: Request): Request {
    Request(if from.query.Some? then from.query else m.query,
            if from.pageNumber.Some? then from.pageNumber else m.pageNumber,
            m.unknown + from.unknown)
  }

  function ParseRequest(m: Request, b: Bytes, depth: nat): Parsed<Request> {
    Parse(ApplyToRequest, m, b, depth)
  }

  lemma RequestsMerge()
    ensures Merges(ApplyToRequest, MergeRequests, EMPTY_REQUEST)
  {
    forall m: Request ensures MergeRequests(m, EMPTY_REQUEST) == m {
    }
    forall m: Request, x: Request, f: Field
      ensures MergeRequests(m, ApplyToRequest(x, f)) == ApplyToRequest(MergeRequests(m, x), f)
    {
      assert m.unknown + (x.unknown + [f]) == m.unknown + x.unknown + [f];
    }
  }

  lemma RequestConcatenation(m: Request, a: Bytes, b: Bytes, depth: nat)
    requires ParseRequest(m, a, depth).stop == EndOfInput
    ensures var second := ParseRequest(EMPTY_REQUEST, b, depth);
            ParseRequest(m, a + b, depth) ==
                second.(message := MergeRequests(ParseRequest(m, a, depth).message, second.message))
  {
    RequestsMerge();
    ConcatenationIsMerge(ApplyToRequest, MergeRequests, EMPTY_REQUEST, m, a, b, depth);
  }

  /** The fields a request is written as. */
  function RequestFields(m: Request): seq<Field> {
    QueryField(m.query) + PageField(m.pageNumber) + m.unknown
  }

  function QueryField(query: Option<Bytes>): seq<Field> {
    if query.Some? then [Delimited(QUERY, query.value)] else []
  }

  function PageField(page: Option<int32>): seq<Field> {
    if page.Some? then [Varint(PAGE_NUMBER, Extended(page.value))] else []
  }

  function SerializeRequest(m: Request): Bytes {
    Encode(RequestFields(m))
  }

  predicate RequestFits(m: Request) {
    (m.query.Some? ==> |m.query.value| < MAX_LENGTH) && Fits(m.unknown)
  }

  // What a run of fields amounts to, read from its end.

  function LastQuery(fields: seq<Field>): Option<Bytes> {
    if fields == [] then None
    else
      var f := fields[|fields| - 1];
      if f.Delimited? && f.number == QUERY then Some(f.data) else LastQuery(fields[..|fields| - 1])
  }

  function LastPage(fields: seq<Field>): Option<int32> {
    if fields == [] then None
    else
      var f := fields[|fields| - 1];
      if f.Varint? && f.number == PAGE_NUMBER then Some(Truncated(f.value % UINT32))
      else LastPage(fields[..|fields| - 1])
  }

  function Meaning(fields: seq<Field>): Request {
    Request(LastQuery(fields), LastPage(fields), UnknownTo(RequestKnows, fields))
  }

  /** The last value of a singular field wins, and unknown fields are kept in order. */
  lemma {:induction false} LastOneWins(m: Request, fields: seq<Field>)
    ensures Fold(ApplyToRequest, m, fields) == MergeRequests(m, Meaning(fields))
    decreases |fields|
  {
    if fields == [] {
      assert m.unknown + [] == m.unknown;
    } else {
      var n := |fields| - 1;
      LastOneWins(m, fields[..n]);
      FoldJoin(ApplyToRequest, m, fields[..n], [fields[n]]);
      assert fields == fields[..n] + [fields[n]];
      OneMore(m, Meaning(fields[..n]), fields[n]);
      MeaningOfLast(fields);
    }
  }

  lemma MeaningOfLast(fields: seq<Field>)
    requires fields != []
    ensures Meaning(fields) == ApplyToRequest(Meaning(fields[..|fields| - 1]), fields[|fields| - 1])
  {
    var u := UnknownTo(RequestKnows, fields[..|fields| - 1]);
    assert u + [] == u;
  }

  lemma OneMore(m: Request, x: Request, f: Field)
    ensures Fold(ApplyToRequest, MergeRequests(m, x), [f]) == MergeRequests(m, ApplyToRequest(x, f))
  {
    RequestsMerge();
    assert Fold(ApplyToRequest, ApplyToRequest(MergeRequests(m, x), f), []) == ApplyToRequest(MergeRequests(m, x), f);
    assert [f][0] == f && [f][1..] == [];
  }

  // ---------------------------------------------------------------- round trip

  /** Unknown fields a parser would take for unknown again. */
  predicate RequestRecoverable(m: Request, depth: nat) {
    Recoverable(m.unknown, depth) && forall f | f in m.unknown :: !RequestKnows(f)
  }

  /**
   Parsing the serialisation of a request consumes it entirely and gives the request back,
   exactly when its unknown fields are recoverable and none of them passes for a known one.
   */
  lemma RequestRoundTrip(m: Request, depth: nat)
    requires RequestFits(m)
    ensures ParseRequest(EMPTY_REQUEST, SerializeRequest(m), depth) == Parsed(m, EndOfInput, []) <==>
            RequestRecoverable(m, depth)
  {
    var fields := RequestFields(m);
    RequestFieldsRecoverable(m, depth);
    FieldsWritten(fields, [], depth);
    assert Encode(fields) + [] == Encode(fields) && fields + [] == fields;
    if Recoverable(m.unknown, depth) {
      assert ScanFields(Encode(fields), depth) == Scan(fields, EndOfInput, []);
      FoldOfRequestFields(m);
    }
  }

  lemma RequestFieldsRecoverable(m: Request, depth: nat)
    requires RequestFits(m)
    ensures Fits(RequestFields(m)) && (Recoverable(RequestFields(m), depth) <==> Recoverable(m.unknown, depth))
  {
    var known := QueryField(m.query) + PageField(m.pageNumber);
    assert Fits(known) && Recoverable(known, depth);
    RecoverableJoin(known, m.unknown, depth);
  }

  /** Reading back the fields of a request gives its set fields and what passes for unknown. */
  lemma FoldOfRequestFields(m: Request)
    ensures Fold(ApplyToRequest, EMPTY_REQUEST, RequestFields(m)) == m <==>
            forall f | f in m.unknown :: !RequestKnows(f)
  {
    var q, p := QueryField(m.query), PageField(m.pageNumber);
    var known := Request(m.query, m.pageNumber, []);
    FoldJoin(ApplyToRequest, EMPTY_REQUEST, q + p, m.unknown);
    FoldJoin(ApplyToRequest, EMPTY_REQUEST, q, p);
    assert Fold(ApplyToRequest, EMPTY_REQUEST, q + p) == known by { FoldOfKnown(m); }
    LastOneWins(known, m.unknown);
    if Fold(ApplyToRequest, EMPTY_REQUEST, RequestFields(m)) == m {
      assert UnknownTo(RequestKnows, m.unknown) == m.unknown;
    } else if forall f | f in m.unknown :: !RequestKnows(f) {
      NoneKnown(m.unknown);
    }
  }

  lemma FoldOfKnown(m: Request)
    ensures var q, p := QueryField(m.query), PageField(m.pageNumber);
            Fold(ApplyToRequest, Fold(ApplyToRequest, EMPTY_REQUEST, q), p) == Request(m.query, m.pageNumber, [])
  {
    if m.pageNumber.Some? {
      SignedRoundTrip(m.pageNumber.value);
    }
    FoldOne(ApplyToRequest, EMPTY_REQUEST, Delimited(QUERY, if m.query.Some? then m.query.value else []));
    FoldOne(ApplyToRequest, Request(m.query, None, []),
            Varint(PAGE_NUMBER, if m.pageNumber.Some? then Extended(m.pageNumber.value) else 0));
  }

  /** Without known fields nothing is looked up and nothing dropped. */
  lemma {:induction false} NoneKnown(fields: seq<Field>)
    requires forall f | f in fields :: !RequestKnows(f)
    ensures Meaning(fields) == Request(None, None, fields)
    decreases |fields|
  {
    if fields != [] {
      NoneKnown(fields[..|fields| - 1]);
    }
  }

  // ---------------------------------------------------------------- parsing again

  /** A request that was parsed, from any bytes at all, is written and parsed back unchanged. */
  lemma ParsedRequestIsStable(b: Bytes, depth: nat)
    ensures var m := ParseRequest(EMPTY_REQUEST, b, depth).message;
            ParseRequest(EMPTY_REQUEST, SerializeRequest(m), depth) == Parsed(m, EndOfInput, [])
  {
    var fields := ScanFields(b, depth).fields;
    ScannedIsRecoverable(b, depth);
    LastOneWins(EMPTY_REQUEST, fields);
    MeaningIsRecoverable(fields, depth);
    var m := Meaning(fields);
    assert MergeRequests(EMPTY_REQUEST, m) == m by {
      assert [] + m.unknown == m.unknown;
    }
    RequestRoundTrip(m, depth);
  }

  lemma {:induction false} MeaningIsRecoverable(fields: seq<Field>, depth: nat)
    requires Fits(fields) && Recoverable(fields, depth)
    ensures RequestFits(Meaning(fields)) && RequestRecoverable(Meaning(fields), depth)
    decreases |fields|
  {
    if fields != [] {
      MeaningIsRecoverable(fields[..|fields| - 1], depth);
      MeaningOfLast(fields);
    }
  }

  // ---------------------------------------------------------------- one known field

  const QUERY_TAG := 10
  const PAGE_TAG := 16

  /** One field read, one field applied. */
  lemma ParseRequestStep(m: Request, b: Bytes, tag: nat, v: Bytes, depth: nat, r: Read<Field>)
    requires ReadTag(b) == Got(tag, v) && tag % 8 != END_GROUP && r == ReadField(tag, v, depth)
    ensures match r
            case Failed => ParseRequest(m, b, depth).stop == Broken
            case Got(f, rest) => ParseRequest(m, b, depth) == ParseRequest(ApplyToRequest(m, f), rest, depth)
  {
    ParseStep(ApplyToRequest, m, b, tag, v, depth);
  }

  lemma ParseQueryStep(m: Request, b: Bytes, v: Bytes, depth: nat)
    requires ReadTag(b) == Got(QUERY_TAG, v)
    ensures match ReadDelimited(v)
            case Failed => ParseRequest(m, b, depth).stop == Broken
            case Got(d, rest) => ParseRequest(m, b, depth) == ParseRequest(m.(query := Some(d)), rest, depth)
  {
    DelimitedField(QUERY_TAG, v, depth);
    match ReadDelimited(v)
    case Failed => ParseRequestStep(m, b, QUERY_TAG, v, depth, Failed);
    case Got(d, rest) => ParseRequestStep(m, b, QUERY_TAG, v, depth, Got(Delimited(QUERY, d), rest));
  }

  lemma ParsePageStep(m: Request, b: Bytes, v: Bytes, depth: nat)
    requires ReadTag(b) == Got(PAGE_TAG, v)
    ensures match ReadVarint32(v)
            case Failed => ParseRequest(m, b, depth).stop == Broken
            case Got(n, rest) =>
              ParseRequest(m, b, depth) == ParseRequest(m.(pageNumber := Some(Truncated(n))), rest, depth)
  {
    VarintField(PAGE_TAG, v, depth);
    LowBits(v);
    match ReadVarint64(v)
    case Failed => ParseRequestStep(m, b, PAGE_TAG, v, depth, Failed);
    case Got(n, rest) => ParseRequestStep(m, b, PAGE_TAG, v, depth, Got(Varint(PAGE_NUMBER, n), rest));
  }

  /** A field with another tag is kept as unknown. */
  lemma ParseUnknownStep(m: Request, b: Bytes, tag: nat, v: Bytes, depth: nat)
    requires ReadTag(b) == Got(tag, v) && tag % 8 != END_GROUP && tag != QUERY_TAG && tag != PAGE_TAG
    ensures match ReadField(tag, v, depth)
            case Failed => ParseRequest(m, b, depth).stop == Broken
            case Got(f, rest) => ParseRequest(m, b, depth) == ParseRequest(m.(unknown := m.unknown + [f]), rest, depth)
  {
    ParseRequestStep(m, b, tag, v, depth, ReadField(tag, v, depth));
  }

  // ---------------------------------------------------------------- the serialisation in parts

  function EncodeQuery(query: Option<Bytes>): Bytes {
    if query.Some? then EncodeField(Delimited(QUERY, query.value)) else []
  }

  function EncodePage(page: Option<int32>): Bytes {
    if page.Some? then EncodeField(Varint(PAGE_NUMBER, Extended(page.value))) else []
  }

  /** A serialised request is its query, its page number and its unknown fields, in this order. */
  lemma SerializedInParts(m: Request)
    ensures SerializeRequest(m) == EncodeQuery(m.query) + EncodePage(m.pageNumber) + Encode(m.unknown)
  {
    EncodeJoin(QueryField(m.query) + PageField(m.pageNumber), m.unknown);
    EncodeJoin(QueryField(m.query), PageField(m.pageNumber));
    if m.query.Some? {
      EncodeOne(QueryField(m.query)[0]);
    }
    if m.pageNumber.Some? {
      EncodeOne(PageField(m.pageNumber)[0]);
    }
  }

  /** In numbers: the query is 10, its length and its characters. */
  lemma QueryBytes(q: Bytes)
    ensures EncodeQuery(Some(q)) == [10] + (EncodeVarint(|q|) + q)
  {
    ShortVarints(10);
    DelimitedBytes(1, 0, q, 0);
  }

  /** In numbers: the page number is 16 and a varint, a negative one as its 64-bit complement. */
  lemma PageBytes(p: int32)
    ensures EncodePage(Some(p)) == [16] + EncodeVarint(if p >= 0 then p else p + 0x1_0000_0000_0000_0000)
  {
    ShortVarints(16);
    assert EncodeField(Varint(PAGE_NUMBER, Extended(p))) == EncodeVarint(16) + EncodeVarint(Extended(p));
  }

  /** So the bytes of a request with a query and a page number, and of a message without. */
  lemma RequestBytes(q: Bytes, p: int32, unknown: seq<Field>)
    ensures SerializeRequest(Request(Some(q), Some(p), unknown))
         == [10] + (EncodeVarint(|q|) + q)
            + ([16] + EncodeVarint(if p >= 0 then p else p + 0x1_0000_0000_0000_0000)) + Encode(unknown)
    ensures SerializeRequest(EMPTY_REQUEST) == []
  {
    SerializedInParts(Request(Some(q), Some(p), unknown));
    QueryBytes(q);
    PageBytes(p);
  }

  lemma SizesOfParts(d: Bytes, page: int32)
    ensures |EncodeQuery(Some(d))| == 1 + |EncodeVarint(|d|)| + |d|
    ensures |EncodePage(Some(page))| == 1 + |EncodeVarint(Extended(page))|
  {
    var f, g := Delimited(QUERY, d), Varint(PAGE_NUMBER, Extended(page));
    assert EncodeField(f) == EncodeVarint(QUERY_TAG) + (EncodeVarint(|d|) + d) && |EncodeVarint(QUERY_TAG)| == 1;
    assert EncodeField(g) == EncodeVarint(PAGE_TAG) + EncodeVarint(Extended(page)) && |EncodeVarint(PAGE_TAG)| == 1;
  }
}
