/** Search responses as values: parsing, merging and serialising them. */
module ResponseModel {
  import opened Base128
  import opened Wire
  import opened Messages

  datatype Response = Response(results: seq<Bytes>, unknown: seq<Field>)

  const EMPTY_RESPONSE := Response([], [])
  const RESULTS := 1

  predicate ResponseKnows(f: Field) {
    f.Delimited? && f.number == RESULTS
  }

  /** What reading one field does to a response. */
  function ApplyToResponse(m: Response, f: Field): Response {
    if f.Delimited? && f.number == RESULTS then m.(results := m.results + [f.data])
    else m.(unknown := m.unknown + [f])
  }

  function MergeResponses(m: Response, from: Response): Response {
    Response(m.results + from.results, m.unknown + from.unknown)
  }

  function ParseResponse(m: Response, b: Bytes, depth: nat): Parsed<Response> {
    Parse(ApplyToResponse, m, b, depth)
  }

  lemma ResponsesMerge()
    ensures Merges(ApplyToResponse, MergeResponses, EMPTY_RESPONSE)
  {
    forall m: Response ensures MergeResponses(m, EMPTY_RESPONSE) == m {
      assert m.results + [] == m.results && m.unknown + [] == m.unknown;
    }
    forall m: Response, x: Response, f: Field
      ensures MergeResponses(m, ApplyToResponse(x, f)) == ApplyToResponse(MergeResponses(m, x), f)
    {
      assert m.unknown + (x.unknown + [f]) == m.unknown + x.unknown + [f];
      if f.Delimited? {
        assert m.results + (x.results + [f.data]) == m.results + x.results + [f.data];
      }
    }
  }

  lemma ResponseConcatenation(m: Response, a: Bytes, b: Bytes, depth: nat)
    requires ParseResponse(m, a, depth).stop == EndOfInput
    ensures var second := ParseResponse(EMPTY_RESPONSE, b, depth);
            ParseResponse(m, a + b, depth) ==
                second.(message := MergeResponses(ParseResponse(m, a, depth).message, second.message))
  {
    ResponsesMerge();
    ConcatenationIsMerge(ApplyToResponse, MergeResponses, EMPTY_RESPONSE, m, a, b, depth);
  }

  // ---------------------------------------------------------------- what a run of fields amounts to

  /** The results among the fields, in order. */
  function Results(fields: seq<Field>): seq<Bytes> {
    if fields == [] then []
    else
      var f := fields[|fields| - 1];
      Results(fields[..|fields| - 1]) + (if f.Delimited? && f.number == RESULTS then [f.data] else [])
  }

  function Meaning(fields: seq<Field>): Response {
    Response(Results(fields), UnknownTo(ResponseKnows, fields))
  }

  /** Every result and every unknown field is kept, each kind in order. */
  lemma {:induction false} EveryOneIsKept(m: Response, fields: seq<Field>)
    ensures Fold(ApplyToResponse, m, fields) == MergeResponses(m, Meaning(fields))
    decreases |fields|
  {
    if fields == [] {
      assert m.unknown + [] == m.unknown && m.results + [] == m.results;
    } else {
      var n := |fields| - 1;
      EveryOneIsKept(m, fields[..n]);
      FoldJoin(ApplyToResponse, m, fields[..n], [fields[n]]);
      assert fields == fields[..n] + [fields[n]];
      FoldOne(ApplyToResponse, MergeResponses(m, Meaning(fields[..n])), fields[n]);
      ResponsesMerge();
      assert MergeResponses(m, ApplyToResponse(Meaning(fields[..n]), fields[n]))
          == ApplyToResponse(MergeResponses(m, Meaning(fields[..n])), fields[n]);
      MeaningOfLast(fields);
    }
  }

  lemma MeaningOfLast(fields: seq<Field>)
    requires fields != []
    ensures Meaning(fields) == ApplyToResponse(Meaning(fields[..|fields| - 1]), fields[|fields| - 1])
  {
    var init := fields[..|fields| - 1];
    assert UnknownTo(ResponseKnows, init) + [] == UnknownTo(ResponseKnows, init);
    assert Results(init) + [] == Results(init);
  }

  // ---------------------------------------------------------------- round trip

  function ResultFields(results: seq<Bytes>): (fields: seq<Field>)
    ensures |fields| == |results| && forall i | 0 <= i < |fields| :: fields[i] == Delimited(RESULTS, results[i])
  {
    if results == [] then [] else ResultFields(results[..|results| - 1]) + [Delimited(RESULTS, results[|results| - 1])]
  }

  /** The fields a response is written as. */
  function ResponseFields(m: Response): seq<Field> {
    ResultFields(m.results) + m.unknown
  }

  function SerializeResponse(m: Response): Bytes {
    Encode(ResponseFields(m))
  }

  predicate ResponseFits(m: Response) {
    (forall i | 0 <= i < |m.results| :: |m.results[i]| < MAX_LENGTH) && Fits(m.unknown)
  }

  /** Unknown fields a parser would take for unknown again. */
  predicate ResponseRecoverable(m: Response, depth: nat) {
    Recoverable(m.unknown, depth) && forall f | f in m.unknown :: !ResponseKnows(f)
  }

  /**
   Parsing the serialisation of a response consumes it entirely and gives the response back,
   exactly when its unknown fields are recoverable and none of them passes for a result.
   */
  lemma ResponseRoundTrip(m: Response, depth: nat)
    requires ResponseFits(m)
    ensures ParseResponse(EMPTY_RESPONSE, SerializeResponse(m), depth) == Parsed(m, EndOfInput, []) <==>
            ResponseRecoverable(m, depth)
  {
    var fields := ResponseFields(m);
    assert Fits(ResultFields(m.results)) && Recoverable(ResultFields(m.results), depth);
    RecoverableJoin(ResultFields(m.results), m.unknown, depth);
    FieldsWritten(fields, [], depth);
    assert Encode(fields) + [] == Encode(fields) && fields + [] == fields;
    if Recoverable(m.unknown, depth) {
      assert ScanFields(Encode(fields), depth) == Scan(fields, EndOfInput, []);
      FoldOfResponseFields(m);
    }
  }

  /** Reading back the fields of a response gives it back unless an unknown field passes for a result. */
  lemma FoldOfResponseFields(m: Response)
    ensures Fold(ApplyToResponse, EMPTY_RESPONSE, ResponseFields(m)) == m <==>
            forall f | f in m.unknown :: !ResponseKnows(f)
  {
    var known := Response(m.results, []);
    FoldJoin(ApplyToResponse, EMPTY_RESPONSE, ResultFields(m.results), m.unknown);
    FoldOfResults(m.results);
    EveryOneIsKept(known, m.unknown);
    assert [] + UnknownTo(ResponseKnows, m.unknown) == UnknownTo(ResponseKnows, m.unknown);
    if forall f | f in m.unknown :: !ResponseKnows(f) {
      NoneKnown(m.unknown);
      assert m.results + [] == m.results;
    }
  }

  lemma {:induction false} FoldOfResults(results: seq<Bytes>)
    ensures Fold(ApplyToResponse, EMPTY_RESPONSE, ResultFields(results)) == Response(results, [])
    decreases |results|
  {
    if results != [] {
      var n := |results| - 1;
      FoldOfResults(results[..n]);
      FoldJoin(ApplyToResponse, EMPTY_RESPONSE, ResultFields(results[..n]), [Delimited(RESULTS, results[n])]);
      FoldOne(ApplyToResponse, Response(results[..n], []), Delimited(RESULTS, results[n]));
      assert results[..n] + [results[n]] == results;
    }
  }

  lemma {:induction false} NoneKnown(fields: seq<Field>)
    requires forall f | f in fields :: !ResponseKnows(f)
    ensures Results(fields) == []
    decreases |fields|
  {
    if fields != [] {
      NoneKnown(fields[..|fields| - 1]);
      assert !ResponseKnows(fields[|fields| - 1]);
    }
  }

  // ---------------------------------------------------------------- parsing again

  /** A response that was parsed, from any bytes at all, is written and parsed back unchanged. */
  lemma ParsedResponseIsStable(b: Bytes, depth: nat)
    ensures var m := ParseResponse(EMPTY_RESPONSE, b, depth).message;
            ParseResponse(EMPTY_RESPONSE, SerializeResponse(m), depth) == Parsed(m, EndOfInput, [])
  {
    var fields := ScanFields(b, depth).fields;
    ScannedIsRecoverable(b, depth);
    EveryOneIsKept(EMPTY_RESPONSE, fields);
    MeaningIsRecoverable(fields, depth);
    var m := Meaning(fields);
    assert MergeResponses(EMPTY_RESPONSE, m) == m by {
      assert [] + m.unknown == m.unknown && [] + m.results == m.results;
    }
    ResponseRoundTrip(m, depth);
  }

  lemma {:induction false} MeaningIsRecoverable(fields: seq<Field>, depth: nat)
    requires Fits(fields) && Recoverable(fields, depth)
    ensures ResponseFits(Meaning(fields)) && ResponseRecoverable(Meaning(fields), depth)
    decreases |fields|
  {
    if fields != [] {
      MeaningIsRecoverable(fields[..|fields| - 1], depth);
      MeaningOfLast(fields);
    }
  }

  // ---------------------------------------------------------------- one field

  const RESULTS_TAG := 10

  lemma ParseResultStep(m: Response, b: Bytes, v: Bytes, depth: nat)
    requires ReadTag(b) == Got(RESULTS_TAG, v)
    ensures match ReadDelimited(v)
            case Failed => ParseResponse(m, b, depth).stop == Broken
            case Got(d, rest) =>
              ParseResponse(m, b, depth) == ParseResponse(m.(results := m.results + [d]), rest, depth)
  {
    ParseStep(ApplyToResponse, m, b, RESULTS_TAG, v, depth);
    DelimitedField(RESULTS_TAG, v, depth);
  }

  /** A field with another tag is kept as unknown. */
  lemma ParseUnknownStep(m: Response, b: Bytes, tag: nat, v: Bytes, depth: nat)
    requires ReadTag(b) == Got(tag, v) && tag % 8 != END_GROUP && tag != RESULTS_TAG
    ensures match ReadField(tag, v, depth)
            case Failed => ParseResponse(m, b, depth).stop == Broken
            case Got(f, rest) =>
              ParseResponse(m, b, depth) == ParseResponse(m.(unknown := m.unknown + [f]), rest, depth)
  {
    ParseStep(ApplyToResponse, m, b, tag, v, depth);
  }

  // ---------------------------------------------------------------- the serialisation in parts

  function EncodeResult(result: Bytes): Bytes {
    EncodeField(Delimited(RESULTS, result))
  }

  function EncodeResults(results: seq<Bytes>): Bytes {
    if results == [] then [] else EncodeResults(results[..|results| - 1]) + EncodeResult(results[|results| - 1])
  }

  lemma NextResult(results: seq<Bytes>, i: nat)
    requires i < |results|
    ensures EncodeResults(results[..i + 1]) == EncodeResults(results[..i]) + EncodeResult(results[i])
  {
    assert results[..i + 1][..i] == results[..i];
  }

  lemma {:induction false} PrefixOfResults(results: seq<Bytes>, i: nat)
    requires i <= |results|
    ensures |EncodeResults(results[..i])| <= |EncodeResults(results)|
    decreases |results| - i
  {
    if i == |results| {
      assert results[..i] == results;
    } else {
      PrefixOfResults(results, i + 1);
      NextResult(results, i);
    }
  }

  lemma {:induction false} EncodedResultFields(results: seq<Bytes>)
    ensures Encode(ResultFields(results)) == EncodeResults(results)
    decreases |results|
  {
    if results != [] {
      var n := |results| - 1;
      EncodedResultFields(results[..n]);
      EncodeJoin(ResultFields(results[..n]), [Delimited(RESULTS, results[n])]);
      EncodeOne(Delimited(RESULTS, results[n]));
    }
  }

  /** A serialised response is its results and its unknown fields. */
  lemma SerializedInParts(m: Response)
    ensures SerializeResponse(m) == EncodeResults(m.results) + Encode(m.unknown)
  {
    EncodeJoin(ResultFields(m.results), m.unknown);
    EncodedResultFields(m.results);
  }

  /** In numbers: every result is 10, its length and its characters. */
  lemma ResultBytes(results: seq<Bytes>, d: Bytes, unknown: seq<Field>)
    ensures EncodeResults(results + [d]) == EncodeResults(results) + ([10] + (EncodeVarint(|d|) + d))
    ensures SerializeResponse(Response([d], unknown)) == [10] + (EncodeVarint(|d|) + d) + Encode(unknown)
    ensures SerializeResponse(EMPTY_RESPONSE) == []
  {
    ShortVarints(10);
    DelimitedBytes(1, 0, d, 0);
    assert (results + [d])[..|results|] == results;
    SerializedInParts(Response([d], unknown));
    assert [d][..0] == [] && EncodeResults([]) == [];
  }

  lemma SizeOfResult(d: Bytes)
    ensures |EncodeResult(d)| == 1 + |EncodeVarint(|d|)| + |d|
  {
    var f := Delimited(RESULTS, d);
    assert EncodeField(f) == EncodeVarint(RESULTS_TAG) + (EncodeVarint(|d|) + d) && |EncodeVarint(RESULTS_TAG)| == 1;
  }
}
