/** The search response message: parser, serialisers and whole-message operations. */
module SearchResponses {
  import opened Base128
  import opened Wire
  import opened Messages
  import opened ResponseModel
  import opened CodedInput
  import opened CodedOutput

  class SearchResponse {
    const unknown: UnknownFieldSet
    var results: seq<Bytes>
    var cachedSize: nat

    ghost function Value(): Response
      reads this, unknown
    {
      Response(results, unknown.fields)
    }

    constructor ()
      ensures fresh(unknown) && Value() == EMPTY_RESPONSE
    {
      unknown := new UnknownFieldSet();
      results, cachedSize := [], 0;
    }

    // -------------------------------------------------------------- whole messages

    method SetResults(index: nat, value: Bytes)
      requires index < |results|
      modifies this`results
      ensures Value() == old(Value()).(results := old(results)[index := value])
    {
      results := results[index := value];
    }

    method AddResults(value: Bytes)
      modifies this`results
      ensures Value() == old(Value()).(results := old(results) + [value])
    {
      results := results + [value];
    }

    method Clear()
      modifies this`results, unknown
      ensures Value() == EMPTY_RESPONSE
    {
      results := [];
      unknown.Clear();
    }

    method MergeFrom(from: SearchResponse)
      requires from != this && from.unknown != unknown
      modifies this`results, unknown
      ensures from.Value() == old(from.Value()) && Value() == MergeResponses(old(Value()), from.Value())
    {
      results := results + from.results;
      unknown.MergeFrom(from.unknown);
    }

    method CopyFrom(from: SearchResponse)
      requires from == this || from.unknown != unknown
      modifies this`results, unknown
      ensures Value() == old(from.Value()) && from.Value() == old(from.Value())
    {
      if from == this {
        return;
      }
      Clear();
      MergeFrom(from);
      assert [] + from.results == from.results && [] + from.unknown.fields == from.unknown.fields;
    }

    method Swap(other: SearchResponse)
      requires other == this || other.unknown != unknown
      modifies this, other, unknown, other.unknown
      ensures Value() == old(other.Value()) && other.Value() == old(Value())
    {
      if other != this {
        results, other.results := other.results, results;
        unknown.fields, other.unknown.fields := other.unknown.fields, unknown.fields;
        cachedSize, other.cachedSize := other.cachedSize, cachedSize;
      }
    }

    // -------------------------------------------------------------- serialising

    /** The number of bytes the message takes, computed without writing it. */
    method ByteSize() returns (size: nat)
      requires ResponseFits(Value())
      modifies this`cachedSize
      ensures Value() == old(Value())
      ensures size == cachedSize == |SerializeResponse(Value())|
    {
      SerializedInParts(Value());
      size := |results|;   // one byte of tag for each
      for i := 0 to |results|
        invariant Value() == old(Value()) && size == |results| - i + |EncodeResults(results[..i])|
      {
        NextResult(results, i);
        SizeOfResult(results[i]);
        size := size + VarintSize32(|results[i]|) + |results[i]|;
      }
      assert results[..|results|] == results;
      if unknown.fields != [] {
        var more := ComputeUnknownFieldsSize(unknown.fields);
        size := size + more;
      }
      cachedSize := size;
    }

    /** Writes the message to a stream. */
    method SerializeWithCachedSizes(output: CodedOutputStream)
      requires ResponseFits(Value())
      modifies output
      ensures output.out == old(output.out) + SerializeResponse(Value())
    {
      ghost var start := output.out;
      for i := 0 to |results|
        invariant output.out == start + EncodeResults(results[..i])
      {
        output.WriteString(RESULTS, results[i]);
        NextResult(results, i);
        JoinThree(start, EncodeResults(results[..i]), EncodeResult(results[i]));
      }
      assert results[..|results|] == results;
      if unknown.fields != [] {
        output.SerializeUnknownFields(unknown.fields);
      }
      SerializedInParts(Value());
      JoinThree(start, EncodeResults(results), Encode(unknown.fields));
    }

    method WriteResultsToArray(target: array<byte>, at: nat) returns (end: nat)
      requires ResponseFits(Value()) && at + |EncodeResults(results)| <= target.Length
      modifies target
      ensures Wrote(old(target[..]), target[..], at, EncodeResults(results)) && end == at + |EncodeResults(results)|
    {
      ghost var x := target[..];
      end := at;
      WroteNothing(x, at);
      for i := 0 to |results|
        invariant Wrote(x, target[..], at, EncodeResults(results[..i])) && end == at + |EncodeResults(results[..i])|
      {
        NextResult(results, i);
        PrefixOfResults(results, i + 1);
        ghost var y := target[..];
        end := WriteStringToArray(RESULTS, results[i], target, end);
        WroteBoth(x, y, target[..], at, EncodeResults(results[..i]), EncodeResult(results[i]));
      }
      assert results[..|results|] == results;
    }

    /** Writes the message into an array, which must have room for it. */
    method SerializeWithCachedSizesToArray(target: array<byte>, at: nat) returns (end: nat)
      requires ResponseFits(Value()) && at + |SerializeResponse(Value())| <= target.Length
      modifies target
      ensures Wrote(old(target[..]), target[..], at, SerializeResponse(Value()))
              && end == at + |SerializeResponse(Value())|
    {
      SerializedInParts(Value());
      ghost var x := target[..];
      end := WriteResultsToArray(target, at);
      ghost var y := target[..];
      end := WriteUnknownToArray(unknown.fields, target, end);
      WroteBoth(x, y, target[..], at, EncodeResults(results), Encode(unknown.fields));
    }

    // -------------------------------------------------------------- parsing

    /** The parser's state after some fields agrees with an outcome `p` that was foretold. */
    ghost predicate OnTheWay(input: CodedInputStream, p: Parsed<Response>, next: Progress)
      requires input.Valid()
      reads this, unknown, input
    {
      match next
      case Fail => p.stop == Broken
      case Finish => p.stop != Broken && Value() == p.message && input.StoppedAt(p.stop, p.rest)
      case More => Foretells(input.Rest(), input.Depth(), p)
    }

    /** Parsing `b` from here leads to the outcome `p`. */
    ghost predicate Foretells(b: Bytes, depth: nat, p: Parsed<Response>)
      reads this, unknown
    {
      ParseResponse(Value(), b, depth) == p
    }

    /** Reads one result after its tag. */
    method ParseResult(input: CodedInputStream, ghost b: Bytes, ghost p: Parsed<Response>) returns (ok: bool)
      requires input.Valid() && ReadTag(b) == Got(RESULTS_TAG, input.Rest()) && Foretells(b, input.Depth(), p)
      modifies input`pos, this`results
      ensures input.Valid() && old(input.pos) <= input.pos
      ensures OnTheWay(input, p, if ok then More else Fail)
    {
      ParseResultStep(Value(), b, input.Rest(), input.Depth());
      var cell := new StringCell();
      ok := input.ReadString(cell);
      AddResults(cell.value);
    }

    /** Reads results as long as another one is known to come, then guesses whether the input ends. */
    method ParseResults(input: CodedInputStream, ghost b: Bytes, ghost p: Parsed<Response>) returns (next: Progress)
      requires input.Valid() && ReadTag(b) == Got(RESULTS_TAG, input.Rest()) && Foretells(b, input.Depth(), p)
      modifies input`pos, input`lastTag, input`legitimateMessageEnd, this`results
      ensures input.Valid() && old(input.pos) <= input.pos && OnTheWay(input, p, next)
      ensures input.legitimateMessageEnd ==
              (old(input.legitimateMessageEnd) || (next == Finish && p.stop == EndOfInput))
    {
      ghost var b' := b;
      var comes := true;
      while comes
        invariant input.Valid() && old(input.pos) <= input.pos
        invariant input.legitimateMessageEnd == old(input.legitimateMessageEnd) && input.lastTag == old(input.lastTag)
        invariant if comes then ReadTag(b') == Got(RESULTS_TAG, input.Rest()) && Foretells(b', input.Depth(), p)
                  else OnTheWay(input, p, More)
        decreases |input.buffer| - input.pos, comes
      {
        var ok := ParseResult(input, b', p);
        if !ok {
          return Fail;
        }
        b' := input.Rest();
        comes := input.ExpectTag(RESULTS_TAG);
      }
      var atEnd := input.ExpectAtEnd();
      return if atEnd then Finish else More;
    }

    /** Keeps a field the message does not know. */
    method HandleUninterpreted(input: CodedInputStream, tag: nat, ghost b: Bytes, ghost p: Parsed<Response>)
      returns (ok: bool)
      requires input.Valid() && ReadTag(b) == Got(tag, input.Rest()) && Foretells(b, input.Depth(), p)
      requires tag % 8 != END_GROUP && tag != RESULTS_TAG
      modifies input, unknown
      ensures input.Valid() && old(input.pos) <= input.pos
      ensures OnTheWay(input, p, if ok then More else Fail)
      ensures ok ==> input.legitimateMessageEnd == old(input.legitimateMessageEnd)
    {
      ParseUnknownStep(Value(), b, tag, input.Rest(), input.Depth());
      ok := SkipField(input, tag, unknown);
    }

    /** Parses what follows a tag. */
    method ParseField(input: CodedInputStream, tag: nat, ghost b: Bytes, ghost p: Parsed<Response>)
      returns (next: Progress)
      requires input.Valid() && ReadTag(b) == Got(tag, input.Rest()) && Foretells(b, input.Depth(), p)
               && input.lastTag == tag
      modifies input, this`results, unknown
      ensures input.Valid() && old(input.pos) <= input.pos && OnTheWay(input, p, next)
      ensures next != Fail ==>
                input.legitimateMessageEnd ==
                    (old(input.legitimateMessageEnd) || (next == Finish && p.stop == EndOfInput))
    {
      if tag / 8 == RESULTS && tag % 8 == DELIMITED {
        next := ParseResults(input, b, p);
      } else if tag % 8 == END_GROUP {
        next := Finish;
      } else {
        var ok := HandleUninterpreted(input, tag, b, p);
        next := if ok then More else Fail;
      }
    }

    /**
     Parses until the input ends, a group ends, or a tag cannot be read, with the outcome of
     reading field after field however often the guesses are given up.
     */
    method MergePartialFromCodedStream(input: CodedInputStream) returns (ok: bool)
      requires input.Valid()
      modifies input, this`results, unknown
      ensures input.Valid()
      ensures var p := ParseResponse(old(Value()), old(input.Rest()), old(input.Depth()));
        && (ok <==> p.stop != Broken)
        && (ok ==> Value() == p.message && input.StoppedAt(p.stop, p.rest))
        && (ok ==> input.legitimateMessageEnd == (old(input.legitimateMessageEnd) || p.stop == EndOfInput))
    {
      ghost var p := ParseResponse(Value(), input.Rest(), input.Depth());
      while true
        invariant input.Valid() && input.legitimateMessageEnd == old(input.legitimateMessageEnd)
        invariant OnTheWay(input, p, More)
        decreases |input.buffer| - input.pos
      {
        ghost var b := input.Rest();
        var tag := input.ReadTag();
        if tag == 0 {
          return true;
        }
        var next := ParseField(input, tag, b, p);
        if next != More {
          return next == Finish;
        }
      }
    }

    // -------------------------------------------------------------- whole byte arrays

    /**
     Writes the message to the start of an array, of which `size` bytes may be used, or reports that
     they do not suffice.
     */
    method SerializePartialToArray(target: array<byte>, size: nat) returns (ok: bool)
      requires ResponseFits(Value()) && size <= target.Length
      modifies this`cachedSize, target
      ensures Value() == old(Value()) && cachedSize == |SerializeResponse(Value())| && (ok <==> cachedSize <= size)
      ensures if ok then Wrote(old(target[..]), target[..], 0, SerializeResponse(Value()))
              else target[..] == old(target[..])
    {
      var byteSize := ByteSize();
      if size < byteSize {
        return false;
      }
      var end := SerializeWithCachedSizesToArray(target, 0);
      assert end == byteSize;   // so the sizes are never found inconsistent
      return true;
    }

    /** Replaces the message by the one in `data`, which must be complete. */
    method ParseFromArray(data: Bytes) returns (ok: bool)
      modifies this`results, unknown
      ensures var p := ParseResponse(EMPTY_RESPONSE, data, RECURSION_LIMIT);
        (ok <==> p.stop == EndOfInput) && (ok ==> Value() == p.message)
    {
      var input := new CodedInputStream(data);
      Clear();
      ok := MergePartialFromCodedStream(input);
      return ok && input.ConsumedEntireMessage();
    }
  }

  /**
   What `m` writes `n` reads back, exactly when the array has room and the unknown fields are
   recoverable and pass for no result.
   */
  method PassOn(m: SearchResponse, n: SearchResponse, target: array<byte>) returns (ok: bool)
    requires m != n && m.unknown != n.unknown && ResponseFits(m.Value())
    modifies m`cachedSize, n`results, n.unknown, target
    ensures m.Value() == old(m.Value())
    ensures ok && n.Value() == m.Value() <==>
              |SerializeResponse(m.Value())| <= target.Length && ResponseRecoverable(m.Value(), RECURSION_LIMIT)
  {
    ResponseRoundTrip(m.Value(), RECURSION_LIMIT);
    ok := m.SerializePartialToArray(target, target.Length);
    if ok {
      assert target[..m.cachedSize] == SerializeResponse(m.Value());
      ok := n.ParseFromArray(target[..m.cachedSize]);
    }
  }
}
