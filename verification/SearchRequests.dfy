/** The search request message on the heap: accessors, parser, serialisers and whole-message operations. */
module SearchRequests {
  import opened Wrappers
  import opened Base128
  import opened Wire
  import opened Messages
  import opened RequestModel
  import opened CodedInput
  import opened CodedOutput

  const QUERY_BIT: bv32 := 1
  const PAGE_BIT: bv32 := 2

  lemma Bits(b: bv32)
    ensures (b | QUERY_BIT) & QUERY_BIT != 0 && (b | PAGE_BIT) & PAGE_BIT != 0
    ensures (b | QUERY_BIT) & PAGE_BIT == b & PAGE_BIT && (b | PAGE_BIT) & QUERY_BIT == b & QUERY_BIT
    ensures (b & !QUERY_BIT) & QUERY_BIT == 0 && (b & !PAGE_BIT) & PAGE_BIT == 0
    ensures (b & !QUERY_BIT) & PAGE_BIT == b & PAGE_BIT && (b & !PAGE_BIT) & QUERY_BIT == b & QUERY_BIT
    ensures b & 0xFF == 0 ==> b & QUERY_BIT == 0 && b & PAGE_BIT == 0
    ensures b & QUERY_BIT == QUERY_BIT || b & QUERY_BIT == 0
  {
  }

  class SearchRequest {
    const emptyString: StringCell    // shared by all messages and never written to
    const unknown: UnknownFieldSet
    var query: StringCell
    var pageNumber: int32
    var hasBits: bv32
    var cachedSize: nat

    predicate HasQuery()
      reads this
    {
      hasBits & QUERY_BIT != 0
    }

    predicate HasPageNumber()
      reads this
    {
      hasBits & PAGE_BIT != 0
    }

    /** A field whose bit is clear holds its default, and only a set query has a string of its own contents. */
    ghost predicate Valid()
      reads this, query, emptyString
    {
      && emptyString.value == []
      && (if HasQuery() then query != emptyString else query.value == [])
      && (!HasPageNumber() ==> pageNumber == DEFAULT_PAGE)
    }

    /** The objects that belong to this message. */
    ghost function Owned(): set<object>
      reads this
    {
      {this, unknown} + if query == emptyString then {} else {query}
    }

    ghost function Value(): Request
      reads this, query, unknown
    {
      Request(if HasQuery() then Some(query.value) else None,
              if HasPageNumber() then Some(pageNumber) else None,
              unknown.fields)
    }

    constructor (emptyString: StringCell)
      requires emptyString.value == []
      ensures Valid() && fresh(Owned()) && Value() == EMPTY_REQUEST && this.emptyString == emptyString
      ensures query.value == [] && pageNumber == 1
    {
      this.emptyString, query := emptyString, emptyString;
      unknown := new UnknownFieldSet();
      pageNumber, hasBits, cachedSize := DEFAULT_PAGE, 0, 0;
    }

    // -------------------------------------------------------------- accessors

    /** A string to write the query into; it exists and counts as set from now on. */
    method MutableQuery() returns (cell: StringCell)
      requires Valid()
      modifies this
      ensures Valid() && fresh(Owned() - old(Owned())) && cell == query != emptyString && HasQuery()
      ensures query.value == old(query.value)
      ensures Value() == old(Value()).(query := Some(old(query.value)))
    {
      Bits(hasBits);
      hasBits := hasBits | QUERY_BIT;
      if query == emptyString {
        query := new StringCell();
      }
      return query;
    }

    method SetQuery(value: Bytes)
      requires Valid()
      modifies this, Owned()
      ensures Valid() && fresh(Owned() - old(Owned()))
      ensures Value() == old(Value()).(query := Some(value))
    {
      var cell := MutableQuery();
      cell.value := value;
    }

    method ClearQuery()
      requires Valid()
      modifies this, Owned()
      ensures Valid() && Owned() == old(Owned()) && Value() == old(Value()).(query := None)
    {
      Bits(hasBits);
      if query != emptyString {
        query.value := [];
      }
      hasBits := hasBits & !QUERY_BIT;
    }

    /** Hands the query's string over to the caller; there may be one even if the field is not set. */
    method ReleaseQuery() returns (cell: StringCell?)
      requires Valid()
      modifies this
      ensures Valid() && Value() == old(Value()).(query := None)
      ensures if old(query) == emptyString then cell == null
              else cell == old(query) && cell !in Owned() && cell.value == old(query.value)
      ensures old(Value()).query.Some? ==> cell != null && Some(cell.value) == old(Value()).query
    {
      Bits(hasBits);
      hasBits := hasBits & !QUERY_BIT;
      assert !HasQuery() && HasPageNumber() == old(HasPageNumber());
      if query == emptyString {
        return null;
      }
      cell := query;
      query := emptyString;
    }

    /** Takes over a string of the caller's, or unsets the field; the message's own string is deleted first. */
    method SetAllocatedQuery(cell: StringCell?)
      requires Valid() && cell != emptyString && cell != query
      modifies this
      ensures Valid() && Value() == old(Value()).(query := if cell == null then None else Some(cell.value))
      ensures query == if cell == null then emptyString else cell
    {
      Bits(hasBits);
      if cell != null {
        hasBits := hasBits | QUERY_BIT;
        query := cell;
      } else {
        hasBits := hasBits & !QUERY_BIT;
        query := emptyString;
      }
    }

    method SetPageNumber(value: int32)
      requires Valid()
      modifies this`pageNumber, this`hasBits
      ensures Valid() && Value() == old(Value()).(pageNumber := Some(value))
    {
      Bits(hasBits);
      hasBits := hasBits | PAGE_BIT;
      pageNumber := value;
    }

    method ClearPageNumber()
      requires Valid()
      modifies this`pageNumber, this`hasBits
      ensures Valid() && Value() == old(Value()).(pageNumber := None) && pageNumber == 1
    {
      Bits(hasBits);
      pageNumber := DEFAULT_PAGE;
      hasBits := hasBits & !PAGE_BIT;
    }

    // -------------------------------------------------------------- whole messages

    /** Makes the message like a new one, skipping fields of which no bit is set. */
    method Clear()
      requires Valid()
      modifies this, Owned()
      ensures Valid() && Owned() == old(Owned()) && Value() == EMPTY_REQUEST
      ensures hasBits == 0 && query.value == [] && pageNumber == 1
    {
      Bits(hasBits);
      if hasBits & 0xFF != 0 {
        if HasQuery() {
          if query != emptyString {
            query.value := [];
          }
        }
        pageNumber := DEFAULT_PAGE;
      }
      hasBits := 0;
      unknown.Clear();
    }

    /** Two messages share nothing but the empty string. */
    ghost predicate Apart(other: SearchRequest)
      reads this, other
    {
      other.emptyString == emptyString && Owned() !! other.Owned()
    }

    method MergeFrom(from: SearchRequest)
      requires Valid() && from.Valid() && Apart(from)
      modifies this, Owned()
      ensures Valid() && fresh(Owned() - old(Owned())) && from.Valid() && Apart(from)
      ensures from.Value() == old(from.Value()) && Value() == MergeRequests(old(Value()), from.Value())
    {
      Bits(from.hasBits);
      if from.hasBits & 0xFF != 0 {
        if from.HasQuery() {
          SetQuery(from.query.value);
        }
        if from.HasPageNumber() {
          SetPageNumber(from.pageNumber);
        }
      }
      unknown.MergeFrom(from.unknown);
    }

    method CopyFrom(from: SearchRequest)
      requires Valid() && from.Valid() && (from == this || Apart(from))
      modifies this, Owned()
      ensures Valid() && fresh(Owned() - old(Owned())) && from.Valid()
      ensures Value() == old(from.Value()) && from.Value() == old(from.Value())
    {
      if from == this {
        return;
      }
      Clear();
      MergeFrom(from);
      assert [] + from.Value().unknown == from.Value().unknown;
    }

    method Swap(other: SearchRequest)
      requires Valid() && other.Valid() && (other == this || Apart(other))
      modifies this, other, unknown, other.unknown
      ensures Valid() && other.Valid() && (other == this || Apart(other))
      ensures Value() == old(other.Value()) && other.Value() == old(Value())
      ensures query == old(other.query) && other.query == old(query)
    {
      if other != this {
        query, other.query := other.query, query;
        pageNumber, other.pageNumber := other.pageNumber, pageNumber;
        hasBits, other.hasBits := other.hasBits, hasBits;
        unknown.fields, other.unknown.fields := other.unknown.fields, unknown.fields;
        cachedSize, other.cachedSize := other.cachedSize, cachedSize;
      }
    }

    method IsInitialized() returns (yes: bool)
      ensures yes <==> Value().query.Some?
    {
      Bits(hasBits);
      return hasBits & QUERY_BIT == QUERY_BIT;
    }

    // -------------------------------------------------------------- serialising

    /** The number of bytes the message takes, computed without writing it. */
    method ByteSize() returns (size: nat)
      requires Valid() && RequestFits(Value())
      modifies this`cachedSize
      ensures Valid() && Value() == old(Value())
      ensures size == cachedSize == |SerializeRequest(Value())|
    {
      Bits(hasBits);
      SerializedInParts(Value());
      SizesOfParts(query.value, pageNumber);
      size := 0;
      if hasBits & 0xFF != 0 {
        if HasQuery() {
          size := size + 1 + VarintSize32(|query.value|) + |query.value|;
        }
        if HasPageNumber() {
          size := size + 1 + VarintSize32SignExtended(pageNumber);
        }
      }
      if unknown.fields != [] {
        var more := ComputeUnknownFieldsSize(unknown.fields);
        size := size + more;
      }
      cachedSize := size;
    }

    method WriteQuery(output: CodedOutputStream)
      requires RequestFits(Value())
      modifies output
      ensures output.out == old(output.out) + EncodeQuery(Value().query)
    {
      if HasQuery() {
        output.WriteString(QUERY, query.value);
      }
    }

    method WritePageNumber(output: CodedOutputStream)
      modifies output
      ensures output.out == old(output.out) + EncodePage(Value().pageNumber)
    {
      if HasPageNumber() {
        output.WriteInt32(PAGE_NUMBER, pageNumber);
      }
    }

    /** Writes the message to a stream. */
    method SerializeWithCachedSizes(output: CodedOutputStream)
      requires RequestFits(Value())
      modifies output
      ensures output.out == old(output.out) + SerializeRequest(Value())
    {
      ghost var q, p, u := EncodeQuery(Value().query), EncodePage(Value().pageNumber), Encode(unknown.fields);
      WriteQuery(output);
      WritePageNumber(output);
      if unknown.fields != [] {
        output.SerializeUnknownFields(unknown.fields);
      }
      SerializedInParts(Value());
      JoinThree(old(output.out), q, p);
      JoinThree(old(output.out), q + p, u);
    }

    method WriteQueryToArray(target: array<byte>, at: nat) returns (end: nat)
      requires RequestFits(Value()) && at + |EncodeQuery(Value().query)| <= target.Length
      modifies target
      ensures Wrote(old(target[..]), target[..], at, EncodeQuery(Value().query))
              && end == at + |EncodeQuery(Value().query)|
    {
      if HasQuery() {
        end := WriteStringToArray(QUERY, query.value, target, at);
      } else {
        WroteNothing(target[..], at);
        end := at;
      }
    }

    method WritePageNumberToArray(target: array<byte>, at: nat) returns (end: nat)
      requires at + |EncodePage(Value().pageNumber)| <= target.Length
      modifies target
      ensures Wrote(old(target[..]), target[..], at, EncodePage(Value().pageNumber))
              && end == at + |EncodePage(Value().pageNumber)|
    {
      if HasPageNumber() {
        end := WriteInt32ToArray(PAGE_NUMBER, pageNumber, target, at);
      } else {
        WroteNothing(target[..], at);
        end := at;
      }
    }

    method WriteKnownToArray(target: array<byte>, at: nat, ghost q: Bytes, ghost p: Bytes) returns (end: nat)
      requires RequestFits(Value()) && at + |q + p| <= target.Length
      requires q == EncodeQuery(Value().query) && p == EncodePage(Value().pageNumber)
      modifies target
      ensures Wrote(old(target[..]), target[..], at, q + p) && end == at + |q + p|
    {
      ghost var x := target[..];
      end := WriteQueryToArray(target, at);
      ghost var y := target[..];
      end := WritePageNumberToArray(target, end);
      WroteBoth(x, y, target[..], at, q, p);
    }

    /** Writes the message into an array, which must have room for it. */
    method SerializeWithCachedSizesToArray(target: array<byte>, at: nat) returns (end: nat)
      requires RequestFits(Value()) && at + |SerializeRequest(Value())| <= target.Length
      modifies target
      ensures Wrote(old(target[..]), target[..], at, SerializeRequest(Value()))
              && end == at + |SerializeRequest(Value())|
    {
      SerializedInParts(Value());
      ghost var x, known := target[..], EncodeQuery(Value().query) + EncodePage(Value().pageNumber);
      end := WriteKnownToArray(target, at, EncodeQuery(Value().query), EncodePage(Value().pageNumber));
      ghost var y := target[..];
      end := WriteUnknownToArray(unknown.fields, target, end);
      WroteBoth(x, y, target[..], at, known, Encode(unknown.fields));
    }

    // -------------------------------------------------------------- parsing

    /** The parser's state after some fields agrees with an outcome `p` that was foretold. */
    ghost predicate OnTheWay(input: CodedInputStream, p: Parsed<Request>, next: Progress)
      requires input.Valid()
      reads this, query, unknown, input
    {
      match next
      case Fail => p.stop == Broken
      case Finish => p.stop != Broken && Value() == p.message && input.StoppedAt(p.stop, p.rest)
      case More => Foretells(input.Rest(), input.Depth(), p)
    }

    /** Parsing `b` from here leads to the outcome `p`. */
    ghost predicate Foretells(b: Bytes, depth: nat, p: Parsed<Request>)
      reads this, query, unknown
    {
      ParseRequest(Value(), b, depth) == p
    }

    /** Reads the query after its tag. */
    method ParseQuery(input: CodedInputStream, ghost b: Bytes, ghost p: Parsed<Request>) returns (ok: bool)
      requires Valid() && input.Valid() && ReadTag(b) == Got(QUERY_TAG, input.Rest()) && Foretells(b, input.Depth(), p)
      modifies input`pos, this, Owned()
      ensures Valid() && fresh(Owned() - old(Owned())) && input.Valid() && old(input.pos) <= input.pos
      ensures OnTheWay(input, p, if ok then More else Fail)
    {
      ParseQueryStep(Value(), b, input.Rest(), input.Depth());
      var cell := MutableQuery();
      ok := input.ReadString(cell);
    }

    /** Reading a page number from `v` and parsing on leads to the outcome `p`. */
    ghost predicate PageForetells(v: Bytes, depth: nat, p: Parsed<Request>)
      reads this, query, unknown
    {
      match ReadVarint32(v)
      case Failed => p.stop == Broken
      case Got(n, rest) => ParseRequest(Value().(pageNumber := Some(Truncated(n))), rest, depth) == p
    }

    /** Reads the page number after its tag. */
    method ParsePageNumber(input: CodedInputStream, ghost p: Parsed<Request>) returns (ok: bool)
      requires Valid() && input.Valid() && PageForetells(input.Rest(), input.Depth(), p)
      modifies input`pos, this`pageNumber, this`hasBits
      ensures Valid() && input.Valid() && old(input.pos) <= input.pos
      ensures OnTheWay(input, p, if ok then More else Fail)
    {
      var value: nat;
      ok, value := input.ReadVarint32();
      if ok {
        SetPageNumber(Truncated(value));
      }
    }

    /** Keeps a field the message does not know. */
    method HandleUninterpreted(input: CodedInputStream, tag: nat, ghost b: Bytes, ghost p: Parsed<Request>)
      returns (ok: bool)
      requires Valid() && input.Valid() && ReadTag(b) == Got(tag, input.Rest()) && Foretells(b, input.Depth(), p)
      requires tag % 8 != END_GROUP && tag != QUERY_TAG && tag != PAGE_TAG
      modifies input, unknown
      ensures Valid() && input.Valid() && old(input.pos) <= input.pos
      ensures OnTheWay(input, p, if ok then More else Fail)
      ensures ok ==> input.legitimateMessageEnd == old(input.legitimateMessageEnd)
    {
      ParseUnknownStep(Value(), b, tag, input.Rest(), input.Depth());
      ok := SkipField(input, tag, unknown);
    }

    /** Parses the page number and guesses whether the input ends behind it. */
    method ParsePageNumberAndEnd(input: CodedInputStream, ghost b: Bytes, ghost p: Parsed<Request>)
      returns (next: Progress)
      requires Valid() && input.Valid() && ReadTag(b) == Got(PAGE_TAG, input.Rest()) && Foretells(b, input.Depth(), p)
      modifies input`pos, input`lastTag, input`legitimateMessageEnd, this`pageNumber, this`hasBits
      ensures Valid() && input.Valid() && old(input.pos) <= input.pos && OnTheWay(input, p, next)
      ensures input.legitimateMessageEnd ==
              (old(input.legitimateMessageEnd) || (next == Finish && p.stop == EndOfInput))
    {
      ParsePageStep(Value(), b, input.Rest(), input.Depth());
      var ok := ParsePageNumber(input, p);
      if !ok {
        return Fail;
      }
      var atEnd := input.ExpectAtEnd();
      return if atEnd then Finish else More;
    }

    /** Parses the query and guesses whether the page number comes next. */
    method ParseQueryAndNext(input: CodedInputStream, ghost b: Bytes, ghost p: Parsed<Request>) returns (next: Progress)
      requires Valid() && input.Valid() && ReadTag(b) == Got(QUERY_TAG, input.Rest()) && Foretells(b, input.Depth(), p)
      modifies input`pos, input`lastTag, input`legitimateMessageEnd, this, Owned()
      ensures Valid() && fresh(Owned() - old(Owned())) && input.Valid() && old(input.pos) <= input.pos
              && OnTheWay(input, p, next)
      ensures input.legitimateMessageEnd ==
              (old(input.legitimateMessageEnd) || (next == Finish && p.stop == EndOfInput))
    {
      var ok := ParseQuery(input, b, p);
      if !ok {
        return Fail;
      }
      ghost var b' := input.Rest();
      var pageComes := input.ExpectTag(PAGE_TAG);
      if pageComes {
        next := ParsePageNumberAndEnd(input, b', p);
      } else {
        next := More;
      }
    }

    /** Parses what follows a tag. */
    method ParseField(input: CodedInputStream, tag: nat, ghost b: Bytes, ghost p: Parsed<Request>)
      returns (next: Progress)
      requires Valid() && input.Valid() && ReadTag(b) == Got(tag, input.Rest()) && Foretells(b, input.Depth(), p)
      requires input.lastTag == tag
      modifies input, this, Owned()
      ensures Valid() && fresh(Owned() - old(Owned())) && input.Valid() && old(input.pos) <= input.pos
              && OnTheWay(input, p, next)
      ensures next != Fail ==>
                input.legitimateMessageEnd ==
                    (old(input.legitimateMessageEnd) || (next == Finish && p.stop == EndOfInput))
    {
      if tag / 8 == QUERY && tag % 8 == DELIMITED {
        next := ParseQueryAndNext(input, b, p);
      } else if tag / 8 == PAGE_NUMBER && tag % 8 == VARINT {
        next := ParsePageNumberAndEnd(input, b, p);
      } else if tag % 8 == END_GROUP {
        next := Finish;
      } else {
        var ok := HandleUninterpreted(input, tag, b, p);
        next := if ok then More else Fail;
      }
    }

    /**
     Parses until the input ends, a group ends, or a tag cannot be read. Guessing the next tag,
     and the end, only saves work: however often the guesses are given up, the outcome is that
     of reading field after field.
     */
    method MergePartialFromCodedStream(input: CodedInputStream) returns (ok: bool)
      requires Valid() && input.Valid()
      modifies input, this, Owned()
      ensures Valid() && fresh(Owned() - old(Owned())) && input.Valid()
      ensures var p := ParseRequest(old(Value()), old(input.Rest()), old(input.Depth()));
        && (ok <==> p.stop != Broken)
        && (ok ==> Value() == p.message && input.StoppedAt(p.stop, p.rest))
        && (ok ==> input.legitimateMessageEnd == (old(input.legitimateMessageEnd) || p.stop == EndOfInput))
    {
      ghost var p := ParseRequest(Value(), input.Rest(), input.Depth());
      while true
        invariant Valid() && fresh(Owned() - old(Owned())) && input.Valid()
        invariant input.legitimateMessageEnd == old(input.legitimateMessageEnd)
        invariant OnTheWay(input, p, More)
        decreases |input.buffer| - input.pos
      {
        ghost var b := input.Rest();
        var tag := input.ReadTag();
        if tag == 0 {
          return true;
        }
        var next := ParseField(input, tag, b, p);
        if next != More {
          return next == Finish;
        }
      }
    }

    // -------------------------------------------------------------- whole byte arrays

    /**
     Writes the message to the start of an array, of which `size` bytes may be used, or reports that
     they do not suffice.
     */
    method SerializePartialToArray(target: array<byte>, size: nat) returns (ok: bool)
      requires Valid() && RequestFits(Value()) && size <= target.Length
      modifies this`cachedSize, target
      ensures cachedSize == |SerializeRequest(Value())|
      ensures Valid() && Value() == old(Value()) && (ok <==> |SerializeRequest(Value())| <= size)
      ensures if ok then Wrote(old(target[..]), target[..], 0, SerializeRequest(Value()))
              else target[..] == old(target[..])
    {
      var byteSize := ByteSize();
      if size < byteSize {
        return false;
      }
      var end := SerializeWithCachedSizesToArray(target, 0);
      assert end == byteSize;   // so the sizes are never found inconsistent
      return true;
    }

    /** Parses on, and fails as well if a required field is missing. */
    method MergeFromCodedStream(input: CodedInputStream) returns (ok: bool)
      requires Valid() && input.Valid()
      modifies input, this, Owned()
      ensures Valid() && fresh(Owned() - old(Owned())) && input.Valid()
      ensures var p := ParseRequest(old(Value()), old(input.Rest()), old(input.Depth()));
        && (ok <==> p.stop != Broken && p.message.query.Some?)
        && (ok ==> Value() == p.message)
        && (ok ==> input.legitimateMessageEnd == (old(input.legitimateMessageEnd) || p.stop == EndOfInput))
    {
      ok := MergePartialFromCodedStream(input);
      if ok {
        ok := IsInitialized();
      }
    }

    method ParseFromCodedStream(input: CodedInputStream) returns (ok: bool)
      requires Valid() && input.Valid()
      modifies input, this, Owned()
      ensures Valid() && fresh(Owned() - old(Owned())) && input.Valid()
      ensures var p := ParseRequest(EMPTY_REQUEST, old(input.Rest()), old(input.Depth()));
        && (ok <==> p.stop != Broken && p.message.query.Some?)
        && (ok ==> Value() == p.message)
        && (ok ==> input.legitimateMessageEnd == (old(input.legitimateMessageEnd) || p.stop == EndOfInput))
    {
      Clear();
      ok := MergeFromCodedStream(input);
    }

    /** Replaces the message by the one in `data`, which must be complete and have every required field. */
    method ParseFromArray(data: Bytes) returns (ok: bool)
      requires Valid()
      modifies this, Owned()
      ensures Valid() && fresh(Owned() - old(Owned()))
      ensures var p := ParseRequest(EMPTY_REQUEST, data, RECURSION_LIMIT);
        && (ok <==> p.stop == EndOfInput && p.message.query.Some?)
        && (ok ==> Value() == p.message)
    {
      var input := new CodedInputStream(data);
      ghost var p := ParseRequest(EMPTY_REQUEST, data, RECURSION_LIMIT);
      ok := ParseFromCodedStream(input);
      assert ok <==> p.stop != Broken && p.message.query.Some?;
      return ok && input.ConsumedEntireMessage();
    }
  }

  /**
   What `m` writes `n` reads back, exactly when the array has room, the query is set, and the
   unknown fields are recoverable and pass for no known one.
   */
  method PassOn(m: SearchRequest, n: SearchRequest, target: array<byte>) returns (ok: bool)
    requires m.Valid() && n.Valid() && m.Apart(n) && RequestFits(m.Value())
    modifies m`cachedSize, n, n.Owned(), target
    ensures m.Valid() && n.Valid() && m.Value() == old(m.Value())
    ensures ok && n.Value() == m.Value() <==>
              && |SerializeRequest(m.Value())| <= target.Length && m.Value().query.Some?
              && RequestRecoverable(m.Value(), RECURSION_LIMIT)
  {
    ghost var value := m.Value();
    RequestRoundTrip(value, RECURSION_LIMIT);
    ok := m.SerializePartialToArray(target, target.Length);
    if ok {
      var data := target[..m.cachedSize];
      assert data == SerializeRequest(value);
      ok := n.ParseFromArray(data);
      assert m.Value() == value;
    }
  }
}
