/**
 What parsing means for any message type that folds the scanned fields into itself one by
 one, and why parsing two byte strings put together is parsing both and merging.
 */
module Messages {
  import opened Base128
  import opened Wire

  /** Groups may nest this deep. */
  const RECURSION_LIMIT: nat := 100

  /** A message may nest a hundred groups and not one more. */
  lemma HundredGroups(levels: nat)
    ensures ScanFields(Encode(Nested(levels)), RECURSION_LIMIT) == Scan(Nested(levels), EndOfInput, [])
       <==> levels <= 100
  {
    NestedRecoverable(levels, RECURSION_LIMIT);
    RoundTripExactly(Nested(levels), RECURSION_LIMIT);
  }

  function Fold<M>(apply: (M, Field) -> M, m: M, fields: seq<Field>): M {
    if fields == [] then m else Fold(apply, apply(m, fields[0]), fields[1..])
  }

  /** The message after parsing, why parsing stopped, and what is left of the input. */
  datatype Parsed<+M> = Parsed(message: M, stop: Stop, rest: Bytes)

  function Parse<M>(apply: (M, Field) -> M, m: M, b: Bytes, depth: nat): Parsed<M> {
    var s := ScanFields(b, depth);
    Parsed(Fold(apply, m, s.fields), s.stop, s.rest)
  }

  /** Reading one field and going on. */
  lemma ParseStep<M>(apply: (M, Field) -> M, m: M, b: Bytes, tag: nat, v: Bytes, depth: nat)
    requires ReadTag(b) == Got(tag, v) && tag % 8 != END_GROUP
    ensures match ReadField(tag, v, depth)
            case Failed => Parse(apply, m, b, depth).stop == Broken
            case Got(f, rest) => Parse(apply, m, b, depth) == Parse(apply, apply(m, f), rest, depth)
  {
    if ReadField(tag, v, depth).Got? {
      var r := ReadField(tag, v, depth);
      var s := ScanFields(r.rest, depth);
      assert ScanFields(b, depth) == Before([r.value], s);
      assert ([r.value] + s.fields)[0] == r.value && ([r.value] + s.fields)[1..] == s.fields;
    }
  }

  lemma {:induction false} FoldJoin<M>(apply: (M, Field) -> M, m: M, x: seq<Field>, y: seq<Field>)
    ensures Fold(apply, m, x + y) == Fold(apply, Fold(apply, m, x), y)
    decreases |x|
  {
    if x == [] {
      assert x + y == y;
    } else {
      assert (x + y)[0] == x[0] && (x + y)[1..] == x[1..] + y;
      FoldJoin(apply, apply(m, x[0]), x[1..], y);
    }
  }

  /** Merging in a message and then one field more is merging in the message with that field. */
  ghost predicate Merges<M(!new)>(apply: (M, Field) -> M, merge: (M, M) -> M, empty: M) {
    && (forall m :: merge(m, empty) == m)
    && (forall m, x, f :: merge(m, apply(x, f)) == apply(merge(m, x), f))
  }

  lemma {:induction false} FoldMerges<M(!new)>(apply: (M, Field) -> M, merge: (M, M) -> M, empty: M,
                                               m: M, x: M, fields: seq<Field>)
    requires Merges(apply, merge, empty)
    ensures merge(m, Fold(apply, x, fields)) == Fold(apply, merge(m, x), fields)
    decreases |fields|
  {
    if fields != [] {
      FoldMerges(apply, merge, empty, m, apply(x, fields[0]), fields[1..]);
      assert merge(m, apply(x, fields[0])) == apply(merge(m, x), fields[0]);
    }
  }

  /**
   Concatenation is merge: when `a` parses to its end, parsing `a + b` stops just as parsing
   `b` does and gives what parsing both and merging gives.
   */
  lemma ConcatenationIsMerge<M(!new)>(apply: (M, Field) -> M, merge: (M, M) -> M, empty: M,
                                      m: M, a: Bytes, b: Bytes, depth: nat)
    requires Merges(apply, merge, empty)
    requires Parse(apply, m, a, depth).stop == EndOfInput
    ensures var second := Parse(apply, empty, b, depth);
            Parse(apply, m, a + b, depth) ==
                second.(message := merge(Parse(apply, m, a, depth).message, second.message))
  {
    var s, t := ScanFields(a, depth), ScanFields(b, depth);
    ScanAppend(a, b, depth);
    FoldJoin(apply, m, s.fields, t.fields);
    FoldMerges(apply, merge, empty, Fold(apply, m, s.fields), empty, t.fields);
  }

  /** It is not when `a` ends with the end of a group: then `b` is left over unread. */
  lemma GroupEndStops<M>(apply: (M, Field) -> M, m: M, a: Bytes, b: Bytes, depth: nat)
    requires Parse(apply, m, a, depth).stop.EndGroup?
    ensures Parse(apply, m, a + b, depth) == Parse(apply, m, a, depth).(rest := Parse(apply, m, a, depth).rest + b)
  {
    ScanAppend(a, b, depth);
  }

  /** Parsing into a message is parsing into an empty one and merging. */
  lemma ParsingIsMerging<M(!new)>(apply: (M, Field) -> M, merge: (M, M) -> M, empty: M, m: M, b: Bytes, depth: nat)
    requires Merges(apply, merge, empty)
    ensures var alone := Parse(apply, empty, b, depth);
            Parse(apply, m, b, depth) == alone.(message := merge(m, alone.message))
  {
    FoldMerges(apply, merge, empty, m, empty, ScanFields(b, depth).fields);
  }

  lemma FoldOne<M>(apply: (M, Field) -> M, m: M, f: Field)
    ensures Fold(apply, m, [f]) == apply(m, f)
  {
    assert [f][0] == f && [f][1..] == [];
  }

  /** The fields a message type does not recognise, in order. */
  function UnknownTo(knows: Field -> bool, fields: seq<Field>): (u: seq<Field>)
    ensures |u| <= |fields|
    ensures |u| == |fields| <==> forall f | f in fields :: !knows(f)
    ensures |u| == |fields| ==> u == fields
  {
    if fields == [] then []
    else
      var n := |fields| - 1;
      assert fields == fields[..n] + [fields[n]];
      UnknownTo(knows, fields[..n]) + (if knows(fields[n]) then [] else [fields[n]])
  }
}
