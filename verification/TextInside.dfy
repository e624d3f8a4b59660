/** Extraction of the text between an opening punctuation mark and its match. */
module TextInside {
  import opened Wrappers
  import opened Brackets

  /** The punctuation the extractor pairs up; angle brackets are ordinary characters. */
  const PUNCTUATION: set<Opener> := {'(', '{', '['}

  /** Every entry of the stack of expected closers is the closer of a paired opener. */
  predicate ExpectedClosers(stack: seq<char>) {
    forall k | 0 <= k < |stack| :: IsCloser(stack[k], PUNCTUATION)
  }

  /** What reading `c` does to the stack of expected closers, top last; None for a wrong closer. */
  function Step(stack: seq<char>, c: char): Option<seq<char>>
    requires stack != []
  {
    if c == stack[|stack| - 1] then Some(stack[..|stack| - 1])
    else if IsCloser(c, PUNCTUATION) then None
    else if c in PUNCTUATION then Some(stack + [Mirror(c)])
    else Some(stack)
  }

  /** Where reading `t` from `i` on empties the stack of expected closers; None if it never does. */
  function Emptied(t: string, i: nat, stack: seq<char>): Option<nat>
    requires i <= |t|
    decreases |t| - i
  {
    if stack == [] then Some(i)
    else if i == |t| then None
    else
      var next := Step(stack, t[i]);
      if next.None? then None else Emptied(t, i + 1, next.value)
  }

  /** `t[i..j]` is well nested and the closer `c` follows it. */
  ghost predicate Encloses(t: string, i: nat, j: nat, c: char) {
    i <= j < |t| && t[j] == c && Dyck(t, i, j, PUNCTUATION)
  }

  /** Well-nested text is read without touching what is expected below it. */
  lemma {:induction false} DyckIsTransparent(t: string, i: nat, j: nat, stack: seq<char>)
    requires i <= j <= |t| && Dyck(t, i, j, PUNCTUATION)
    requires stack != [] && ExpectedClosers(stack)
    ensures Emptied(t, i, stack) == Emptied(t, j, stack)
    decreases j - i
  {
    if i < j {
      if t[i] in PUNCTUATION {
        var k := ClosedAt(t, i, j, PUNCTUATION);
        var inner := stack + [Mirror(t[i])];
        DyckIsTransparent(t, i + 1, k, inner);
        assert Step(inner, t[k]) == Some(stack);
        DyckIsTransparent(t, k + 1, j, stack);
      } else {
        DyckIsTransparent(t, i + 1, j, stack);
      }
    }
  }

  /** What is read before the top expected closer is reached is well nested. */
  lemma {:induction false} EmptiedIsDyck(t: string, i: nat, below: seq<char>, c: char) returns (j: nat)
    requires i <= |t| && ExpectedClosers(below) && IsCloser(c, PUNCTUATION) && Emptied(t, i, below + [c]).Some?
    ensures Encloses(t, i, j, c)
    ensures Emptied(t, i, below + [c]) == Emptied(t, j + 1, below)
    decreases |t| - i
  {
    var stack := below + [c];
    assert stack[..|stack| - 1] == below;
    if t[i] == c {
      j := i;
    } else if t[i] in PUNCTUATION {
      var k := EmptiedIsDyck(t, i + 1, stack, Mirror(t[i]));
      j := EmptiedIsDyck(t, k + 1, below, c);
      assert DyckAt(t, i, k, j, PUNCTUATION);
    } else {
      j := EmptiedIsDyck(t, i + 1, below, c);
    }
  }

  /** The enclosed text exists exactly when the scan succeeds, and there is only one. */
  lemma EnclosedTextIsUnique(t: string, i: nat, j: nat, c: char)
    requires i <= |t| && IsCloser(c, PUNCTUATION)
    ensures Encloses(t, i, j, c) <==> Emptied(t, i, [c]) == Some(j + 1)
  {
    assert [] + [c] == [c];
    if Encloses(t, i, j, c) {
      DyckIsTransparent(t, i, j, [c]);
    }
    if Emptied(t, i, [c]).Some? {
      var k := EmptiedIsDyck(t, i, [], c);
    }
  }

  /** One of the three pairs of punctuation. */
  predicate Pair(open: char, close: char) {
    (open == '(' && close == ')') || (open == '{' && close == '}') || (open == '[' && close == ']')
  }

  predicate IsPlain(c: char) {
    c != '(' && c != ')' && c != '{' && c != '}' && c != '[' && c != ']'
  }

  lemma {:induction false} PlainPassed(t: string, i: nat, j: nat, stack: seq<char>)
    requires i <= j <= |t| && stack != [] && ExpectedClosers(stack) && forall k | i <= k < j :: IsPlain(t[k])
    ensures Emptied(t, i, stack) == Emptied(t, j, stack)
    decreases j - i
  {
    if i < j {
      assert IsCloser(stack[|stack| - 1], PUNCTUATION);
      PlainPassed(t, i + 1, j, stack);
    }
  }

  /** Behind an opening mark, text without punctuation is enclosed by its own closing mark and by no other. */
  lemma PairEncloses(before: string, open: char, x: string, c: char, after: string)
    requires (exists close :: Pair(open, close)) && (exists o :: Pair(o, c)) && forall k | 0 <= k < |x| :: IsPlain(x[k])
    ensures var text, start := before + [open] + x + [c] + after, |before| + 1;
            if Pair(open, c) then Encloses(text, start, start + |x|, Mirror(open))
            else forall j: nat :: !Encloses(text, start, j, Mirror(open))
  {
    var text, start := before + [open] + x + [c] + after, |before| + 1;
    var j := start + |x|;
    assert text[j] == c && text[start..j] == x;
    forall k | start <= k < j ensures IsPlain(text[k]) {
      assert text[k] == x[k - start];
    }
    assert IsCloser(Mirror(open), PUNCTUATION);
    PlainPassed(text, start, j, [Mirror(open)]);
    if Pair(open, c) {
      EnclosedTextIsUnique(text, start, j, Mirror(open));
    } else {
      forall m: nat ensures !Encloses(text, start, m, Mirror(open)) {
        EnclosedTextIsUnique(text, start, m, Mirror(open));
      }
    }
  }

  /**
   Returns the text between the opening punctuation at `start - 1` and its match: the text
   up to `j` exactly when it is well nested and the matching closer stands at `j`, and None
   exactly when there is no such `j`.
   */
  method GetTextInside(text: string, start: nat) returns (r: Option<string>)
    requires 0 < start <= |text| && text[start - 1] in PUNCTUATION
    ensures var c := Mirror(text[start - 1]); forall j: nat :: Encloses(text, start, j, c) ==> r == Some(text[start..j])
    ensures var c := Mirror(text[start - 1]); r.Some? ==> exists j: nat :: Encloses(text, start, j, c)
  {
    ghost var closer := Mirror(text[start - 1]);
    forall j: nat
      ensures Encloses(text, start, j, closer) <==> Emptied(text, start, [closer]) == Some(j + 1)
    {
      EnclosedTextIsUnique(text, start, j, closer);
    }
    var stack := [Mirror(text[start - 1])];
    var position := start;
    while stack != [] && position < |text|
      invariant start <= position <= |text|
      invariant stack == [] ==> start < position
      invariant Emptied(text, start, [closer]) == Emptied(text, position, stack)
      decreases |text| - position
    {
      if text[position] == stack[|stack| - 1] {
        stack := stack[..|stack| - 1];
      } else if IsCloser(text[position], PUNCTUATION) {
        return None;
      } else if text[position] in PUNCTUATION {
        stack := stack + [Mirror(text[position])];
      }
      position := position + 1;
    }
    if stack != [] {
      return None;
    }
    assert Encloses(text, start, position - 1, closer);
    return Some(text[start..position - 1]);
  }
}
