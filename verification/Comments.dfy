/** Removal of multi-line comments from a list of lines, in place. */
module Comments {
  import opened Wrappers
  import opened TextLines

  // ---------------------------------------------------------------- the two tests on a line

  function LeftStrip(s: string): string {
    if s != "" && IsSpace(s[0]) then LeftStrip(s[1..]) else s
  }

  function RightStrip(s: string): string {
    if s != "" && IsSpace(s[|s| - 1]) then RightStrip(s[..|s| - 1]) else s
  }

  function Strip(s: string): string {
    RightStrip(LeftStrip(s))
  }

  /** The line starts a comment that does not end on it. */
  predicate StartsComment(line: string) {
    var s := Strip(line);
    "/*" <= s && !exists k | 2 <= k < |s| - 1 :: s[k] == '*' && s[k + 1] == '/'
  }

  /** The line ends a comment. */
  predicate EndsComment(line: string) {
    var s := Strip(line);
    |s| >= 2 && s[|s| - 2] == '*' && s[|s| - 1] == '/'
  }

  const DUMMY := "// dummy"

  lemma DummyIsCode()
    ensures !StartsComment(DUMMY) && !EndsComment(DUMMY)
  {
    assert LeftStrip(DUMMY) == DUMMY;
    assert DUMMY[|DUMMY| - 1] == 'y';
    assert Strip(DUMMY) == DUMMY;
    assert DUMMY[1] == '/';
  }

  // ---------------------------------------------------------------- what the tests accept

  predicate AllSpace(s: string) {
    forall k | 0 <= k < |s| :: IsSpace(s[k])
  }

  predicate Stripped(s: string) {
    s == "" || (!IsSpace(s[0]) && !IsSpace(s[|s| - 1]))
  }

  predicate HasEnd(s: string) {
    exists k | 0 <= k < |s| - 1 :: s[k] == '*' && s[k + 1] == '/'
  }

  lemma {:induction false} LeftStripped(p: string, s: string)
    requires AllSpace(p) && (s == "" || !IsSpace(s[0]))
    ensures LeftStrip(p + s) == s
    decreases |p|
  {
    if p == "" {
      assert p + s == s;
    } else {
      assert (p + s)[1..] == p[1..] + s;
      LeftStripped(p[1..], s);
    }
  }

  lemma {:induction false} RightStripped(s: string, q: string)
    requires AllSpace(q) && (s == "" || !IsSpace(s[|s| - 1]))
    ensures RightStrip(s + q) == s
    decreases |q|
  {
    if q == "" {
      assert s + q == s;
    } else {
      assert (s + q)[..|s + q| - 1] == s + q[..|q| - 1];
      RightStripped(s, q[..|q| - 1]);
    }
  }

  /** White space on both sides is all that is stripped. */
  lemma StripsTo(p: string, s: string, q: string)
    requires AllSpace(p) && AllSpace(q) && Stripped(s)
    ensures Strip(p + s + q) == s
  {
    if s == "" {
      assert p + s + q == (p + q) + "";
      LeftStripped(p + q, "");
    } else {
      assert p + s + q == p + (s + q);
      LeftStripped(p, s + q);
      RightStripped(s, q);
    }
  }

  /** A line starts a comment exactly if it begins with a slash and a star and has no star and slash behind these. */
  lemma StartsExactly(p: string, s: string, q: string)
    requires AllSpace(p) && AllSpace(q) && Stripped(s)
    ensures StartsComment(p + s + q) <==> |s| >= 2 && s[0] == '/' && s[1] == '*' && !HasEnd(s[2..])
  {
    StripsTo(p, s, q);
    if |s| >= 2 {
      assert s[..2] == [s[0], s[1]];
      if HasEnd(s[2..]) {
        var k :| 0 <= k < |s[2..]| - 1 && s[2..][k] == '*' && s[2..][k + 1] == '/';
        assert s[k + 2] == '*' && s[k + 3] == '/';
      } else {
        forall k | 2 <= k < |s| - 1 ensures !(s[k] == '*' && s[k + 1] == '/') {
          assert s[2..][k - 2] == s[k] && s[2..][k - 1] == s[k + 1];
        }
      }
    }
  }

  /** A line ends a comment exactly if it ends with a star and a slash. */
  lemma EndsExactly(p: string, s: string, q: string)
    requires AllSpace(p) && AllSpace(q) && Stripped(s)
    ensures EndsComment(p + s + q) <==> |s| >= 2 && s[|s| - 2..] == "*/"
  {
    StripsTo(p, s, q);
    if |s| >= 2 {
      assert s[|s| - 2..] == [s[|s| - 2], s[|s| - 1]];
    }
  }

  // ---------------------------------------------------------------- a one-pass automaton

  /** The two tests on a line that the removal is about: does a comment start, does one end. */
  datatype Tests = Tests(starts: string -> bool, ends: string -> bool)

  /** Outside comments, or inside the comment that starts at line `begin`. */
  datatype Mode = Code | Comment(begin: nat)

  function Enter(t: Tests, m: Mode, line: string, k: nat): Mode {
    if m.Code? && t.starts(line) then Comment(k) else m
  }

  function Leave(t: Tests, m: Mode, line: string): Mode {
    if m.Comment? && t.ends(line) then Code else m
  }

  /** The mode after the first `k` lines. */
  function ModeAfter(t: Tests, lines: seq<string>, k: nat): (m: Mode)
    requires k <= |lines|
    ensures m.Comment? ==> m.begin < k
  {
    if k == 0 then Code else Leave(t, Enter(t, ModeAfter(t, lines, k - 1), lines[k - 1], k - 1), lines[k - 1])
  }

  /** Line `k` belongs to a comment. */
  predicate InComment(t: Tests, lines: seq<string>, k: nat)
    requires k < |lines|
  {
    Enter(t, ModeAfter(t, lines, k), lines[k], k).Comment?
  }

  /** Where the comments that end stop: the start of the comment that never ends, or the end of the file. */
  function Limit(t: Tests, lines: seq<string>): (n: nat)
    ensures n <= |lines|
  {
    var m := ModeAfter(t, lines, |lines|);
    if m.Comment? then m.begin else |lines|
  }

  /** Every line of a comment that ends becomes a dummy; all other lines stay. */
  function Erased(t: Tests, lines: seq<string>): seq<string> {
    seq(|lines|, k requires 0 <= k < |lines| =>
      if k < Limit(t, lines) && InComment(t, lines, k) then DUMMY else lines[k])
  }

  /** The line number reported: one more than the index of the start that has no end. */
  function Unended(t: Tests, lines: seq<string>): seq<nat> {
    if ModeAfter(t, lines, |lines|).Comment? then [ModeAfter(t, lines, |lines|).begin + 1] else []
  }

  // ---------------------------------------------------------------- properties

  lemma {:induction false} StaysInComment(t: Tests, lines: seq<string>, b: nat, k: nat)
    requires b < k <= |lines| && ModeAfter(t, lines, k) == Comment(b)
    ensures ModeAfter(t, lines, b) == Code && t.starts(lines[b])
    ensures forall j | b <= j < k :: !t.ends(lines[j])
    decreases k
  {
    if b < k - 1 {
      StaysInComment(t, lines, b, k - 1);
    }
  }

  lemma {:induction false} NeverEnds(t: Tests, lines: seq<string>, b: nat, k: nat)
    requires b < k <= |lines| && ModeAfter(t, lines, b) == Code && t.starts(lines[b])
    requires forall j | b <= j < k :: !t.ends(lines[j])
    ensures ModeAfter(t, lines, k) == Comment(b)
    decreases k
  {
    if b < k - 1 {
      NeverEnds(t, lines, b, k - 1);
    }
  }

  /** A comment starts at line `b`, outside any other, and no line from there on ends it. */
  predicate Endless(t: Tests, lines: seq<string>, b: nat) {
    && b < |lines| && ModeAfter(t, lines, b) == Code && t.starts(lines[b])
    && forall j | b <= j < |lines| :: !t.ends(lines[j])
  }

  /** At most one error is reported, and for line `b` exactly when the comment starting there has no end. */
  lemma ErrorExactlyWhenEndless(t: Tests, lines: seq<string>, b: nat)
    ensures Unended(t, lines) == [b + 1] <==> Endless(t, lines, b)
    ensures |Unended(t, lines)| <= 1
  {
    var m := ModeAfter(t, lines, |lines|);
    if m == Comment(b) {
      StaysInComment(t, lines, b, |lines|);
    }
    if Endless(t, lines, b) {
      NeverEnds(t, lines, b, |lines|);
    }
    assert Unended(t, lines) == [b + 1] ==> Unended(t, lines)[0] == b + 1;
  }

  /** Before the limit no line of the result starts a comment; when nothing is reported, no line does. */
  lemma NoStartsLeft(t: Tests, lines: seq<string>)
    requires !t.starts(DUMMY)
    ensures |Erased(t, lines)| == |lines|
    ensures forall k | 0 <= k < Limit(t, lines) :: !t.starts(Erased(t, lines)[k])
    ensures Unended(t, lines) == [] ==> forall k | 0 <= k < |lines| :: !t.starts(Erased(t, lines)[k])
  {
  }

  lemma {:induction false} ErasedIsCode(t: Tests, lines: seq<string>, k: nat)
    requires !t.starts(DUMMY)
    requires k <= Limit(t, lines)
    ensures ModeAfter(t, Erased(t, lines), k) == Code
    decreases k
  {
    if k > 0 {
      ErasedIsCode(t, lines, k - 1);
      NoStartsLeft(t, lines);
    }
  }

  /** Outside comments a line that starts none stays, and what follows is still outside. */
  lemma CodeStays(t: Tests, lines: seq<string>, k: nat)
    requires k < |lines| && ModeAfter(t, lines, k) == Code && !t.starts(lines[k])
    ensures Erased(t, lines)[k] == lines[k] && ModeAfter(t, lines, k + 1) == Code && Unended(t, lines) != [k + 1]
  {
    ErrorExactlyWhenEndless(t, lines, k);
  }

  lemma {:induction false} StillInside(t: Tests, lines: seq<string>, b: nat, k: nat)
    requires b <= k < |lines| && ModeAfter(t, lines, b) == Code && t.starts(lines[b])
    requires forall j | b <= j < k :: !t.ends(lines[j])
    ensures Enter(t, ModeAfter(t, lines, k), lines[k], k) == Comment(b)
    decreases k
  {
    if b < k {
      NeverEnds(t, lines, b, k);
    }
  }

  lemma {:induction false} CodeHereIsBeforeLimit(t: Tests, lines: seq<string>, k: nat, n: nat)
    requires k <= n <= |lines| && ModeAfter(t, lines, k) == Code
    ensures ModeAfter(t, lines, n).Comment? ==> ModeAfter(t, lines, n).begin >= k
    decreases n
  {
    if k < n {
      CodeHereIsBeforeLimit(t, lines, k, n - 1);
    }
  }

  /** A comment is erased from the line it starts on to the first line that ends it, both included. */
  lemma SpanErased(t: Tests, lines: seq<string>, b: nat, e: nat)
    requires b <= e < |lines| && ModeAfter(t, lines, b) == Code && t.starts(lines[b])
    requires t.ends(lines[e]) && forall j | b <= j < e :: !t.ends(lines[j])
    ensures forall k | b <= k <= e :: Erased(t, lines)[k] == "// dummy"
    ensures ModeAfter(t, lines, e + 1) == Code
  {
    StillInside(t, lines, b, e);
    CodeHereIsBeforeLimit(t, lines, e + 1, |lines|);
    assert e + 1 <= Limit(t, lines);
    forall k | b <= k <= e ensures Erased(t, lines)[k] == DUMMY {
      StillInside(t, lines, b, k);
      assert InComment(t, lines, k);
    }
  }

  /** A comment that never ends is left as it is. */
  lemma EndlessStays(t: Tests, lines: seq<string>, b: nat)
    requires Endless(t, lines, b)
    ensures forall k | b <= k < |lines| :: Erased(t, lines)[k] == lines[k]
  {
    NeverEnds(t, lines, b, |lines|);
  }

  /** Removing comments a second time changes nothing and reports the same. */
  lemma ErasedTwice(t: Tests, lines: seq<string>)
    requires !t.starts(DUMMY)
    ensures Erased(t, Erased(t, lines)) == Erased(t, lines) && Unended(t, Erased(t, lines)) == Unended(t, lines)
  {
    var e, n := Erased(t, lines), Limit(t, lines);
    ErasedIsCode(t, lines, n);
    if n < |lines| {
      StaysInComment(t, lines, n, |lines|);
      NeverEnds(t, e, n, |lines|);
    }
    assert Limit(t, e) == n;
    forall k | 0 <= k < |lines| ensures Erased(t, e)[k] == e[k] {
      if k < n {
        ErasedIsCode(t, lines, k);
        NoStartsLeft(t, lines);
        assert !InComment(t, e, k);
      }
    }
  }

  // ---------------------------------------------------------------- the loops

  predicate NoneStarts(t: Tests, lines: seq<string>, i: nat, j: nat) {
    i <= j <= |lines| && forall k | i <= k < j :: !t.starts(lines[k])
  }

  predicate NoneEnds(t: Tests, lines: seq<string>, i: nat, j: nat) {
    i <= j <= |lines| && forall k | i <= k < j :: !t.ends(lines[k])
  }

  predicate Dummied(now: seq<string>, was: seq<string>, i: nat, j: nat) {
    i <= j <= |was| == |now| && forall k | 0 <= k < |was| :: now[k] == if i <= k < j then DUMMY else was[k]
  }

  method FindNextMultiLineCommentStart(t: Tests, lines: array<string>, lineix: nat) returns (ix: nat)
    requires lineix <= lines.Length
    ensures lineix <= ix <= lines.Length
    ensures NoneStarts(t, lines[..], lineix, ix)
    ensures ix < lines.Length ==> t.starts(lines[ix])
  {
    ix := lineix;
    while ix < lines.Length
      invariant lineix <= ix <= lines.Length
      invariant forall k | lineix <= k < ix :: !t.starts(lines[k])
    {
      if t.starts(lines[ix]) {
        return;
      }
      ix := ix + 1;
    }
  }

  method FindNextMultiLineCommentEnd(t: Tests, lines: array<string>, lineix: nat) returns (ix: nat)
    requires lineix <= lines.Length
    ensures lineix <= ix <= lines.Length
    ensures NoneEnds(t, lines[..], lineix, ix)
    ensures ix < lines.Length ==> t.ends(lines[ix])
  {
    ix := lineix;
    while ix < lines.Length
      invariant lineix <= ix <= lines.Length
      invariant forall k | lineix <= k < ix :: !t.ends(lines[k])
    {
      if t.ends(lines[ix]) {
        return;
      }
      ix := ix + 1;
    }
  }

  method RemoveMultiLineCommentsFromRange(lines: array<string>, begin: nat, end: nat)
    requires begin <= end <= lines.Length
    modifies lines
    ensures Dummied(lines[..], old(lines[..]), begin, end)
  {
    for i := begin to end
      invariant forall k | 0 <= k < lines.Length :: lines[k] == if begin <= k < i then DUMMY else old(lines[k])
    {
      lines[i] := DUMMY;
    }
  }

  /** The first `n` lines are done, outside any comment, and the others are as they were. */
  ghost predicate ErasedTo(t: Tests, now: seq<string>, was: seq<string>, n: nat) {
    && n <= |was| == |now| && ModeAfter(t, was, n) == Code
    && (forall k {:trigger now[k]} | 0 <= k < n :: now[k] == if InComment(t, was, k) then DUMMY else was[k])
    && (forall k {:trigger now[k]} | n <= k < |was| :: now[k] == was[k])
  }

  lemma {:induction false} StaysCode(t: Tests, lines: seq<string>, n: nat, m: nat)
    requires n <= |lines|
    requires ModeAfter(t, lines, n) == Code && NoneStarts(t, lines, n, m)
    ensures ModeAfter(t, lines, m) == Code
    decreases m
  {
    if n < m {
      StaysCode(t, lines, n, m - 1);
    }
  }

  /** Lines that start no comment need nothing done. */
  lemma SkipCode(t: Tests, now: seq<string>, was: seq<string>, n: nat, m: nat)
    requires ErasedTo(t, now, was, n) && NoneStarts(t, now, n, m)
    ensures ErasedTo(t, now, was, m)
  {
    assert forall k | n <= k < m :: now[k] == was[k];
    forall k | n <= k <= m ensures ModeAfter(t, was, k) == Code {
      StaysCode(t, was, n, k);
    }
  }

  /** The comment from `begin` to `end` is the next to be removed. */
  ghost predicate NextComment(t: Tests, now: seq<string>, was: seq<string>, begin: nat, end: nat) {
    && ErasedTo(t, now, was, begin) && begin <= end < |was|
    && t.starts(now[begin]) && t.ends(now[end]) && NoneEnds(t, now, begin, end)
  }

  /** All lines of a comment that ends are in it, and code follows. */
  lemma CommentReaches(t: Tests, was: seq<string>, begin: nat, end: nat)
    requires begin <= end < |was| && ModeAfter(t, was, begin) == Code
    requires t.starts(was[begin]) && t.ends(was[end]) && NoneEnds(t, was, begin, end)
    ensures forall k | begin <= k <= end :: InComment(t, was, k)
    ensures ModeAfter(t, was, end + 1) == Code
  {
    forall k | begin <= k <= end ensures InComment(t, was, k) {
      if begin < k {
        NeverEnds(t, was, begin, k);
      }
    }
  }

  /** A comment that ends is done when its lines have become dummies. */
  lemma SkipComment(t: Tests, now: seq<string>, next: seq<string>, was: seq<string>, begin: nat, end: nat)
    requires NextComment(t, now, was, begin, end)
    requires Dummied(next, now, begin, end + 1)
    ensures ErasedTo(t, next, was, end + 1)
  {
    assert now[begin] == was[begin] && now[end] == was[end];
    forall k | begin <= k < end ensures !t.ends(was[k]) {
      assert now[k] == was[k];
    }
    CommentReaches(t, was, begin, end);
    forall k | 0 <= k < end + 1 ensures next[k] == if InComment(t, was, k) then DUMMY else was[k] {
      if k < begin {
        assert next[k] == now[k];
      }
    }
  }

  /** What remains when the removal ends, and what it has reported. */
  ghost predicate Finished(t: Tests, now: seq<string>, was: seq<string>, errors: seq<nat>) {
    now == Erased(t, was) && errors == Unended(t, was)
  }

  /** A comment that does not end stays as it was and is reported. */
  lemma StopAtEndless(t: Tests, now: seq<string>, was: seq<string>, begin: nat)
    requires ErasedTo(t, now, was, begin) && begin < |was|
    requires t.starts(now[begin]) && NoneEnds(t, now, begin, |was|)
    ensures Finished(t, now, was, [begin + 1])
  {
    assert forall k | begin <= k < |was| :: now[k] == was[k];
    NeverEnds(t, was, begin, |was|);
  }

  lemma StopAtEnd(t: Tests, now: seq<string>, was: seq<string>)
    requires ErasedTo(t, now, was, |was|)
    ensures Finished(t, now, was, [])
  {
  }

  /** Finds the next comment; if there is none, or if it never ends, everything has been erased. */
  method FindNextComment(t: Tests, lines: array<string>, ghost was: seq<string>, lineix: nat)
    returns (begin: nat, end: nat)
    requires lineix <= lines.Length && ErasedTo(t, lines[..], was, lineix)
    ensures lineix <= begin && (end < lines.Length ==> NextComment(t, lines[..], was, begin, end))
    ensures end >= lines.Length ==> Finished(t, lines[..], was, if begin < lines.Length then [begin + 1] else [])
  {
    ghost var now := lines[..];
    begin := FindNextMultiLineCommentStart(t, lines, lineix);
    SkipCode(t, now, was, lineix, begin);
    if begin >= lines.Length {
      StopAtEnd(t, now, was);
      return begin, lines.Length;
    }
    end := FindNextMultiLineCommentEnd(t, lines, begin);
    if end >= lines.Length {
      StopAtEndless(t, now, was, begin);
    }
  }

  method RemoveComment(t: Tests, lines: array<string>, ghost was: seq<string>, begin: nat, end: nat)
    requires NextComment(t, lines[..], was, begin, end)
    modifies lines
    ensures ErasedTo(t, lines[..], was, end + 1)
  {
    ghost var now := lines[..];
    RemoveMultiLineCommentsFromRange(lines, begin, end + 1);
    SkipComment(t, now, lines[..], was, begin, end);
  }

  /**
   Removes the multi-line comments from the lines, in place: the result is what the one-pass
   automaton erases, and the only error is that of the comment it never leaves.
   */
  method RemoveComments(t: Tests, lines: array<string>) returns (errors: seq<nat>)
    modifies lines
    ensures lines[..] == Erased(t, old(lines[..])) && errors == Unended(t, old(lines[..]))
  {
    ghost var was := lines[..];
    errors := [];
    var lineix := 0;
    while lineix < lines.Length
      invariant 0 <= lineix <= lines.Length && errors == []
      invariant ErasedTo(t, lines[..], was, lineix)
    {
      var begin, end := FindNextComment(t, lines, was, lineix);
      if begin >= lines.Length {
        return;
      }
      if end >= lines.Length {
        return [begin + 1];
      }
      RemoveComment(t, lines, was, begin, end);
      lineix := end + 1;
    }
    StopAtEnd(t, lines[..], was);
  }

  /** The tests the linter uses. */
  const TESTS := Tests(StartsComment, EndsComment)

  method RemoveMultiLineComments(lines: array<string>) returns (errors: seq<nat>)
    modifies lines
    ensures lines[..] == Erased(TESTS, old(lines[..])) && errors == Unended(TESTS, old(lines[..]))
  {
    errors := RemoveComments(TESTS, lines);
  }

  /** A line whose comment is closed on it stays as it is and is not reported. */
  lemma ClosedCommentStays(lines: seq<string>, k: nat, p: string, s: string, q: string)
    requires AllSpace(p) && AllSpace(q) && (s == "" || !IsSpace(s[|s| - 1])) && HasEnd(s)
    requires k < |lines| && lines[k] == p + ("/*" + s) + q && ModeAfter(TESTS, lines, k) == Code
    ensures Erased(TESTS, lines)[k] == lines[k] && ModeAfter(TESTS, lines, k + 1) == Code
    ensures Unended(TESTS, lines) != [k + 1]
  {
    StartsExactly(p, "/*" + s, q);
    assert ("/*" + s)[2..] == s;
    CodeStays(TESTS, lines, k);
  }

  /**
   With the linter's tests: nothing starts a comment unless an error is reported, and a second
   removal does nothing.
   */
  lemma LinterErasesComments(lines: seq<string>)
    ensures Unended(TESTS, lines) == [] ==> forall k | 0 <= k < |lines| :: !StartsComment(Erased(TESTS, lines)[k])
    ensures Erased(TESTS, Erased(TESTS, lines)) == Erased(TESTS, lines)
    ensures Unended(TESTS, Erased(TESTS, lines)) == Unended(TESTS, lines)
  {
    DummyIsCode();
    NoStartsLeft(TESTS, lines);
    ErasedTwice(TESTS, lines);
    forall k | 0 <= k < |lines| && Unended(TESTS, lines) == [] ensures !StartsComment(Erased(TESTS, lines)[k]) {
      assert !TESTS.starts(Erased(TESTS, lines)[k]);
    }
  }
}
