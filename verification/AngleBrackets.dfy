/**
 The two searches that decide whether an angle bracket belongs to a template: a stack
 automaton read forwards from a '<' and its counterpart read backwards from a '>'.
 */
module AngleBrackets {
  import opened Brackets
  import opened TextLines

  predicate IsOpening(c: char) {
    c == '<' || c == '(' || c == '['
  }

  predicate IsClosing(c: char) {
    c == '>' || c == ')' || c == ']'
  }

  predicate IsOperator(c: char) {
    IsOpening(c) || IsClosing(c) || c == ',' || c == ';'
  }

  /** The bracket kinds the automata nest. */
  const NESTING: set<Opener> := {'<', '(', '['}

  datatype Outcome =
    | Closed(at: int)               // the initial bracket was matched
    | Comma(at: int)                // a comma directly inside angle brackets ends the search early
    | Refused(at: int)              // an operator that no template argument list contains
    | Exhausted(stack: seq<char>)   // the text ended first

  datatype Action = Continue(stack: seq<char>) | Stop(outcome: Outcome)

  /** The initial bracket is at the bottom and only openers are stacked. */
  predicate Anchored(stack: seq<char>) {
    && stack != [] && stack[0] == '<'
    && forall k | 0 <= k < |stack| :: stack[k] in NESTING
  }

  /** One operator of the forward search. */
  function Step(stack: seq<char>, c: char, at: int): (a: Action)
    requires Anchored(stack)
    ensures a.Continue? ==> Anchored(a.stack)
  {
    var top := stack[|stack| - 1];
    if !IsOperator(c) then Continue(stack)
    else if top == '<' then
      if IsOpening(c) then Continue(stack + [c])
      else if c == '>' then
        if |stack| == 1 then Stop(Closed(at)) else Continue(stack[..|stack| - 1])
      else if c == ',' then Stop(Comma(at))
      else Stop(Refused(at))
    else if IsOpening(c) then Continue(stack + [c])
    else if c == ')' || c == ']' then Continue(stack[..|stack| - 1])
    else Continue(stack)
  }

  /** The forward search over `t` from position `i`; the step function shows the stack is never empty. */
  function Run(t: string, i: nat, stack: seq<char>): (o: Outcome)
    requires i <= |t| && Anchored(stack)
    ensures o.Exhausted? ==> Anchored(o.stack)
    decreases |t| - i
  {
    if i == |t| then Exhausted(stack)
    else
      var a := Step(stack, t[i], i);
      if a.Stop? then a.outcome else Run(t, i + 1, a.stack)
  }

  // ---------------------------------------------------------------- what is accepted

  /** A character that leaves the stack alone, directly inside `<` (angle) or inside `(` or `[`. */
  predicate Inert(c: char, angle: bool) {
    if angle then c !in "<>(),;[]" else c !in "<()[]"
  }

  predicate ClosesKind(open: char, c: char) {
    if open == '<' then c == '>' else c == ')' || c == ']'
  }

  /**
   The texts a search passes over: inert characters and bracketed pieces. Inside round or
   square brackets commas, semicolons and '>' are inert, and the two closers are not told apart.
   */
  ghost predicate Passes(t: string, i: nat, j: nat, angle: bool)
    requires j <= |t|
    decreases j - i
  {
    || i == j
    || (i < j && Inert(t[i], angle) && Passes(t, i + 1, j, angle))
    || (i < j && t[i] in NESTING && exists k: nat :: PassesAt(t, i, k, j, angle))
  }

  ghost predicate PassesAt(t: string, i: nat, k: nat, j: nat, angle: bool)
    requires i < j <= |t|
    decreases j - i, 0
  {
    i < k < j && ClosesKind(t[i], t[k]) && Passes(t, i + 1, k, t[i] == '<') && Passes(t, k + 1, j, angle)
  }

  lemma PassesOpener(t: string, i: nat, j: nat, angle: bool) returns (k: nat)
    requires i < j <= |t| && t[i] in NESTING && Passes(t, i, j, angle)
    ensures PassesAt(t, i, k, j, angle)
  {
    assert t[i] == '<' || t[i] == '(' || t[i] == '[';
    k :| PassesAt(t, i, k, j, angle);
  }

  lemma {:induction false} PassedOver(t: string, i: nat, j: nat, stack: seq<char>)
    requires i <= j <= |t| && Anchored(stack) && Passes(t, i, j, stack[|stack| - 1] == '<')
    ensures Run(t, i, stack) == Run(t, j, stack)
    decreases j - i
  {
    if i < j {
      var angle := stack[|stack| - 1] == '<';
      if t[i] in NESTING {
        var k := PassesOpener(t, i, j, angle);
        var inner := stack + [t[i]];
        assert Step(stack, t[i], i) == Continue(inner);
        PassedOver(t, i + 1, k, inner);
        assert inner[..|stack|] == stack;
        assert Step(inner, t[k], k) == Continue(stack);
        PassedOver(t, k + 1, j, stack);
      } else {
        assert Step(stack, t[i], i) == Continue(stack);
        PassedOver(t, i + 1, j, stack);
      }
    }
  }

  /**
   From `i`, directly inside a bracket (angle or not), position `j` is reached without a
   verdict, and what is innermost there is an angle bracket or not (top).
   */
  ghost predicate Inside(t: string, i: nat, j: nat, angle: bool, top: bool)
    requires j <= |t|
    decreases j - i
  {
    || (i <= j && angle == top && Passes(t, i, j, angle))
    || exists m: nat :: InsideAt(t, i, m, j, angle, top)
  }

  /** The opener at `m` is still open at `j`. */
  ghost predicate InsideAt(t: string, i: nat, m: nat, j: nat, angle: bool, top: bool)
    requires j <= |t|
    decreases j - i, 0
  {
    i <= m < j && t[m] in NESTING && Passes(t, i, m, angle) && Inside(t, m + 1, j, t[m] == '<', top)
  }

  lemma InsideOpener(t: string, i: nat, j: nat, angle: bool, top: bool) returns (m: nat)
    requires j <= |t| && Inside(t, i, j, angle, top) && !(i <= j && angle == top && Passes(t, i, j, angle))
    ensures InsideAt(t, i, m, j, angle, top)
  {
    m :| InsideAt(t, i, m, j, angle, top);
  }

  lemma InsideBounds(t: string, i: nat, j: nat, angle: bool, top: bool)
    requires j <= |t| && Inside(t, i, j, angle, top)
    ensures i <= j
  {
    if !(i <= j && angle == top && Passes(t, i, j, angle)) {
      var m := InsideOpener(t, i, j, angle, top);
    }
  }

  /** The search gets to every position that is inside, with the right bracket on top. */
  lemma {:induction false} ReachesInside(t: string, i: nat, j: nat, stack: seq<char>, top: bool)
    returns (there: seq<char>)
    requires j <= |t| && Anchored(stack) && Inside(t, i, j, stack[|stack| - 1] == '<', top)
    ensures i <= j && Anchored(there) && (there[|there| - 1] == '<') == top
    ensures Run(t, i, stack) == Run(t, j, there)
    decreases j - i
  {
    var angle := stack[|stack| - 1] == '<';
    if i <= j && angle == top && Passes(t, i, j, angle) {
      PassedOver(t, i, j, stack);
      there := stack;
    } else {
      var m := InsideOpener(t, i, j, angle, top);
      PassedOver(t, i, m, stack);
      assert Step(stack, t[m], m) == Continue(stack + [t[m]]);
      there := ReachesInside(t, m + 1, j, stack + [t[m]], top);
    }
  }

  lemma InsideAfterPiece(t: string, i: nat, m: nat, j: nat, angle: bool, top: bool)
    requires i < m < j + 1 <= |t| + 1 && m < |t| && t[i] in NESTING && ClosesKind(t[i], t[m])
    requires Passes(t, i + 1, m, t[i] == '<') && Inside(t, m + 1, j, angle, top)
    ensures Inside(t, i, j, angle, top)
  {
    if m + 1 <= j && angle == top && Passes(t, m + 1, j, angle) {
      assert PassesAt(t, i, m, j, angle);
    } else {
      var n := InsideOpener(t, m + 1, j, angle, top);
      assert PassesAt(t, i, m, n, angle);
      assert InsideAt(t, i, n, j, angle, top);
    }
  }

  lemma InsideAfterInert(t: string, i: nat, j: nat, angle: bool, top: bool)
    requires i < |t| && j <= |t| && Inert(t[i], angle) && Inside(t, i + 1, j, angle, top)
    ensures Inside(t, i, j, angle, top)
  {
    if !(i + 1 <= j && angle == top && Passes(t, i + 1, j, angle)) {
      var n := InsideOpener(t, i + 1, j, angle, top);
      assert InsideAt(t, i, n, j, angle, top);
    }
  }

  /** The operators that no template argument list contains. */
  predicate Refusing(c: char) {
    c == ';' || c == ')' || c == ']'
  }

  /** The search started at `i` ended without matching, and this is where and why. */
  ghost predicate EndsInside(t: string, i: nat, o: Outcome, angle: bool) {
    match o
    case Closed(_) => false
    case Comma(at) => 0 <= at < |t| && t[at] == ',' && Inside(t, i, at, angle, true)
    case Refused(at) => 0 <= at < |t| && Refusing(t[at]) && Inside(t, i, at, angle, true)
    case Exhausted(_) => Inside(t, i, |t|, angle, true) || Inside(t, i, |t|, angle, false)
  }

  function EndOf(t: string, o: Outcome): int {
    if o.Exhausted? then |t| else o.at
  }

  /** A search either leaves the bracket on top or ends inside it. */
  lemma {:induction false} LeavesOrEndsInside(t: string, i: nat, below: seq<char>, c: char) returns (left: bool, k: nat)
    requires i <= |t| && Anchored(below + [c])
    ensures left ==> i <= k < |t| && Passes(t, i, k, c == '<') && ClosesKind(c, t[k])
    ensures left && below == [] ==> Run(t, i, below + [c]) == Closed(k)
    ensures left && below != [] ==> Anchored(below) && Run(t, i, below + [c]) == Run(t, k + 1, below)
    ensures !left ==> EndsInside(t, i, Run(t, i, below + [c]), c == '<')
    decreases |t| - i
  {
    var stack, angle := below + [c], c == '<';
    k := i;
    assert stack[..|stack| - 1] == below;
    assert below != [] ==> below[0] == stack[0] && forall n | 0 <= n < |below| :: below[n] == stack[n];
    if i == |t| {
      left := false;
      assert Inside(t, i, |t|, angle, angle);
    } else if ClosesKind(c, t[i]) {
      left := true;
    } else if t[i] in NESTING {
      assert Step(stack, t[i], i) == Continue(stack + [t[i]]);
      var innerLeft, m := LeavesOrEndsInside(t, i + 1, stack, t[i]);
      if innerLeft {
        left, k := LeavesOrEndsInside(t, m + 1, below, c);
        if left {
          assert PassesAt(t, i, m, k, angle);
        } else {
          AfterPiece(t, i, m, Run(t, i, stack), angle);
        }
      } else {
        left := false;
        InOpened(t, i, Run(t, i, stack), angle);
      }
    } else if Inert(t[i], angle) {
      assert Step(stack, t[i], i) == Continue(stack);
      left, k := LeavesOrEndsInside(t, i + 1, below, c);
      if !left {
        AfterInert(t, i, Run(t, i, stack), angle);
      }
    } else {
      left := false;
      assert Inside(t, i, i, angle, true);
    }
  }

  lemma AfterPiece(t: string, i: nat, m: nat, o: Outcome, angle: bool)
    requires i < m < |t| && t[i] in NESTING && ClosesKind(t[i], t[m]) && Passes(t, i + 1, m, t[i] == '<')
    requires EndsInside(t, m + 1, o, angle)
    ensures EndsInside(t, i, o, angle)
  {
    var end := EndOf(t, o);
    if Inside(t, m + 1, end, angle, true) {
      InsideBounds(t, m + 1, end, angle, true);
      InsideAfterPiece(t, i, m, end, angle, true);
    } else {
      InsideBounds(t, m + 1, end, angle, false);
      InsideAfterPiece(t, i, m, end, angle, false);
    }
  }

  lemma AfterInert(t: string, i: nat, o: Outcome, angle: bool)
    requires i < |t| && Inert(t[i], angle) && EndsInside(t, i + 1, o, angle)
    ensures EndsInside(t, i, o, angle)
  {
    var end := EndOf(t, o);
    if Inside(t, i + 1, end, angle, true) {
      InsideAfterInert(t, i, end, angle, true);
    } else {
      InsideAfterInert(t, i, end, angle, false);
    }
  }

  lemma InOpened(t: string, i: nat, o: Outcome, angle: bool)
    requires i < |t| && t[i] in NESTING && EndsInside(t, i + 1, o, t[i] == '<')
    ensures EndsInside(t, i, o, angle)
  {
    var end := EndOf(t, o);
    if Inside(t, i + 1, end, t[i] == '<', true) {
      InsideBounds(t, i + 1, end, t[i] == '<', true);
      assert InsideAt(t, i, i, end, angle, true);
    } else {
      InsideBounds(t, i + 1, end, t[i] == '<', false);
      assert InsideAt(t, i, i, end, angle, false);
    }
  }

  /**
   The verdict of the forward search in terms of the text alone. It matches the initial bracket
   at `j` exactly when it can pass over everything before a '>' at `j`; it stops at a comma or
   is refused exactly where a comma or one of `;`, `)`, `]` stands directly inside an angle
   bracket; and it runs out of text exactly when the end is inside.
   */
  lemma VerdictExactly(t: string, j: nat)
    ensures Run(t, 0, ['<']) == Closed(j) <==> j < |t| && t[j] == '>' && Passes(t, 0, j, true)
    ensures Run(t, 0, ['<']) == Comma(j) <==> j < |t| && t[j] == ',' && Inside(t, 0, j, true, true)
    ensures Run(t, 0, ['<']) == Refused(j) <==> j < |t| && Refusing(t[j]) && Inside(t, 0, j, true, true)
    ensures Run(t, 0, ['<']).Exhausted? <==> Inside(t, 0, |t|, true, true) || Inside(t, 0, |t|, true, false)
  {
    assert [] + ['<'] == ['<'];
    var left, k := LeavesOrEndsInside(t, 0, [], '<');
    if j < |t| && Passes(t, 0, j, true) {
      PassedOver(t, 0, j, ['<']);
    }
    if j < |t| && Inside(t, 0, j, true, true) {
      var there := ReachesInside(t, 0, j, ['<'], true);
    }
    if Inside(t, 0, |t|, true, true) {
      var there := ReachesInside(t, 0, |t|, ['<'], true);
    } else if Inside(t, 0, |t|, true, false) {
      var there := ReachesInside(t, 0, |t|, ['<'], false);
    }
  }

  /** Well-nested text free of commas and semicolons is passed over. */
  lemma {:induction false} WellNestedPasses(t: string, i: nat, j: nat, angle: bool)
    requires i <= j <= |t| && Dyck(t, i, j, NESTING)
    requires forall k | i <= k < j :: t[k] != ',' && t[k] != ';'
    ensures Passes(t, i, j, angle)
    decreases j - i
  {
    if i < j {
      if t[i] in NESTING {
        var k := ClosedAt(t, i, j, NESTING);
        WellNestedPasses(t, i + 1, k, t[i] == '<');
        WellNestedPasses(t, k + 1, j, angle);
        assert PassesAt(t, i, k, j, angle);
      } else {
        assert !IsCloser(t[i], NESTING);
        WellNestedPasses(t, i + 1, j, angle);
      }
    }
  }

  // ---------------------------------------------------------------- the backward search

  predicate AnchoredBack(stack: seq<char>) {
    && stack != [] && stack[0] == '>'
    && forall k | 0 <= k < |stack| :: IsCloser(stack[k], NESTING)
  }

  /** One operator of the backward search. */
  function StepBack(stack: seq<char>, c: char, at: int): (a: Action)
    requires AnchoredBack(stack)
    ensures a.Continue? ==> AnchoredBack(a.stack)
  {
    var top := stack[|stack| - 1];
    if !IsOperator(c) then Continue(stack)
    else if top == '>' then
      if IsClosing(c) then Continue(stack + [c])
      else if c == '<' then
        if |stack| == 1 then Stop(Closed(at)) else Continue(stack[..|stack| - 1])
      else if c == ',' then Stop(Comma(at))
      else Stop(Refused(at))
    else if IsClosing(c) then Continue(stack + [c])
    else if c == '(' || c == '[' then Continue(stack[..|stack| - 1])
    else Continue(stack)
  }

  /** The backward search over `t[..i]`, last character first. */
  function RunBack(t: string, i: nat, stack: seq<char>): (o: Outcome)
    requires i <= |t| && AnchoredBack(stack)
    ensures o.Exhausted? ==> AnchoredBack(o.stack)
  {
    if i == 0 then Exhausted(stack)
    else
      var a := StepBack(stack, t[i - 1], i - 1);
      if a.Stop? then a.outcome else RunBack(t, i - 1, a.stack)
  }

  /** The text read from right to left with every bracket turned around. */
  function MirrorReverse(t: string): string {
    seq(|t|, k requires 0 <= k < |t| => Mirror(t[|t| - 1 - k]))
  }

  function MirrorAll(stack: seq<char>): seq<char> {
    seq(|stack|, k requires 0 <= k < |stack| => Mirror(stack[k]))
  }

  /** The same outcome, with positions counted from the other end of a text of length `n`. */
  function Flip(o: Outcome, n: nat): Outcome {
    match o
    case Closed(at) => Closed(n - 1 - at)
    case Comma(at) => Comma(n - 1 - at)
    case Refused(at) => Refused(n - 1 - at)
    case Exhausted(stack) => Exhausted(MirrorAll(stack))
  }

  lemma MirrorAnchored(stack: seq<char>)
    requires AnchoredBack(stack)
    ensures Anchored(MirrorAll(stack))
  {
  }

  lemma StepMirrored(stack: seq<char>, c: char, at: int, n: nat)
    requires AnchoredBack(stack)
    ensures Anchored(MirrorAll(stack))
    ensures Step(MirrorAll(stack), Mirror(c), n - 1 - at) ==
            match StepBack(stack, c, at)
            case Continue(s) => Continue(MirrorAll(s))
            case Stop(o) => Stop(Flip(o, n))
  {
    var m := MirrorAll(stack);
    assert MirrorAll(stack + [c]) == m + [Mirror(c)];
    assert MirrorAll(stack[..|stack| - 1]) == m[..|m| - 1];
    assert m[|m| - 1] == Mirror(stack[|stack| - 1]);
  }

  /** The backward search is the forward search on the mirrored text. */
  lemma {:induction false} BackwardMirrorsForward(t: string, i: nat, stack: seq<char>)
    requires i <= |t| && AnchoredBack(stack)
    ensures Anchored(MirrorAll(stack))
    ensures Run(MirrorReverse(t), |t| - i, MirrorAll(stack)) == Flip(RunBack(t, i, stack), |t|)
    decreases i
  {
    MirrorAnchored(stack);
    if i > 0 {
      StepMirrored(stack, t[i - 1], i - 1, |t|);
      assert MirrorReverse(t)[|t| - i] == Mirror(t[i - 1]);
      var a := StepBack(stack, t[i - 1], i - 1);
      if a.Continue? {
        BackwardMirrorsForward(t, i - 1, a.stack);
      }
    }
  }

  /** The answer of the forward search for the text after the bracket. */
  predicate MayOpen(text: string) {
    !Run(text, 0, ['<']).Refused?
  }

  /** The answer of the backward search for the text before the bracket. */
  predicate MayClose(text: string) {
    var o := RunBack(text, |text|, ['>']);
    o.Closed? || o.Comma?
  }

  lemma WholeTextMirrored(text: string, mirrored: string)
    requires mirrored == MirrorReverse(text)
    ensures Run(mirrored, 0, ['<']) == Flip(RunBack(text, |text|, ['>']), |text|)
  {
    BackwardMirrorsForward(text, |text|, ['>']);
    assert MirrorAll(['>']) == ['<'];
  }

  /**
   The two answers agree on mirrored texts unless the search runs out of text, which it then does
   both ways: forwards it says yes, backwards no.
   */
  lemma AnswersAgree(text: string, mirrored: string)
    requires mirrored == MirrorReverse(text)
    ensures Run(mirrored, 0, ['<']).Exhausted? <==> RunBack(text, |text|, ['>']).Exhausted?
    ensures if Run(mirrored, 0, ['<']).Exhausted? then MayOpen(mirrored) && !MayClose(text)
            else MayOpen(mirrored) == MayClose(text)
  {
    WholeTextMirrored(text, mirrored);
  }

  lemma {:induction false} NoOperatorPassed(t: string, i: nat, j: nat, stack: seq<char>)
    requires i <= j <= |t| && Anchored(stack) && forall k | i <= k < j :: t[k] !in "<>(),;[]"
    ensures Run(t, i, stack) == Run(t, j, stack)
    decreases j - i
  {
    if i < j {
      NoOperatorPassed(t, i + 1, j, stack);
    }
  }

  /** Behind the bracket the first of the eight operators decides, unless it opens another bracket. */
  lemma FirstOperatorDecides(x: string, c: char, rest: string)
    requires forall k | 0 <= k < |x| :: x[k] !in "<>(),;[]"
    ensures var o := Run(x + [c] + rest, 0, ['<']);
            && (c == '>' ==> o == Closed(|x|)) && (c == ',' ==> o == Comma(|x|))
            && (c == ';' || c == ')' || c == ']' ==> o == Refused(|x|))
            && (c == '<' || c == '(' || c == '[' ==> o == Run(x + [c] + rest, |x| + 1, ['<', c]))
    ensures c == ';' || c == ')' || c == ']' ==> !MayOpen(x + [c] + rest)
    ensures MayOpen(x)
  {
    var t := x + [c] + rest;
    assert forall k | 0 <= k < |x| :: t[k] == x[k];
    NoOperatorPassed(t, 0, |x|, ['<']);
    NoOperatorPassed(x, 0, |x|, ['<']);
    assert t[|x|] == c && ['<'] + [c] == ['<', c];
  }

  /** Within round or square brackets only the next opening bracket or a closing one of either kind counts. */
  lemma {:induction false} ClosesRoundOrSquare(t: string, i: nat, j: nat, below: seq<char>, open: char)
    requires i <= j < |t| && (open == '(' || open == '[') && Anchored(below)
    requires (t[j] == ')' || t[j] == ']') && forall k | i <= k < j :: t[k] !in "<()[]"
    ensures Anchored(below + [open]) && Run(t, i, below + [open]) == Run(t, j + 1, below)
    decreases j - i
  {
    var stack := below + [open];
    assert stack[|stack| - 1] == open && stack[..|stack| - 1] == below;
    if i < j {
      assert Step(stack, t[i], i) == Continue(stack);
      ClosesRoundOrSquare(t, i + 1, j, below, open);
    } else {
      assert Step(stack, t[i], i) == Continue(below);
    }
  }

  // ---------------------------------------------------------------- the loops over lines

  /** Index of the first operator of the line, or its length. */
  function FirstOperator(line: string): (n: nat)
    ensures n <= |line| && forall k | 0 <= k < n :: !IsOperator(line[k])
    ensures n < |line| ==> IsOperator(line[n])
  {
    if line == "" || IsOperator(line[0]) then 0 else 1 + FirstOperator(line[1..])
  }

  /** Index just past the last operator of the line, or zero. */
  function LastOperator(line: string): (n: nat)
    ensures n <= |line| && forall k | n <= k < |line| :: !IsOperator(line[k])
    ensures n > 0 ==> IsOperator(line[n - 1])
  {
    if line == "" || IsOperator(line[|line| - 1]) then |line| else LastOperator(line[..|line| - 1])
  }

  /** Characters that are no operators leave the search where it was. */
  lemma {:induction false} RunSkips(t: string, i: nat, j: nat, stack: seq<char>)
    requires i <= j <= |t| && Anchored(stack) && forall k | i <= k < j :: !IsOperator(t[k])
    ensures Run(t, i, stack) == Run(t, j, stack)
    decreases j - i
  {
    if i < j {
      RunSkips(t, i + 1, j, stack);
    }
  }

  lemma {:induction false} RunBackSkips(t: string, i: nat, j: nat, stack: seq<char>)
    requires i <= j <= |t| && AnchoredBack(stack) && forall k | i <= k < j :: !IsOperator(t[k])
    ensures RunBack(t, i, stack) == RunBack(t, j, stack)
    decreases j - i
  {
    if i < j {
      RunBackSkips(t, i, j - 1, stack);
    }
  }

  /** Reading the rest of a line up to its next operator leaves the search where it was. */
  lemma ToNextOperator(t: string, i: nat, line: string, rest: string, stack: seq<char>)
    requires i <= |t| && t[i..] == line + rest && Anchored(stack)
    ensures var n := FirstOperator(line);
            && i + n <= |t| && Run(t, i, stack) == Run(t, i + n, stack)
            && (n == |line| ==> t[i + n..] == rest)
            && (n < |line| ==> i + n < |t| && t[i + n] == line[n] && t[i + n + 1..] == line[n + 1..] + rest)
  {
    var n := FirstOperator(line);
    forall k | i <= k < i + |line| ensures t[k] == line[k - i] {
      assert t[i..][k - i] == t[k];
    }
    RunSkips(t, i, i + n, stack);
    assert t[i + n..] == t[i..][n..] == line[n..] + rest;
  }

  /** The same for the backward search and the last operator of a line. */
  lemma ToLastOperator(t: string, i: nat, rest: string, line: string, stack: seq<char>)
    requires i <= |t| && t[..i] == rest + line && AnchoredBack(stack)
    ensures var n := LastOperator(line); var k := i - |line| + n;
            && 0 <= k && RunBack(t, i, stack) == RunBack(t, k, stack)
            && (n == 0 ==> t[..k] == rest)
            && (n > 0 ==> k > 0 && t[k - 1] == line[n - 1] && t[..k - 1] == rest + line[..n - 1])
  {
    var n, b := LastOperator(line), |rest|;
    assert i == b + |line|;
    forall k | b <= k < i ensures t[k] == line[k - b] {
      assert t[..i][k] == t[k];
    }
    RunBackSkips(t, b + n, i, stack);
    assert t[..b + n] == t[..i][..b + n] == rest + line[..n];
    if n > 0 {
      assert t[..b + n - 1] == t[..i][..b + n - 1] == rest + line[..n - 1];
    }
  }

  /** One operator in the loop: goes on with another stack, or ends with the answer. */
  method ReadOperator(stack: seq<char>, operator: char, ghost at: int)
    returns (next: seq<char>, done: bool, found: bool)
    requires Anchored(stack) && IsOperator(operator)
    ensures var a := Step(stack, operator, at);
            if done then a.Stop? && (found <==> !a.outcome.Refused?) else a == Continue(next)
  {
    if stack[|stack| - 1] == '<' {
      if IsOpening(operator) {
        return stack + [operator], false, false;
      } else if operator == '>' {
        next := stack[..|stack| - 1];
        return next, next == [], true;
      } else if operator == ',' {
        return stack, true, true;
      }
      return stack, true, false;
    } else if IsOpening(operator) {
      return stack + [operator], false, false;
    } else if operator == ')' || operator == ']' {
      return stack[..|stack| - 1], false, false;
    }
    return stack, false, false;
  }

  /** The same in the backward loop. */
  method ReadOperatorBack(stack: seq<char>, operator: char, ghost at: int)
    returns (next: seq<char>, done: bool, found: bool)
    requires AnchoredBack(stack) && IsOperator(operator)
    ensures var a := StepBack(stack, operator, at);
            if done then a.Stop? && (found <==> a.outcome.Closed? || a.outcome.Comma?) else a == Continue(next)
  {
    if stack[|stack| - 1] == '>' {
      if IsClosing(operator) {
        return stack + [operator], false, false;
      } else if operator == '<' {
        next := stack[..|stack| - 1];
        return next, next == [], true;
      } else if operator == ',' {
        return stack, true, true;
      }
      return stack, true, false;
    } else if IsClosing(operator) {
      return stack + [operator], false, false;
    } else if operator == '(' || operator == '[' {
      return stack[..|stack| - 1], false, false;
    }
    return stack, false, false;
  }

  /** Reads a line up to and including its next operator. */
  method AdvanceOperator(line: string, stack: seq<char>, ghost text: string, ghost pos: nat, ghost rest: string)
    returns (line': string, next: seq<char>, done: bool, found: bool, ghost pos': nat)
    requires pos <= |text| && text[pos..] == line + rest && Anchored(stack) && FirstOperator(line) < |line|
    ensures if done then (found <==> !Run(text, pos, stack).Refused?)
            else && Anchored(next) && pos' <= |text| && text[pos'..] == line' + rest
                 && Run(text, pos, stack) == Run(text, pos', next)
    ensures |line'| < |line|
  {
    var n := FirstOperator(line);
    ToNextOperator(text, pos, line, rest, stack);
    line', pos' := line[n + 1..], pos + n + 1;
    next, done, found := ReadOperator(stack, line[n], pos + n);
  }

  /** The same, backwards. */
  method AdvanceOperatorBack(line: string, stack: seq<char>, ghost text: string, ghost pos: nat, ghost rest: string)
    returns (line': string, next: seq<char>, done: bool, found: bool, ghost pos': nat)
    requires pos <= |text| && text[..pos] == rest + line && AnchoredBack(stack) && LastOperator(line) > 0
    ensures var o := RunBack(text, pos, stack);
            if done then (found <==> o.Closed? || o.Comma?)
            else AnchoredBack(next) && pos' <= |text| && text[..pos'] == rest + line' && o == RunBack(text, pos', next)
    ensures |line'| < |line|
  {
    var n := LastOperator(line);
    ToLastOperator(text, pos, rest, line, stack);
    line', pos' := line[..n - 1], pos - |line| + n - 1;
    next, done, found := ReadOperatorBack(stack, line[n - 1], pos');
  }

  /**
   Whether the '<' before `suffix` may open a template: false exactly when the search is
   refused, so also true when the text ends before a match is found.
   */
  method FindNextMatchingAngleBracket(lines: seq<string>, linenum: nat, suffix: string) returns (found: bool)
    requires linenum < |lines|
    ensures found <==> MayOpen(suffix + Flat(lines[linenum + 1..]))
  {
    var line, l, stack := suffix, linenum, ['<'];
    ghost var text, pos := suffix + Flat(lines[linenum + 1..]), 0;
    while true
      invariant linenum <= l < |lines| && 0 <= pos <= |text|
      invariant text[pos..] == line + Flat(lines[l + 1..])
      invariant Anchored(stack) && Run(text, 0, ['<']) == Run(text, pos, stack)
      decreases |lines| - l, |line|
    {
      if FirstOperator(line) < |line| {
        var done: bool;
        line, stack, done, found, pos := AdvanceOperator(line, stack, text, pos, Flat(lines[l + 1..]));
        if done {
          return;
        }
      } else {
        ToNextOperator(text, pos, line, Flat(lines[l + 1..]), stack);
        pos := pos + |line|;
        l := l + 1;
        if l >= |lines| {
          return true;
        }
        FlatFirst(lines[l..]);
        assert lines[l..][1..] == lines[l + 1..];
        line := lines[l];
      }
    }
  }

  /**
   Whether the '>' after `prefix` may close a template: true exactly when the backward search
   is matched or stopped by a comma, so false when the text ends before a match is found.
   */
  method FindPreviousMatchingAngleBracket(lines: seq<string>, linenum: nat, prefix: string) returns (found: bool)
    requires linenum < |lines|
    ensures found <==> MayClose(Flat(lines[..linenum]) + prefix)
  {
    var line, l, stack := prefix, linenum, ['>'];
    ghost var text := Flat(lines[..linenum]) + prefix;
    ghost var pos := |text|;
    while true
      invariant 0 <= l <= linenum && 0 <= pos <= |text|
      invariant text[..pos] == Flat(lines[..l]) + line
      invariant AnchoredBack(stack) && RunBack(text, |text|, ['>']) == RunBack(text, pos, stack)
      decreases l, |line|
    {
      if LastOperator(line) > 0 {
        var done: bool;
        line, stack, done, found, pos := AdvanceOperatorBack(line, stack, text, pos, Flat(lines[..l]));
        if done {
          return;
        }
      } else {
        ToLastOperator(text, pos, Flat(lines[..l]), line, stack);
        pos := pos - |line|;
        if l == 0 {
          return false;
        }
        l := l - 1;
        assert lines[..l + 1][..l] == lines[..l];
        line := lines[l];
      }
    }
  }
}
