/**
 Splitting the condition of a CHECK macro at its first comparison. The loop that reads whole
 operands at a time is compared with a lexer that reads one token or character at a time.
 */
module CheckCheck {
  import opened Wrappers
  import opened Brackets
  import opened TextLines
  import CloseExpression

  // ---------------------------------------------------------------- the lexer

  /** What starts at a place outside parentheses, and how long it is. */
  datatype Token =
    | Parenthesis             // an opening parenthesis
    | Logical                 // && or ||
    | Relational(len: nat)    // == != >= <= > <
    | Operator(len: nat)      // << >> ->* ->
    | Plain                   // any other character

  function CharAt(e: string, p: nat): char {
    if p < |e| then e[p] else '\0'
  }

  function TokenAt(e: string, p: nat): (t: Token)
    requires p < |e|
    ensures t.Relational? || t.Operator? ==> 0 < t.len && p + t.len <= |e|
    ensures t.Logical? ==> p + 2 <= |e|
  {
    var c, d := e[p], CharAt(e, p + 1);
    if c == '(' then Parenthesis
    else if (c == '<' && d == '<') || (c == '>' && d == '>') then Operator(2)
    else if c == '-' && d == '>' then Operator(if CharAt(e, p + 2) == '*' then 3 else 2)
    else if (c == '&' && d == '&') || (c == '|' && d == '|') then Logical
    else if (c == '=' || c == '!' || c == '<' || c == '>') && d == '=' then Relational(2)
    else if c == '<' || c == '>' then Relational(1)
    else Plain
  }

  /** Just past the parenthesis that closes the one at `p`, or the end of the text. */
  ghost function ParenEnd(e: string, p: nat): (n: nat)
    requires p < |e|
    ensures p < n <= |e|
    ensures forall k: nat :: CloseExpression.Matched(e, p, k, '(') ==> n == k + 1
  {
    if k: nat :| CloseExpression.Matched(e, p, k, '(') then
      (forall k' : nat | CloseExpression.Matched(e, p, k', '(') ensures k' == k {
         CloseExpression.NestedOrDisjoint(e, p, k, p, k', '(');
       }
       k + 1)
    else |e|
  }

  /** Where, from `p` on and outside parentheses, the first comparison or logical operator stands. */
  ghost function FirstStop(e: string, p: nat): (q: nat)
    requires p <= |e|
    ensures p <= q <= |e|
    ensures q < |e| ==> TokenAt(e, q).Relational? || TokenAt(e, q).Logical?
    decreases |e| - p
  {
    if p == |e| then p
    else match TokenAt(e, p)
      case Logical => p
      case Relational(_) => p
      case Parenthesis => FirstStop(e, ParenEnd(e, p))
      case Operator(n) => FirstStop(e, p + n)
      case Plain => FirstStop(e, p + 1)
  }

  // ---------------------------------------------------------------- what the lexer means

  // Stops in characters, without the lexer.

  predicate LogicAt(e: string, x: nat) {
    x + 1 < |e| && e[x] == e[x + 1] && (e[x] == '&' || e[x] == '|')
  }

  predicate EqualityAt(e: string, x: nat) {
    x + 1 < |e| && (e[x] == '=' || e[x] == '!') && e[x + 1] == '='
  }

  predicate Angle(c: char) {
    c == '<' || c == '>'
  }

  /** The angle bracket at `x` is the second character of a <<, >> or ->; a run of brackets is paired from its left. */
  predicate EndsOperator(e: string, x: nat)
    requires x < |e|
  {
    && x > 0
    && ((e[x] == '>' && e[x - 1] == '-') || (Angle(e[x]) && e[x - 1] == e[x] && !EndsOperator(e, x - 1)))
  }

  /** The angle bracket at `x` belongs to no <<, >> or ->. */
  predicate AngleStops(e: string, x: nat) {
    x < |e| && Angle(e[x]) && !EndsOperator(e, x) && !(x + 1 < |e| && e[x + 1] == e[x])
  }

  predicate StopsAt(e: string, x: nat) {
    LogicAt(e, x) || EqualityAt(e, x) || AngleStops(e, x)
  }

  /** `q` is the first place outside parentheses at which there is a stop, or the end of the text. */
  ghost predicate IsFirstStop(e: string, q: nat) {
    && q <= |e|
    && (q < |e| ==> Balance(e, 0, q, '(') == 0 && StopsAt(e, q))
    && forall x: nat | x < q :: Balance(e, 0, x, '(') == 0 ==> !StopsAt(e, x)
  }

  /** A token starts at `p`, not in the middle of an operator. */
  predicate AtToken(e: string, p: nat) {
    p < |e| && Angle(e[p]) ==> !EndsOperator(e, p)
  }

  lemma StopTokens(e: string, p: nat)
    requires p < |e| && AtToken(e, p)
    ensures TokenAt(e, p).Logical? <==> LogicAt(e, p)
    ensures TokenAt(e, p).Relational? <==> EqualityAt(e, p) || AngleStops(e, p)
    ensures TokenAt(e, p).Relational? ==> TokenAt(e, p).len == OperatorLength(e, p)
  {
  }

  function OperatorLength(e: string, q: nat): nat {
    if CharAt(e, q + 1) == '=' then 2 else 1
  }

  lemma AfterPlain(e: string, p: nat)
    requires p < |e| && TokenAt(e, p) == Plain
    ensures AtToken(e, p + 1)
  {
  }

  /** Nothing stops within an operator, and a token starts behind it. */
  lemma AfterOperator(e: string, p: nat, n: nat)
    requires p < |e| && AtToken(e, p) && TokenAt(e, p) == Operator(n)
    ensures AtToken(e, p + n) && forall x | p <= x < p + n :: !StopsAt(e, x)
    ensures Balance(e, 0, p + n, '(') == Balance(e, 0, p, '(')
  {
    NoParentheses(e, p, p + n);
    BalanceSplit(e, 0, p, p + n, '(');
    assert e[p] == '<' ==> EndsOperator(e, p + 1);
    assert e[p] == '>' ==> EndsOperator(e, p + 1);
    assert e[p] == '-' ==> EndsOperator(e, p + 1);
    assert !StopsAt(e, p) && !StopsAt(e, p + 1);
    if n == 3 {
      assert e[p + 2] == '*';
      assert !StopsAt(e, p + 2);
    }
  }

  /** In a balanced text a parenthesis at depth zero closes, and all between is deeper. */
  lemma ParenCloses(e: string, p: nat)
    requires Balanced(e, 0, |e|, '(') && p < |e| && e[p] == '(' && Balance(e, 0, p, '(') == 0
    ensures var n := ParenEnd(e, p);
            && e[n - 1] == ')' && Balance(e, 0, n, '(') == 0
            && forall x: nat | p < x < n :: Balance(e, 0, x, '(') > 0
  {
    forall x: nat | p <= x <= |e| ensures Balance(e, p, x, '(') == Balance(e, 0, x, '(') {
      BalanceSplit(e, 0, p, x, '(');
    }
    assert Balance(e, 0, p + 1, '(') == 1;
    var k := p + 1;
    while Balance(e, 0, k + 1, '(') != 0
      invariant p < k < |e|
      invariant forall m: nat | p < m <= k :: Balance(e, 0, m, '(') > 0
      decreases |e| - k
    {
      assert Balance(e, 0, k + 1, '(') >= 0 && k + 1 != |e|;
      k := k + 1;
    }
    assert Balance(e, 0, k + 1, '(') == Balance(e, 0, k, '(') + Weight(e[k], '(');
    assert CloseExpression.Matched(e, p, k, '(');
  }

  lemma {:induction false} FirstStopFrom(e: string, p: nat)
    requires Balanced(e, 0, |e|, '(') && p <= |e| && Balance(e, 0, p, '(') == 0 && AtToken(e, p)
    ensures var q := FirstStop(e, p);
            && (q < |e| ==> Balance(e, 0, q, '(') == 0 && AtToken(e, q) && StopsAt(e, q))
            && forall x: nat | p <= x < q :: Balance(e, 0, x, '(') == 0 ==> !StopsAt(e, x)
    decreases |e| - p
  {
    if p < |e| {
      StopTokens(e, p);
      match TokenAt(e, p)
      case Parenthesis =>
        ParenCloses(e, p);
        FirstStopFrom(e, ParenEnd(e, p));
      case Operator(n) =>
        AfterOperator(e, p, n);
        FirstStopFrom(e, p + n);
      case Plain =>
        AfterPlain(e, p);
        assert Balance(e, 0, p + 1, '(') == 0;
        FirstStopFrom(e, p + 1);
      case _ =>
    }
  }

  /** The lexer's first stop is the first stop in characters, and of the kind these spell. */
  lemma FirstStopExactly(e: string, q: nat)
    requires Balanced(e, 0, |e|, '(')
    ensures q == FirstStop(e, 0) <==> IsFirstStop(e, q)
    ensures q == FirstStop(e, 0) < |e| ==>
              && (TokenAt(e, q).Logical? <==> LogicAt(e, q))
              && (TokenAt(e, q).Relational? ==> TokenAt(e, q).len == OperatorLength(e, q))
  {
    FirstStopFrom(e, 0);
    var first := FirstStop(e, 0);
    if first < |e| {
      StopTokens(e, first);
    }
    assert IsFirstStop(e, q) ==> q >= first;
  }

  /** A <<, >> or -> is spelled at `y`. */
  predicate Spelled(e: string, y: nat) {
    y + 1 < |e| && ((e[y] == e[y + 1] && Angle(e[y])) || (e[y] == '-' && e[y + 1] == '>'))
  }

  /**
   Before the first stop and outside parentheses there is no && or ||, no == or !=, and every
   angle bracket is part of a <<, >> or ->.
   */
  predicate NoStopAt(e: string, x: nat)
    requires x < |e|
  {
    && !LogicAt(e, x) && !EqualityAt(e, x)
    && (Angle(e[x]) ==> Spelled(e, x) || (x > 0 && Spelled(e, x - 1)))
  }

  lemma {:induction false} NothingBeforeFirstStop(e: string, p: nat, x: nat)
    requires p <= |e| && p <= x < FirstStop(e, p)
    requires Balance(e, p, x, '(') == 0 && forall k: nat | p <= k <= x :: Balance(e, p, k, '(') >= 0
    ensures NoStopAt(e, x)
    decreases |e| - p
  {
    match TokenAt(e, p)
    case Parenthesis =>
      var n := ParenEnd(e, p);
      ParenthesisIsPassed(e, p, x);
      if x > p {
        BalanceSplit(e, p, n, x, '(');
        forall k: nat | n <= k <= x ensures Balance(e, n, k, '(') >= 0 {
          BalanceSplit(e, p, n, k, '(');
          assert Balance(e, p, k, '(') >= 0;
        }
        NothingBeforeFirstStop(e, n, x);
      }
    case Operator(n) =>
      if x < p + n {
      } else {
        Shorten(e, p, p + n, x);
        NothingBeforeFirstStop(e, p + n, x);
      }
    case Plain =>
      if x > p {
        assert Balance(e, p, p, '(') == 0 && Balance(e, p, p + 1, '(') >= 0;
        Shorten(e, p, p + 1, x);
        NothingBeforeFirstStop(e, p + 1, x);
      }
    case _ =>
  }

  /** Characters other than parentheses can be cut off the front. */
  lemma Shorten(e: string, p: nat, n: nat, x: nat)
    requires p <= n <= x <= |e| && forall k | p <= k < n :: e[k] != '(' && e[k] != ')'
    requires Balance(e, p, x, '(') == 0 && forall k: nat | p <= k <= x :: Balance(e, p, k, '(') >= 0
    ensures Balance(e, n, x, '(') == 0 && forall k: nat | n <= k <= x :: Balance(e, n, k, '(') >= 0
  {
    NoParentheses(e, p, n);
    forall k: nat | n <= k <= x ensures Balance(e, n, k, '(') == Balance(e, p, k, '(') {
      BalanceSplit(e, p, n, k, '(');
    }
    assert Balance(e, n, x, '(') == Balance(e, p, x, '(');
    forall k: nat | n <= k <= x ensures Balance(e, n, k, '(') >= 0 {
      assert Balance(e, p, k, '(') >= 0;
      assert Balance(e, n, k, '(') == Balance(e, p, k, '(');
    }
  }

  lemma {:induction false} NoParentheses(e: string, p: nat, n: nat)
    requires p <= n <= |e| && forall k | p <= k < n :: e[k] != '(' && e[k] != ')'
    ensures Balance(e, p, n, '(') == 0
    decreases n
  {
    if p < n {
      NoParentheses(e, p, n - 1);
    }
  }

  /** A place at depth zero beyond an opening parenthesis is beyond its match. */
  lemma ParenthesisIsPassed(e: string, p: nat, x: nat)
    requires p <= x < |e| && e[p] == '('
    requires Balance(e, p, x, '(') == 0
    ensures x > p ==> ParenEnd(e, p) <= x && Balance(e, p, ParenEnd(e, p), '(') == 0
  {
    if x > p {
      assert Balance(e, p, p, '(') == 0 && Balance(e, p, p + 1, '(') == 1;
      var k := p + 1;
      while Balance(e, p, k + 1, '(') != 0
        invariant p < k < x
        invariant forall m: nat | p < m <= k :: Balance(e, p, m, '(') > 0
        decreases x - k
      {
        k := k + 1;
      }
      assert CloseExpression.Matched(e, p, k, '(');
    }
  }

  // ---------------------------------------------------------------- the loop

  /** Characters that an operand without parentheses is made of. */
  predicate Ordinary(c: char) {
    c != '-' && c != '=' && c != '!' && c != '<' && c != '>' && c != '(' && c != ')' && c != '&' && c != '|'
  }

  function Squeeze(s: string): string {
    if s == "" then "" else Squeeze(s[..|s| - 1]) + (if IsSpace(s[|s| - 1]) then "" else [s[|s| - 1]])
  }

  /** Squeezing drops the spaces, character by character. */
  lemma SqueezeOne(c: char)
    ensures Squeeze([c]) == if IsSpace(c) then "" else [c]
  {
    assert [c][..0] == "";
  }

  lemma {:induction false} SqueezeJoin(a: string, b: string)
    ensures Squeeze(a + b) == Squeeze(a) + Squeeze(b)
    decreases |b|
  {
    if b == "" {
      assert a + b == a;
    } else {
      assert (a + b)[..|a + b| - 1] == a + b[..|b| - 1];
      SqueezeJoin(a, b[..|b| - 1]);
    }
  }

  /** The number of spaces the expression starts with. */
  function Spaces(e: string, p: nat): (n: nat)
    requires p <= |e|
    ensures p + n <= |e| && forall k | p <= k < p + n :: IsSpace(e[k])
    ensures p + n < |e| ==> !IsSpace(e[p + n])
    decreases |e| - p
  {
    if p < |e| && IsSpace(e[p]) then 1 + Spaces(e, p + 1) else 0
  }

  function Ordinaries(e: string, p: nat): (n: nat)
    requires p <= |e|
    ensures p + n <= |e| && forall k | p <= k < p + n :: Ordinary(e[k])
    ensures p + n < |e| ==> !Ordinary(e[p + n])
    decreases |e| - p
  {
    if p < |e| && Ordinary(e[p]) then 1 + Ordinaries(e, p + 1) else 0
  }

  /** Ordinary characters do not stop the lexer. */
  lemma {:induction false} OrdinaryPassed(e: string, p: nat, n: nat)
    requires p <= n <= |e| && forall k | p <= k < n :: Ordinary(e[k])
    ensures FirstStop(e, p) == FirstStop(e, n) && Balance(e, p, n, '(') == 0
    decreases n - p
  {
    if p < n {
      assert TokenAt(e, p) == Plain;
      OrdinaryPassed(e, p + 1, n);
      BalanceSplit(e, p, p + 1, n, '(');
      assert Balance(e, p, p, '(') == 0;
    }
  }

  /** What the loop has taken into the left side when it is about to read at `p`. */
  ghost predicate Taken(e: string, p: nat, lhs: string) {
    && p <= |e|
    && Balance(e, 0, p, '(') == 0
    && FirstStop(e, p) == FirstStop(e, 0)
    && Squeeze(lhs) == Squeeze(e[..p])
  }

  /** Taking a piece that the lexer passes over. */
  lemma TakePiece(e: string, p: nat, n: nat, lhs: string, piece: string)
    requires Taken(e, p, lhs) && p <= n <= |e|
    requires FirstStop(e, n) == FirstStop(e, p) && Balance(e, p, n, '(') == 0
    requires Squeeze(piece) == Squeeze(e[p..n])
    ensures Taken(e, n, lhs + piece)
  {
    BalanceSplit(e, 0, p, n, '(');
    SqueezeJoin(lhs, piece);
    SqueezeJoin(e[..p], e[p..n]);
    assert e[..p] + e[p..n] == e[..n];
  }

  lemma {:induction false} SpacesVanish(s: string)
    requires forall k | 0 <= k < |s| :: IsSpace(s[k])
    ensures Squeeze(s) == ""
    decreases |s|
  {
    if s != "" {
      SpacesVanish(s[..|s| - 1]);
    }
  }

  /** Skipping the spaces before a token. */
  lemma SkipSpaces(e: string, p: nat, q: nat, lhs: string)
    requires Taken(e, p, lhs) && q == p + Spaces(e, p)
    ensures Taken(e, q, lhs)
  {
    OrdinaryPassed(e, p, q);
    assert forall k | 0 <= k < q - p :: e[p..q][k] == e[p + k];
    SpacesVanish(e[p..q]);
    assert lhs + "" == lhs;
    TakePiece(e, p, q, lhs, "");
  }

  /** The parenthesis of a balanced text closes, and the lexer goes on behind it. */
  lemma ParenthesisTaken(e: string, q: nat, end: int)
    requires q < |e| && e[q] == '(' && Balance(e, 0, q, '(') == 0 && Balanced(e, 0, |e|, '(')
    requires end == -1 || q + 1 < end <= |e|
    requires end == -1 ==> CloseExpression.NeverZero(e, q + 1, |e|, 1, '(')
    requires end != -1 ==> CloseExpression.NeverZero(e, q + 1, end - 1, 1, '(') && 1 + Balance(e, q + 1, end, '(') == 0
    ensures end != -1 && FirstStop(e, end) == FirstStop(e, q) && Balance(e, q, end, '(') == 0
  {
    var n := if end == -1 then |e| else end - 1;
    assert Balance(e, q, q, '(') == 0 && Balance(e, q, q + 1, '(') == 1;
    forall k: nat | q + 1 < k <= n && e[k - 1] == ')' ensures Balance(e, q, k, '(') != 0 {
      BalanceSplit(e, q, q + 1, k, '(');
    }
    CloseExpression.StaysPositive(e, q, q + 1, n, '(');
    if end == -1 {
      BalanceSplit(e, 0, q, |e|, '(');
    } else {
      BalanceSplit(e, q, q + 1, end, '(');
      assert CloseExpression.Matched(e, q, end - 1, '(');
    }
  }

  lemma {:induction false} SqueezedEmpty(s: string)
    requires Squeeze(s) == ""
    ensures forall k | 0 <= k < |s| :: IsSpace(s[k])
    decreases |s|
  {
    if s != "" {
      SqueezedEmpty(s[..|s| - 1]);
    }
  }

  /** Only a character that stands alone can follow spaces taken on their own. */
  ghost predicate AfterSpaces(e: string, p: nat, lhs: string) {
    lhs != "" && Squeeze(lhs) == "" ==> p >= |e| || (!Ordinary(e[p]) && TokenAt(e, p) == Plain)
  }

  /** Taking a piece that starts with something other than a space. */
  lemma TakeSolid(e: string, p: nat, n: nat, lhs: string)
    requires Taken(e, p, lhs) && p < n <= |e| && !IsSpace(e[p])
    requires FirstStop(e, n) == FirstStop(e, p) && Balance(e, p, n, '(') == 0
    ensures Taken(e, n, lhs + e[p..n]) && AfterSpaces(e, n, lhs + e[p..n])
  {
    TakePiece(e, p, n, lhs, e[p..n]);
    SolidStays(lhs, e[p..n]);
  }

  /** What starts with something other than a space does not vanish. */
  lemma SolidStays(lhs: string, piece: string)
    requires piece != "" && !IsSpace(piece[0])
    ensures Squeeze(lhs + piece) != ""
  {
    assert (lhs + piece)[|lhs|] == piece[0];
    if Squeeze(lhs + piece) == "" {
      SqueezedEmpty(lhs + piece);
      assert false;
    }
  }

  lemma TakeOperator(e: string, p: nat, n: nat, lhs: string)
    requires p < |e| && Taken(e, p, lhs) && TokenAt(e, p) == Operator(n)
    ensures Taken(e, p + n, lhs + e[p..p + n]) && AfterSpaces(e, p + n, lhs + e[p..p + n])
  {
    NoParentheses(e, p, p + n);
    TakeSolid(e, p, p + n, lhs);
  }

  /** A single character that is no operand and no token. */
  lemma TakeSingle(e: string, p: nat, lhs: string)
    requires p < |e| && Taken(e, p, lhs) && Ordinaries(e, p) == 0 && Balanced(e, 0, |e|, '(')
    requires p + Spaces(e, p) < |e| ==> TokenAt(e, p + Spaces(e, p)) == Plain
    ensures Taken(e, p + 1, lhs + e[p..p + 1]) && AfterSpaces(e, p + 1, lhs + e[p..p + 1])
  {
    assert Balance(e, 0, p + 1, '(') >= 0;
    assert Balance(e, p, p, '(') == 0;
    TakeSolid(e, p, p + 1, lhs);
  }

  /** A run of operand characters; if it is only spaces, a character that stands alone follows. */
  lemma TakeOrdinaries(e: string, p: nat, q: nat, n: nat, lhs: string)
    requires Taken(e, p, lhs) && q == p + Spaces(e, p) && n == Ordinaries(e, p)
    requires q < |e| ==> TokenAt(e, q) == Plain
    ensures Taken(e, p + n, lhs + e[p..p + n]) && AfterSpaces(e, p + n, lhs + e[p..p + n])
  {
    OrdinaryPassed(e, p, p + n);
    TakePiece(e, p, p + n, lhs, e[p..p + n]);
    OrdinariesAfterSpaces(e, p, q, n, lhs, e[p..p + n]);
  }

  lemma OrdinariesAfterSpaces(e: string, p: nat, q: nat, n: nat, lhs: string, piece: string)
    requires p <= |e| && q == p + Spaces(e, p) && n == Ordinaries(e, p) && piece == e[p..p + n]
    requires q < |e| ==> TokenAt(e, q) == Plain
    ensures AfterSpaces(e, p + n, lhs + piece)
  {
    SqueezeJoin(lhs, piece);
    if Squeeze(piece) == "" {
      AllSpaces(e, p, q, n);
    }
  }

  /** A run of operand characters that are all spaces is the run of spaces. */
  lemma AllSpaces(e: string, p: nat, q: nat, n: nat)
    requires p <= |e| && q == p + Spaces(e, p) && n == Ordinaries(e, p)
    requires Squeeze(e[p..p + n]) == ""
    ensures p + n == q
  {
    SqueezedEmpty(e[p..p + n]);
    forall k | p <= k < p + n ensures IsSpace(e[k]) {
      assert e[p..p + n][k - p] == e[k];
    }
  }

  datatype Split = Split(lhs: string, operator: string, rhs: string)

  predicate HasLogic(s: string) {
    exists k | 0 <= k < |s| - 1 :: (s[k] == '&' && s[k + 1] == '&') || (s[k] == '|' && s[k + 1] == '|')
  }

  /** There is a logical operator exactly if the text can be cut into something, && or ||, and something. */
  lemma HasLogicExactly(s: string)
    ensures HasLogic(s) <==> exists a: string, b: string :: s == a + "&&" + b || s == a + "||" + b
  {
    if HasLogic(s) {
      var k :| 0 <= k < |s| - 1 && ((s[k] == '&' && s[k + 1] == '&') || (s[k] == '|' && s[k + 1] == '|'));
      assert s == s[..k] + [s[k], s[k + 1]] + s[k + 2..];
    }
    if a: string, b: string :| s == a + "&&" + b || s == a + "||" + b {
      assert s[|a|] == s[|a| + 1] && (s[|a|] == '&' || s[|a|] == '|');
    }
  }

  /** The stop at `q` is a comparison the check is about. */
  predicate Comparison(e: string, q: nat)
    requires q <= |e|
  {
    && q < |e| && !LogicAt(e, q)
    && Squeeze(e[..q]) != "" && q + OperatorLength(e, q) < |e|
    && !HasLogic(e[q + OperatorLength(e, q)..])
  }

  /** The split at `q`, its left side kept up to spaces. */
  predicate SplitAt(e: string, q: nat, s: Split) {
    && q + OperatorLength(e, q) <= |e|
    && s.operator == e[q..q + OperatorLength(e, q)] && s.rhs == e[q + OperatorLength(e, q)..]
    && s.operator in {"==", "!=", ">=", "<=", ">", "<"}
    && Squeeze(s.lhs) == Squeeze(e[..q])
  }

  ghost predicate Reading(e: string, p: nat, lhs: string) {
    Taken(e, p, lhs) && AfterSpaces(e, p, lhs) && Balanced(e, 0, |e|, '(')
  }

  /** At the first stop the left side has been read, and is empty exactly when only spaces stand there. */
  lemma AtStop(e: string, p: nat, q: nat, lhs: string)
    requires Reading(e, p, lhs) && q == p + Spaces(e, p)
    requires q < |e| ==> TokenAt(e, q).Relational? || TokenAt(e, q).Logical?
    ensures q == FirstStop(e, 0) && Balanced(e, 0, q, '(') && Squeeze(lhs) == Squeeze(e[..q])
    ensures q < |e| && TokenAt(e, q).Relational? ==> (lhs == "" <==> Squeeze(e[..q]) == "")
  {
    SkipSpaces(e, p, q, lhs);
  }

  /** Reads a parenthesized operand; the parenthesis is never unmatched. */
  method ReadParenthesis(e: string, q: nat, lhs: string) returns (n: nat, lhs': string)
    requires q < |e| && TokenAt(e, q) == Parenthesis && Taken(e, q, lhs) && Balanced(e, 0, |e|, '(')
    ensures q < n && Reading(e, n, lhs')
  {
    var end, depth := CloseExpression.FindEndOfExpressionInLine(e, q + 1, 1, '(');
    ParenthesisTaken(e, q, end);
    TakeSolid(e, q, end, lhs);
    return end, lhs + e[q..end];
  }

  /** Reads a shift or an arrow. */
  method ReadOperator(e: string, q: nat, lhs: string) returns (n: nat, lhs': string)
    requires q < |e| && TokenAt(e, q).Operator? && Taken(e, q, lhs) && Balanced(e, 0, |e|, '(')
    ensures q < n && Reading(e, n, lhs')
  {
    n := q + TokenAt(e, q).len;
    TakeOperator(e, q, n - q, lhs);
    lhs' := lhs + e[q..n];
  }

  /** Reads an operand without parentheses, several characters at once where possible. */
  method ReadPlain(e: string, p: nat, q: nat, lhs: string) returns (n: nat, lhs': string)
    requires p < |e| && Reading(e, p, lhs) && q == p + Spaces(e, p) && (q < |e| ==> TokenAt(e, q) == Plain)
    ensures p < n && Reading(e, n, lhs')
  {
    var m := Ordinaries(e, p);
    if m == 0 {
      TakeSingle(e, p, lhs);
      n, lhs' := p + 1, lhs + e[p..p + 1];
    } else {
      TakeOrdinaries(e, p, q, m, lhs);
      n, lhs' := p + m, lhs + e[p..p + m];
    }
  }

  /** Reads the next piece that is no stop, from `p`, with its first character that is no space at `q`. */
  method ReadOperand(e: string, p: nat, q: nat, lhs: string) returns (n: nat, lhs': string)
    requires p < |e| && Reading(e, p, lhs) && q == p + Spaces(e, p)
    requires q < |e| ==> !TokenAt(e, q).Relational? && !TokenAt(e, q).Logical?
    ensures p < n && Reading(e, n, lhs')
  {
    SkipSpaces(e, p, q, lhs);
    if q < |e| && TokenAt(e, q) == Parenthesis {
      n, lhs' := ReadParenthesis(e, q, lhs);
    } else if q < |e| && TokenAt(e, q).Operator? {
      n, lhs' := ReadOperator(e, q, lhs);
    } else {
      n, lhs' := ReadPlain(e, p, q, lhs);
    }
  }

  /** The operator at `q` has been reached. */
  method FinishSplit(e: string, p: nat, q: nat, lhs: string) returns (r: Option<Split>)
    requires Reading(e, p, lhs) && q == p + Spaces(e, p) && q < |e| && TokenAt(e, q).Relational?
    ensures SplitExactly(e, r)
  {
    AtStop(e, p, q, lhs);
    FirstStopExactly(e, q);
    OperatorSpelled(e, q);
    var n := q + TokenAt(e, q).len;
    var rhs := e[n..];
    if lhs == "" || rhs == "" || HasLogic(rhs) {
      r := None;
    } else {
      r := Some(Split(lhs, e[q..n], rhs));
    }
    assert SplitsAt(e, q, r);
  }

  /**
   A split is found exactly when the first stop outside parentheses is a comparison with something
   on both sides and no logical operator anywhere to the right, and it is the split at that place,
   before which the parentheses are balanced.
   */
  ghost predicate SplitExactly(e: string, r: Option<Split>) {
    exists q: nat :: IsFirstStop(e, q) && SplitsAt(e, q, r)
  }

  ghost predicate SplitsAt(e: string, q: nat, r: Option<Split>)
    requires q <= |e|
  {
    && (r.Some? <==> Comparison(e, q))
    && (r.Some? ==> SplitAt(e, q, r.value) && Balanced(e, 0, q, '('))
  }

  lemma OperatorSpelled(e: string, q: nat)
    requires q < |e| && (EqualityAt(e, q) || AngleStops(e, q))
    ensures q + OperatorLength(e, q) <= |e|
    ensures e[q..q + OperatorLength(e, q)] in {"==", "!=", ">=", "<=", ">", "<"}
  {
    if OperatorLength(e, q) == 2 {
      assert e[q..q + 2] == [e[q], '='];
    } else {
      assert e[q..q + 1] == [e[q]];
    }
  }

  /**
   Splits a balanced expression at its first comparison outside parentheses, reading whole
   operands at a time.
   */
  method SplitComparison(e: string) returns (r: Option<Split>)
    requires Balanced(e, 0, |e|, '(')
    ensures SplitExactly(e, r)
  {
    var lhs, p := "", 0;
    assert e[..0] == "";
    while p < |e|
      invariant Reading(e, p, lhs)
      decreases |e| - p
    {
      var q := p + Spaces(e, p);
      if q < |e| && TokenAt(e, q).Logical? {
        AtStop(e, p, q, lhs);
        FirstStopExactly(e, q);
        assert SplitsAt(e, q, None);
        return None;
      }
      if q < |e| && TokenAt(e, q).Relational? {
        AtStop(e, p, q, lhs);
        r := FinishSplit(e, p, q, lhs);
        return;
      }
      p, lhs := ReadOperand(e, p, q, lhs);
    }
    AtStop(e, p, p, lhs);
    FirstStopExactly(e, p);
    assert SplitsAt(e, p, None);
    return None;
  }

  // ---------------------------------------------------------------- the expression of a macro call

  /** The text between the parenthesis at `(l, p)` and the one that closes it just before `(m, e)`. */
  ghost function Argument(lines: seq<string>, l: nat, p: nat, m: nat, e: nat): (s: string)
    requires CloseExpression.Closes(lines, l, p, m, e)
  {
    Flat(lines)[Offset(lines, l) + p + 1..Offset(lines, m) + e - 1]
  }

  /** What stands between a parenthesis and its match is balanced. */
  lemma ArgumentIsBalanced(lines: seq<string>, l: nat, p: nat, m: nat, e: nat)
    requires CloseExpression.Closes(lines, l, p, m, e) && lines[l][p] == '('
    ensures Balanced(Argument(lines, l, p, m, e), 0, |Argument(lines, l, p, m, e)|, '(')
  {
    var t, i, j := Flat(lines), Offset(lines, l) + p, Offset(lines, m) + e - 1;
    var s := Argument(lines, l, p, m, e);
    CloseExpression.MatchedIsDyck(t, i, j, '(');
    DyckIsBalanced(t, i + 1, j, '(');
    forall k: nat | 0 <= k <= |s| ensures Balance(s, 0, k, '(') == Balance(t, i + 1, i + 1 + k, '(') {
      BalanceShift(s, t, i + 1, 0, k, '(');
    }
    forall k: nat | 0 <= k <= |s| ensures Balance(s, 0, k, '(') >= 0 {
      assert Balance(t, i + 1, i + 1 + k, '(') >= 0;
    }
  }

  lemma PieceOfPiece(t: string, a: nat, b: nat, p: nat, q: nat)
    requires a <= b <= |t| && p <= q <= b - a
    ensures t[a..b][p..q] == t[a + p..a + q]
  {
    forall k | 0 <= k < q - p ensures t[a..b][p..q][k] == t[a + p..a + q][k] {
    }
  }

  lemma PiecesJoin(t: string, a: nat, b: nat, c: nat)
    requires a <= b <= c <= |t|
    ensures t[a..b] + t[b..c] == t[a..c]
  {
  }

  lemma LinePiece(lines: seq<string>, t: string, l: nat, p: nat, q: nat)
    requires l < |lines| && p <= q <= |lines[l]| && t == Flat(lines)
    ensures Offset(lines, l) + |lines[l]| == Offset(lines, l + 1) <= |t|
    ensures lines[l][p..q] == t[Offset(lines, l) + p..Offset(lines, l) + q]
  {
    FlatLine(lines, l);
    PieceOfPiece(t, Offset(lines, l), Offset(lines, l + 1), p, q);
  }

  /** Joins the pieces of the expression, line by line. */
  method JoinExpression(lines: seq<string>, linenum: nat, startPos: nat, endLine: nat, endPos: nat) returns (s: string)
    requires CloseExpression.Closes(lines, linenum, startPos, endLine, endPos) && linenum <= endLine
    requires linenum == endLine ==> startPos < endPos - 1
    ensures s == Argument(lines, linenum, startPos, endLine, endPos)
  {
    ghost var t, a := Flat(lines), Offset(lines, linenum) + startPos + 1;
    var line := lines[linenum];
    if linenum == endLine {
      LinePiece(lines, t, linenum, startPos + 1, endPos - 1);
      return line[startPos + 1..endPos - 1];
    }
    LinePiece(lines, t, linenum, startPos + 1, |line|);
    s := line[startPos + 1..];
    assert s == line[startPos + 1..|line|];
    s := AppendLines(lines, t, a, linenum + 1, endLine, s);
    s := AppendLine(lines, t, a, endLine, endPos - 1, s);
  }

  /** Appends the lines between the first and the last one. */
  method AppendLines(lines: seq<string>, ghost t: string, ghost a: nat, begin: nat, end: nat, s: string)
    returns (s': string)
    requires begin <= end <= |lines| && t == Flat(lines)
    requires a <= Offset(lines, begin) <= |t| && s == t[a..Offset(lines, begin)]
    ensures a <= Offset(lines, end) <= |t| && s' == t[a..Offset(lines, end)]
  {
    s' := s;
    for i := begin to end
      invariant a <= Offset(lines, i) <= |t| && s' == t[a..Offset(lines, i)]
    {
      s' := AppendLine(lines, t, a, i, |lines[i]|, s');
    }
  }

  /** Appends the first `n` characters of line `i` to what has been joined so far. */
  method AppendLine(lines: seq<string>, ghost t: string, ghost a: nat, i: nat, n: nat, s: string) returns (s': string)
    requires i < |lines| && n <= |lines[i]| && t == Flat(lines)
    requires a <= Offset(lines, i) <= |t| && s == t[a..Offset(lines, i)]
    ensures Offset(lines, i) + n <= |t| && s' == t[a..Offset(lines, i) + n]
    ensures Offset(lines, i) + |lines[i]| == Offset(lines, i + 1)
  {
    LinePiece(lines, t, i, 0, n);
    PiecesJoin(t, a, Offset(lines, i), Offset(lines, i) + n);
    return s + lines[i][..n];
  }

  /**
   Reads the argument of the macro call whose parenthesis stands at `(linenum, startPos)` and
   splits it: the answer is a split exactly when the parenthesis closes and the first stop of
   the argument is a comparison the check is about.
   */
  method CheckCheck(lines: seq<string>, linenum: nat, startPos: nat) returns (r: Option<Split>)
    requires ValidPos(lines, linenum, startPos) && lines[linenum][startPos] == '('
    ensures forall m: nat, e: nat | CloseExpression.Closes(lines, linenum, startPos, m, e) ::
              SplitExactly(Argument(lines, linenum, startPos, m, e), r)
    ensures (forall m: nat, e: nat :: !CloseExpression.Closes(lines, linenum, startPos, m, e)) ==> r.None?
  {
    var lastLine, endLine, endPos := CloseExpression.CloseExpression(lines, linenum, startPos);
    if endPos < 0 {
      return None;
    }
    var s := JoinExpression(lines, linenum, startPos, endLine, endPos);
    ArgumentIsBalanced(lines, linenum, startPos, endLine, endPos);
    r := SplitComparison(s);
  }
}
