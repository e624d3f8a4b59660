/**
 Forward and backward matching of one bracket over an array of lines, and the
 correspondence between the two.
 */
module CloseExpression {
  import opened Brackets
  import opened TextLines

  // ---------------------------------------------------------------- matching

  /** Every proper prefix of `t[i..e]` leaves a bracket open. */
  ghost predicate PrefixesOpen(t: string, i: nat, e: nat, open: Opener)
    requires e <= |t|
  {
    forall k: nat | i < k < e :: Balance(t, i, k, open) > 0
  }

  /** Every proper suffix of `t[i..e]` has a closer too many. */
  ghost predicate SuffixesOpen(t: string, i: nat, e: nat, open: Opener)
    requires e <= |t|
  {
    forall k: nat | i < k < e :: Balance(t, k, e, open) < 0
  }

  /** From the opener at `i` the running balance first returns to zero just after `j`. */
  ghost predicate Matched(t: string, i: nat, j: nat, open: Opener) {
    i < j < |t| && t[i] == open && Balance(t, i, j + 1, open) == 0 && PrefixesOpen(t, i, j + 1, open)
  }

  /** Going left from the closer at `j` the running balance first returns to zero at `i`. */
  ghost predicate MatchedBack(t: string, i: nat, j: nat, open: Opener) {
    i < j < |t| && t[j] == Mirror(open) && Balance(t, i, j + 1, open) == 0 && SuffixesOpen(t, i, j + 1, open)
  }

  lemma MatchedBothWays(t: string, i: nat, j: nat, open: Opener)
    ensures Matched(t, i, j, open) <==> MatchedBack(t, i, j, open)
  {
    if i < j < |t| && Balance(t, i, j + 1, open) == 0 {
      var e := j + 1;
      forall k: nat | i < k < e
        ensures Balance(t, i, k, open) == -Balance(t, k, e, open)
      {
        BalanceSplit(t, i, k, e, open);
      }
      assert Balance(t, i, i, open) == 0 && Balance(t, i, i + 1, open) == Weight(t[i], open);
      assert Balance(t, j, j, open) == 0 && Balance(t, j, e, open) == Weight(t[j], open);
      if Matched(t, i, j, open) {
        forall k: nat | i < k < e ensures Balance(t, k, e, open) < 0 {
          assert Balance(t, i, k, open) > 0;
        }
        assert Balance(t, i, j, open) > 0;
      }
      if MatchedBack(t, i, j, open) {
        forall k: nat | i < k < e ensures Balance(t, i, k, open) > 0 {
          assert Balance(t, k, e, open) < 0;
        }
        assert Balance(t, i + 1, e, open) < 0;
      }
    }
  }

  /** The match of a bracket is the closer that follows the well-nested text after it. */
  lemma MatchedIsDyck(t: string, i: nat, j: nat, open: Opener)
    ensures Matched(t, i, j, open) <==>
            i < j < |t| && t[i] == open && t[j] == Mirror(open) && Dyck(t, i + 1, j, {open})
  {
    if i < j < |t| && t[i] == open {
      DyckIsBalanced(t, i + 1, j, open);
      assert Balance(t, i, i, open) == 0;
      forall k: nat | i < k <= j ensures Balance(t, i, k, open) == 1 + Balance(t, i + 1, k, open) {
        BalanceSplit(t, i, i + 1, k, open);
      }
      if Matched(t, i, j, open) {
        MatchedBothWays(t, i, j, open);
      }
    }
  }

  /** Matched spans of one bracket kind never overlap partially. */
  lemma NestedOrDisjoint(t: string, i: nat, j: nat, i': nat, j': nat, open: Opener)
    requires Matched(t, i, j, open) && Matched(t, i', j', open)
    ensures i == i' <==> j == j'
    ensures i < i' <= j ==> j' < j
  {
    MatchedBothWays(t, i, j, open);
    MatchedBothWays(t, i', j', open);
    if i < i' <= j {
      BalanceSplit(t, i, i', j + 1, open);
    }
  }

  // ---------------------------------------------------------------- positions on lines

  /** The bracket at `(l, p)` is closed just before column `e` of line `m`. */
  ghost predicate Closes(lines: seq<string>, l: nat, p: nat, m: nat, e: int) {
    && ValidPos(lines, l, p)
    && ValidPos(lines, m, e - 1)
    && lines[l][p] in OPENERS
    && Matched(Flat(lines), Offset(lines, l) + p, Offset(lines, m) + e - 1, lines[l][p])
  }

  /** The bracket at `(m, q)` is opened at column `p` of line `l`. */
  ghost predicate Opens(lines: seq<string>, m: nat, q: nat, l: nat, p: int) {
    && ValidPos(lines, m, q)
    && ValidPos(lines, l, p)
    && IsCloser(lines[m][q], OPENERS)
    && MatchedBack(Flat(lines), Offset(lines, l) + p, Offset(lines, m) + q, Mirror(lines[m][q]))
  }

  const OPENERS: set<Opener> := {'(', '{', '[', '<'}

  /** Forward and backward matching are inverse, for every kind and every array of lines. */
  lemma CloseInvertsReverse(lines: seq<string>, l: nat, p: nat, m: nat, e: int)
    requires e >= 1
    ensures Closes(lines, l, p, m, e) <==> Opens(lines, m, e - 1, l, p)
  {
    if ValidPos(lines, l, p) && ValidPos(lines, m, e - 1) {
      CharAt(lines, l, p);
      CharAt(lines, m, e - 1);
      var t, i, j := Flat(lines), Offset(lines, l) + p, Offset(lines, m) + e - 1;
      if Closes(lines, l, p, m, e) {
        MatchedBothWays(t, i, j, lines[l][p]);
        assert Mirror(Mirror(lines[l][p])) == lines[l][p];
      }
      if Opens(lines, m, e - 1, l, p) {
        MatchedBothWays(t, i, j, Mirror(lines[m][e - 1]));
      }
    }
  }

  /** A bracket of one of the four kinds and the one that closes it. */
  predicate Pair(open: char, close: char) {
    || (open == '(' && close == ')') || (open == '[' && close == ']')
    || (open == '{' && close == '}') || (open == '<' && close == '>')
  }

  lemma {:induction false} PlainIsDyck(t: string, i: nat, j: nat, kinds: set<Opener>)
    requires i <= j <= |t| && forall k | i <= k < j :: t[k] !in kinds && !IsCloser(t[k], kinds)
    ensures Dyck(t, i, j, kinds)
    decreases j - i
  {
    if i < j {
      PlainIsDyck(t, i + 1, j, kinds);
    }
  }

  lemma PairMatched(t: string, i: nat, j: nat, open: char, close: char)
    requires Pair(open, close) && i < j < |t| && t[i] == open && t[j] == close
    requires forall k | i + 1 <= k < j :: t[k] != open && t[k] != close
    ensures Matched(t, i, j, open)
  {
    var kinds: set<Opener> := {open};
    assert forall c: char :: c !in kinds && !IsCloser(c, kinds) <==> c != open && c != close;
    PlainIsDyck(t, i + 1, j, kinds);
    MatchedIsDyck(t, i, j, open);
  }

  /** All four kinds, on a line: a bracket and the first closing one, with no bracket of the kind between them. */
  lemma PairCloses(lines: seq<string>, l: nat, p: nat, q: nat)
    requires l < |lines| && p < q < |lines[l]| && Pair(lines[l][p], lines[l][q])
    requires forall k | p < k < q :: lines[l][k] != lines[l][p] && lines[l][k] != lines[l][q]
    ensures Closes(lines, l, p, l, q + 1) && Opens(lines, l, q, l, p)
  {
    var t, off := Flat(lines), Offset(lines, l);
    CharAt(lines, l, p);
    CharAt(lines, l, q);
    forall k | off + p + 1 <= k < off + q ensures t[k] != lines[l][p] && t[k] != lines[l][q] {
      CharAt(lines, l, k - off);
    }
    PairMatched(t, off + p, off + q, lines[l][p], lines[l][q]);
    CloseInvertsReverse(lines, l, p, l, q + 1);
  }

  // ---------------------------------------------------------------- the loops

  /** No closer in columns `start` to `upto` brings the depth to zero. */
  ghost predicate NeverZero(line: string, start: nat, upto: nat, depth: int, open: Opener)
    requires start <= upto <= |line|
  {
    forall k: nat | start < k <= upto && line[k - 1] == Mirror(open) :: depth + Balance(line, start, k, open) != 0
  }

  /** Scans one line for the closer that brings the depth to zero. */
  method FindEndOfExpressionInLine(line: string, startpos: nat, depth: int, open: Opener)
    returns (end: int, newDepth: int)
    requires startpos <= |line|
    ensures end == -1 || startpos < end <= |line|
    ensures end == -1 ==> newDepth == depth + Balance(line, startpos, |line|, open)
    ensures end == -1 ==> NeverZero(line, startpos, |line|, depth, open)
    ensures end != -1 ==> newDepth == 0 && line[end - 1] == Mirror(open)
    ensures end != -1 ==> depth + Balance(line, startpos, end, open) == 0
    ensures end != -1 ==> NeverZero(line, startpos, end - 1, depth, open)
  {
    newDepth := depth;
    for i := startpos to |line|
      invariant newDepth == depth + Balance(line, startpos, i, open)
      invariant NeverZero(line, startpos, i, depth, open)
    {
      if line[i] == open {
        newDepth := newDepth + 1;
      } else if line[i] == Mirror(open) {
        newDepth := newDepth - 1;
        if newDepth == 0 {
          return i + 1, 0;
        }
      }
    }
    return -1, newDepth;
  }

  /** No opener in columns `upto` to `stop` brings the depth, counted leftwards, to zero. */
  ghost predicate NeverZeroBack(line: string, upto: nat, stop: nat, depth: int, open: Opener)
    requires upto <= stop <= |line|
  {
    forall k: nat | upto <= k < stop && line[k] == open :: depth != Balance(line, k, stop, open)
  }

  /** Scans one line from right to left for the opener that brings the depth to zero. */
  method FindStartOfExpressionInLine(line: string, endpos: int, depth: int, open: Opener)
    returns (start: int, newDepth: int)
    requires -1 <= endpos < |line|
    ensures -1 <= start <= endpos
    ensures start == -1 ==> newDepth == depth - Balance(line, 0, endpos + 1, open)
    ensures start == -1 ==> NeverZeroBack(line, 0, endpos + 1, depth, open)
    ensures start != -1 ==> newDepth == 0 && line[start] == open
    ensures start != -1 ==> depth == Balance(line, start, endpos + 1, open)
    ensures start != -1 ==> NeverZeroBack(line, start + 1, endpos + 1, depth, open)
  {
    newDepth := depth;
    for i := endpos + 1 downto 0
      invariant newDepth == depth - Balance(line, i, endpos + 1, open)
      invariant NeverZeroBack(line, i, endpos + 1, depth, open)
    {
      BalanceSplit(line, i, i + 1, endpos + 1, open);
      assert Balance(line, i, i, open) == 0;
      if line[i] == Mirror(open) {
        newDepth := newDepth + 1;
      } else if line[i] == open {
        newDepth := newDepth - 1;
        if newDepth == 0 {
          return i, 0;
        }
      }
    }
    return -1, newDepth;
  }

  /** Where the text of column `q` of line `l` sits in the flattened text. */
  lemma LineShift(lines: seq<string>, l: nat, p: nat, q: nat, open: Opener)
    requires l < |lines| && p <= q <= |lines[l]|
    ensures Offset(lines, l) + q <= |Flat(lines)|
    ensures Balance(lines[l], p, q, open) == Balance(Flat(lines), Offset(lines, l) + p, Offset(lines, l) + q, open)
  {
    FlatLine(lines, l);
    BalanceShift(lines[l], Flat(lines), Offset(lines, l), p, q, open);
  }

  /** Going down in steps of one, the balance cannot skip zero. */
  lemma {:induction false} StaysPositive(t: string, i: nat, b: nat, n: nat, open: Opener)
    requires i < b <= n <= |t|
    requires Balance(t, i, b, open) > 0
    requires forall k: nat | b < k <= n && t[k - 1] == Mirror(open) :: Balance(t, i, k, open) != 0
    ensures forall k: nat | b <= k <= n :: Balance(t, i, k, open) > 0
    decreases n
  {
    if b < n {
      StaysPositive(t, i, b, n - 1, open);
      assert Balance(t, i, n - 1, open) > 0;
    }
  }

  /** The forward scan from `(ln, pos)` is about to read line `l` at column `start` with this depth. */
  ghost predicate Scanning(lines: seq<string>, ln: nat, pos: nat, l: nat, start: nat, depth: int, open: Opener)
    requires ValidPos(lines, ln, pos)
  {
    var t, i := Flat(lines), Offset(lines, ln) + pos;
    && i < |t| && t[i] == open
    && l <= |lines|
    && (l < |lines| ==> start <= |lines[l]|)
    && i <= Offset(lines, l) + start <= |t|
    && depth == Balance(t, i, Offset(lines, l) + start, open)
    && PrefixesOpen(t, i, Offset(lines, l) + start, open)
    && (depth > 0 || i == Offset(lines, l) + start)
  }

  /** Reading on to column `upto` without reaching depth zero keeps every prefix open. */
  lemma ScanTo(lines: seq<string>, ln: nat, pos: nat, l: nat, start: nat, upto: nat, depth: int, open: Opener)
    requires ValidPos(lines, ln, pos) && l < |lines| && start <= upto <= |lines[l]|
    requires Scanning(lines, ln, pos, l, start, depth, open)
    requires NeverZero(lines[l], start, upto, depth, open)
    ensures Scanning(lines, ln, pos, l, upto, depth + Balance(lines[l], start, upto, open), open)
  {
    var t, i, off := Flat(lines), Offset(lines, ln) + pos, Offset(lines, l);
    FlatLine(lines, l);
    LineShift(lines, l, start, upto, open);
    BalanceSplit(t, i, off + start, off + upto, open);
    if start < upto {
      assert Balance(t, i, i, open) == 0 && Balance(t, i, i + 1, open) == 1;
      var b := if depth > 0 then off + start else i + 1;
      forall k: nat | b < k <= off + upto && t[k - 1] == Mirror(open)
        ensures Balance(t, i, k, open) != 0
      {
        BalanceSplit(t, i, off + start, k, open);
        LineShift(lines, l, start, k - off, open);
        CharAt(lines, l, k - 1 - off);
      }
      StaysPositive(t, i, b, off + upto, open);
    }
  }

  /** The scan moves to the start of the next line. */
  lemma ScanNextLine(lines: seq<string>, ln: nat, pos: nat, l: nat, depth: int, open: Opener)
    requires ValidPos(lines, ln, pos) && l < |lines|
    requires Scanning(lines, ln, pos, l, |lines[l]|, depth, open)
    ensures Scanning(lines, ln, pos, l + 1, 0, depth, open)
  {
    FlatLine(lines, l);
  }

  /** A closer that brings the depth of the scan to zero closes the bracket. */
  lemma ScanFound(lines: seq<string>, ln: nat, pos: nat, l: nat, start: nat, end: nat, depth: int, open: Opener)
    requires ValidPos(lines, ln, pos) && l < |lines| && start < end <= |lines[l]|
    requires open == lines[ln][pos] && open in OPENERS
    requires Scanning(lines, ln, pos, l, start, depth, open)
    requires NeverZero(lines[l], start, end - 1, depth, open)
    requires lines[l][end - 1] == Mirror(open) && depth + Balance(lines[l], start, end, open) == 0
    ensures Closes(lines, ln, pos, l, end)
    ensures ln == l ==> pos < end - 1
  {
    ScanTo(lines, ln, pos, l, start, end - 1, depth, open);
    CharAt(lines, l, end - 1);
  }

  /** A scan that has read everything has shown that nothing closes the bracket. */
  lemma ScanExhausted(lines: seq<string>, ln: nat, pos: nat, depth: int, open: Opener)
    requires ValidPos(lines, ln, pos) && open == lines[ln][pos]
    requires Scanning(lines, ln, pos, |lines|, 0, depth, open)
    ensures forall m: nat, e: int :: !Closes(lines, ln, pos, m, e)
  {
    var t, i := Flat(lines), Offset(lines, ln) + pos;
    assert lines[..|lines|] == lines;
    forall m: nat, e: int | ValidPos(lines, m, e - 1) ensures !Closes(lines, ln, pos, m, e) {
      CharAt(lines, m, e - 1);
      assert Balance(t, i, i, open) == 0 && Balance(t, i, i + 1, open) == 1;
    }
  }

  /** A closer found at the end of an open prefix is the only closer of the bracket. */
  lemma ClosesExactly(lines: seq<string>, l: nat, p: nat, m: nat, e: int)
    requires Closes(lines, l, p, m, e)
    ensures forall m': nat, e': int :: Closes(lines, l, p, m', e') <==> m' == m && e' == e
  {
    forall m': nat, e': int | Closes(lines, l, p, m', e') ensures m' == m && e' == e {
      NestedOrDisjoint(Flat(lines), Offset(lines, l) + p, Offset(lines, m) + e - 1,
                       Offset(lines, l) + p, Offset(lines, m') + e' - 1, lines[l][p]);
      PositionUnique(lines, m, e - 1, m', e' - 1);
    }
  }

  /**
   Finds the position just past the bracket that closes the one at `(linenum, pos)`:
   it reports `(m, e)` exactly when the running balance of that bracket kind over the
   flattened text first returns to zero there, and -1 exactly when it never does.
   */
  method CloseExpression(lines: seq<string>, linenum: nat, pos: nat)
    returns (line: string, endLine: nat, endPos: int)
    requires ValidPos(lines, linenum, pos)
    ensures forall m: nat, e: int :: Closes(lines, linenum, pos, m, e) <==> endPos != -1 && m == endLine && e == endPos
    ensures endPos == -1 ==> endLine == |lines|
    ensures endPos != -1 ==> endLine < |lines| && linenum <= endLine && line == lines[endLine]
    ensures endPos != -1 && linenum == endLine ==> pos < endPos - 1
  {
    line := lines[linenum];
    if line[pos] !in OPENERS {
      return line, |lines|, -1;
    }
    var open: Opener := line[pos];
    var depth: int;
    CharAt(lines, linenum, pos);
    endPos, depth := FindEndOfExpressionInLine(line, pos, 0, open);
    if endPos != -1 {
      ScanFound(lines, linenum, pos, linenum, pos, endPos, 0, open);
      ClosesExactly(lines, linenum, pos, linenum, endPos);
      return line, linenum, endPos;
    }
    ScanTo(lines, linenum, pos, linenum, pos, |line|, 0, open);
    ScanNextLine(lines, linenum, pos, linenum, depth, open);

    var l := linenum;
    while l < |lines| - 1
      invariant linenum <= l < |lines|
      invariant Scanning(lines, linenum, pos, l + 1, 0, depth, open)
    {
      l := l + 1;
      line := lines[l];
      ghost var before := depth;
      endPos, depth := FindEndOfExpressionInLine(line, 0, depth, open);
      if endPos != -1 {
        ScanFound(lines, linenum, pos, l, 0, endPos, before, open);
        ClosesExactly(lines, linenum, pos, l, endPos);
        return line, l, endPos;
      }
      ScanTo(lines, linenum, pos, l, 0, |line|, before, open);
      ScanNextLine(lines, linenum, pos, l, depth, open);
    }
    ScanExhausted(lines, linenum, pos, depth, open);
    return line, |lines|, -1;
  }

  // ---------------------------------------------------------------- the same, backwards

  lemma {:induction false} StaysNegative(t: string, n: nat, b: nat, e: nat, open: Opener)
    requires n <= b < e <= |t|
    requires Balance(t, b, e, open) < 0
    requires forall k: nat | n <= k < b && t[k] == open :: Balance(t, k, e, open) != 0
    ensures forall k: nat | n <= k <= b :: Balance(t, k, e, open) < 0
    decreases b - n
  {
    if n < b {
      StaysNegative(t, n + 1, b, e, open);
      assert Balance(t, n + 1, e, open) < 0;
      BalanceSplit(t, n, n + 1, e, open);
      assert Balance(t, n, n, open) == 0;
    }
  }

  /** The backward scan from `(ln, pos)` has read line `l` down to column `stop` and has this depth. */
  ghost predicate ScanningBack(lines: seq<string>, ln: nat, pos: nat, l: nat, stop: nat, depth: int, open: Opener)
    requires ValidPos(lines, ln, pos)
  {
    var t, e := Flat(lines), Offset(lines, ln) + pos + 1;
    && e <= |t| && t[e - 1] == Mirror(open)
    && l < |lines| && stop <= |lines[l]|
    && Offset(lines, l) + stop <= e
    && depth == -Balance(t, Offset(lines, l) + stop, e, open)
    && SuffixesOpen(t, Offset(lines, l) + stop, e, open)
    && (depth > 0 || e == Offset(lines, l) + stop)
  }

  lemma ScanBackTo(lines: seq<string>, ln: nat, pos: nat, l: nat, upto: nat, stop: nat, depth: int, open: Opener)
    requires ValidPos(lines, ln, pos) && l < |lines| && upto <= stop <= |lines[l]|
    requires ScanningBack(lines, ln, pos, l, stop, depth, open)
    requires NeverZeroBack(lines[l], upto, stop, depth, open)
    ensures ScanningBack(lines, ln, pos, l, upto, depth - Balance(lines[l], upto, stop, open), open)
  {
    var t, e, off := Flat(lines), Offset(lines, ln) + pos + 1, Offset(lines, l);
    FlatLine(lines, l);
    LineShift(lines, l, upto, stop, open);
    BalanceSplit(t, off + upto, off + stop, e, open);
    if upto < stop {
      assert Balance(t, e - 1, e - 1, open) == 0 && Balance(t, e - 1, e, open) == -1;
      var b := if depth > 0 then off + stop else e - 1;
      forall k: nat | off + upto <= k < b && t[k] == open
        ensures Balance(t, k, e, open) != 0
      {
        BalanceSplit(t, k, off + stop, e, open);
        LineShift(lines, l, k - off, stop, open);
        CharAt(lines, l, k - off);
      }
      StaysNegative(t, off + upto, b, e, open);
    }
  }

  lemma ScanPreviousLine(lines: seq<string>, ln: nat, pos: nat, l: nat, depth: int, open: Opener)
    requires ValidPos(lines, ln, pos) && 0 < l < |lines|
    requires ScanningBack(lines, ln, pos, l, 0, depth, open)
    ensures ScanningBack(lines, ln, pos, l - 1, |lines[l - 1]|, depth, open)
  {
    FlatLine(lines, l - 1);
  }

  lemma ScanBackFound(lines: seq<string>, ln: nat, pos: nat, l: nat, start: nat, stop: nat, depth: int, open: Opener)
    requires ValidPos(lines, ln, pos) && l < |lines| && start < stop <= |lines[l]|
    requires open == Mirror(lines[ln][pos]) && open in OPENERS
    requires ScanningBack(lines, ln, pos, l, stop, depth, open)
    requires NeverZeroBack(lines[l], start + 1, stop, depth, open)
    requires lines[l][start] == open && depth == Balance(lines[l], start, stop, open)
    ensures Opens(lines, ln, pos, l, start)
  {
    ScanBackTo(lines, ln, pos, l, start + 1, stop, depth, open);
    CharAt(lines, l, start);
    BalanceSplit(lines[l], start, start + 1, stop, open);
    assert Balance(lines[l], start, start, open) == 0;
    var t, e, i := Flat(lines), Offset(lines, ln) + pos + 1, Offset(lines, l) + start;
    BalanceSplit(t, i, i + 1, e, open);
    assert Balance(t, i, i, open) == 0;
  }

  lemma ScanBackExhausted(lines: seq<string>, ln: nat, pos: nat, depth: int, open: Opener)
    requires ValidPos(lines, ln, pos) && open == Mirror(lines[ln][pos])
    requires ScanningBack(lines, ln, pos, 0, 0, depth, open)
    ensures forall m: nat, p: int :: !Opens(lines, ln, pos, m, p)
  {
    var t, e := Flat(lines), Offset(lines, ln) + pos + 1;
    forall m: nat, p: int | ValidPos(lines, m, p) ensures !Opens(lines, ln, pos, m, p) {
      CharAt(lines, m, p);
    }
  }

  lemma OpensExactly(lines: seq<string>, ln: nat, pos: nat, m: nat, p: int)
    requires Opens(lines, ln, pos, m, p)
    ensures forall m': nat, p': int :: Opens(lines, ln, pos, m', p') <==> m' == m && p' == p
  {
    var t, j, open := Flat(lines), Offset(lines, ln) + pos, Mirror(lines[ln][pos]);
    forall m': nat, p': int | Opens(lines, ln, pos, m', p') ensures m' == m && p' == p {
      MatchedBothWays(t, Offset(lines, m) + p, j, open);
      MatchedBothWays(t, Offset(lines, m') + p', j, open);
      NestedOrDisjoint(t, Offset(lines, m) + p, j, Offset(lines, m') + p', j, open);
      PositionUnique(lines, m, p, m', p');
    }
  }

  /**
   Finds the bracket that opens the one at `(linenum, pos)`: it reports `(m, p)` exactly
   when the balance, counted leftwards, first returns to zero there.
   */
  method ReverseCloseExpression(lines: seq<string>, linenum: nat, pos: nat)
    returns (line: string, startLine: nat, startPos: int)
    requires ValidPos(lines, linenum, pos)
    ensures forall m: nat, p: int :: Opens(lines, linenum, pos, m, p) <==>
            startPos != -1 && m == startLine && p == startPos
    ensures startPos == -1 ==> startLine == 0
    ensures startPos != -1 ==> startLine <= linenum && line == lines[startLine]
  {
    line := lines[linenum];
    if !IsCloser(line[pos], OPENERS) {
      return line, 0, -1;
    }
    var open: Opener := Mirror(line[pos]);
    var depth: int;
    CharAt(lines, linenum, pos);
    FlatLine(lines, linenum);
    assert ScanningBack(lines, linenum, pos, linenum, pos + 1, 0, open);
    startPos, depth := FindStartOfExpressionInLine(line, pos, 0, open);
    if startPos != -1 {
      ScanBackFound(lines, linenum, pos, linenum, startPos, pos + 1, 0, open);
      OpensExactly(lines, linenum, pos, linenum, startPos);
      return line, linenum, startPos;
    }
    ScanBackTo(lines, linenum, pos, linenum, 0, pos + 1, 0, open);

    var l := linenum;
    while l > 0
      invariant 0 <= l <= linenum
      invariant ScanningBack(lines, linenum, pos, l, 0, depth, open)
    {
      ScanPreviousLine(lines, linenum, pos, l, depth, open);
      l := l - 1;
      line := lines[l];
      ghost var before := depth;
      startPos, depth := FindStartOfExpressionInLine(line, |line| - 1, depth, open);
      if startPos != -1 {
        ScanBackFound(lines, linenum, pos, l, startPos, |line|, before, open);
        OpensExactly(lines, linenum, pos, l, startPos);
        return line, l, startPos;
      }
      ScanBackTo(lines, linenum, pos, l, 0, |line|, before, open);
    }
    ScanBackExhausted(lines, linenum, pos, depth, open);
    return line, 0, -1;
  }
}
