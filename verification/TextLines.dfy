/** An array of lines and the text it spells when the lines are put one after the other. */
module TextLines {

  predicate IsSpace(c: char) {
    c == ' ' || c == '\t' || c == '\n' || c == '\r' || c == '\U{0B}' || c == '\U{0C}'
  }

  /** Space, tab, line feed, carriage return, vertical tab and form feed. */
  lemma SixSpaces(c: char)
    ensures IsSpace(c) <==> c in " \t\n\r\U{0B}\U{0C}"
  {
  }

  /** All lines, one after the other. */
  function Flat(lines: seq<string>): string {
    if lines == [] then "" else Flat(lines[..|lines| - 1]) + lines[|lines| - 1]
  }

  /** Where line `l` starts in the flattened text. */
  function Offset(lines: seq<string>, l: nat): nat
    requires l <= |lines|
  {
    |Flat(lines[..l])|
  }

  predicate ValidPos(lines: seq<string>, l: nat, p: int) {
    l < |lines| && 0 <= p < |lines[l]|
  }

  lemma {:induction false} FlatLine(lines: seq<string>, l: nat)
    requires l < |lines|
    ensures Offset(lines, l) + |lines[l]| == Offset(lines, l + 1) <= |Flat(lines)|
    ensures Flat(lines)[Offset(lines, l)..Offset(lines, l + 1)] == lines[l]
    ensures l + 1 == |lines| ==> Offset(lines, l + 1) == |Flat(lines)|
    decreases |lines|
  {
    var n := |lines| - 1;
    assert lines[..l + 1][..l] == lines[..l];
    if l == n {
      assert lines[..l + 1] == lines;
    } else {
      FlatLine(lines[..n], l);
      assert lines[..n][..l] == lines[..l] && lines[..n][..l + 1] == lines[..l + 1];
    }
  }

  lemma {:induction false} OffsetMonotone(lines: seq<string>, l: nat, m: nat)
    requires l <= m <= |lines|
    ensures Offset(lines, l) <= Offset(lines, m) <= |Flat(lines)|
    decreases m
  {
    if l < m {
      OffsetMonotone(lines, l, m - 1);
      FlatLine(lines, m - 1);
    } else if m < |lines| {
      FlatLine(lines, m);
    } else {
      assert lines[..m] == lines;
    }
  }

  /** A place in the flattened text is a place on exactly one line. */
  lemma PositionUnique(lines: seq<string>, l: nat, p: int, l': nat, p': int)
    requires ValidPos(lines, l, p) && ValidPos(lines, l', p')
    requires Offset(lines, l) + p == Offset(lines, l') + p'
    ensures l == l' && p == p'
  {
    FlatLine(lines, l);
    FlatLine(lines, l');
    if l < l' {
      OffsetMonotone(lines, l + 1, l');
    } else if l' < l {
      OffsetMonotone(lines, l' + 1, l);
    }
  }

  lemma CharAt(lines: seq<string>, l: nat, p: nat)
    requires ValidPos(lines, l, p)
    ensures Offset(lines, l) + p < |Flat(lines)|
    ensures Flat(lines)[Offset(lines, l) + p] == lines[l][p]
  {
    FlatLine(lines, l);
    assert lines[l][p] == Flat(lines)[Offset(lines, l)..Offset(lines, l + 1)][p];
  }

  lemma {:induction false} FlatFirst(lines: seq<string>)
    requires lines != []
    ensures Flat(lines) == lines[0] + Flat(lines[1..])
    decreases |lines|
  {
    var n := |lines| - 1;
    if n > 0 {
      FlatFirst(lines[..n]);
      assert lines[..n][1..] == lines[1..][..n - 1];
    } else {
      assert lines[..0] == [];
    }
  }
}
