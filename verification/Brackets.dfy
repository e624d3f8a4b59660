/**
 Bracket characters, the running balance of one bracket kind, and what it means
 for a text to be well nested over several kinds.
 */
module Brackets {

  /** The four characters that open an expression. */
  type Opener = c: char | c == '(' || c == '[' || c == '{' || c == '<' witness '('

  /** Swaps a bracket with its partner and leaves every other character alone. */
  function Mirror(c: char): char {
    match c
    case '(' => ')'
    case ')' => '('
    case '[' => ']'
    case ']' => '['
    case '{' => '}'
    case '}' => '{'
    case '<' => '>'
    case '>' => '<'
    case _ => c
  }

  predicate IsCloser(c: char, kinds: set<Opener>) {
    Mirror(c) in kinds
  }

  /** What one character adds to the nesting depth of the kind `open`. */
  function Weight(c: char, open: Opener): int {
    if c == open then 1 else if c == Mirror(open) then -1 else 0
  }

  /** Openers minus closers in `t[i..j]`. */
  function Balance(t: string, i: nat, j: nat, open: Opener): int
    requires i <= j <= |t|
    decreases j
  {
    if i == j then 0 else Balance(t, i, j - 1, open) + Weight(t[j - 1], open)
  }

  lemma {:induction false} BalanceSplit(t: string, i: nat, k: nat, j: nat, open: Opener)
    requires i <= k <= j <= |t|
    ensures Balance(t, i, j, open) == Balance(t, i, k, open) + Balance(t, k, j, open)
    decreases j
  {
    if k < j {
      BalanceSplit(t, i, k, j - 1, open);
    }
  }

  /** The balance of a piece of text does not depend on where the piece sits. */
  lemma {:induction false} BalanceShift(s: string, t: string, off: nat, i: nat, j: nat, open: Opener)
    requires off + |s| <= |t| && s == t[off..off + |s|]
    requires i <= j <= |s|
    ensures Balance(s, i, j, open) == Balance(t, off + i, off + j, open)
    decreases j
  {
    if i < j {
      BalanceShift(s, t, off, i, j - 1, open);
      assert s[j - 1] == t[off + j - 1];
    }
  }

  /** In `t[i..j]` every prefix has at least as many openers as closers and the totals agree. */
  ghost predicate Balanced(t: string, i: nat, j: nat, open: Opener)
    requires i <= j <= |t|
  {
    && Balance(t, i, j, open) == 0
    && forall k: nat | i <= k <= j :: Balance(t, i, k, open) >= 0
  }

  /**
   The grammar of well-nested text over a set of bracket kinds, read off `t[i..j]`: empty, or
   a character that is no bracket of these kinds followed by well-nested text, or an opener,
   well-nested text, its own closer, and well-nested text.
   */
  ghost predicate Dyck(t: string, i: nat, j: nat, kinds: set<Opener>)
    requires j <= |t|
    decreases j - i
  {
    || i == j
    || (i < j && t[i] !in kinds && !IsCloser(t[i], kinds) && Dyck(t, i + 1, j, kinds))
    || (i < j && t[i] in kinds && exists k: nat :: DyckAt(t, i, k, j, kinds))
  }

  /** The opener at `i` is closed at `k`, and both pieces it splits `t[i..j]` into are well nested. */
  ghost predicate DyckAt(t: string, i: nat, k: nat, j: nat, kinds: set<Opener>)
    requires i < j <= |t|
    decreases j - i, 0
  {
    i < k < j && t[k] == Mirror(t[i]) && Dyck(t, i + 1, k, kinds) && Dyck(t, k + 1, j, kinds)
  }

  lemma ClosedAt(t: string, i: nat, j: nat, kinds: set<Opener>) returns (k: nat)
    requires i < j <= |t| && t[i] in kinds && Dyck(t, i, j, kinds)
    ensures DyckAt(t, i, k, j, kinds)
  {
    k :| DyckAt(t, i, k, j, kinds);
  }

  /** For one kind, the grammar and the balance condition describe the same texts. */
  lemma {:induction false} DyckIsBalanced(t: string, i: nat, j: nat, open: Opener)
    requires i <= j <= |t|
    ensures Dyck(t, i, j, {open}) <==> Balanced(t, i, j, open)
    decreases j - i
  {
    if i < j {
      assert Balance(t, i, i, open) == 0 && Balance(t, i, i + 1, open) == Weight(t[i], open);
      var kinds: set<Opener> := {open};
      assert t[i] in kinds <==> t[i] == open;
      assert IsCloser(t[i], kinds) <==> t[i] == Mirror(open);
      if t[i] == open {
        if Dyck(t, i, j, kinds) {
          var k := ClosedAt(t, i, j, kinds);
          DyckIsBalanced(t, i + 1, k, open);
          DyckIsBalanced(t, k + 1, j, open);
          BalancedWrap(t, i, k, j, open);
        }
        if Balanced(t, i, j, open) {
          var k := FirstReturn(t, i, j, open);
          DyckIsBalanced(t, i + 1, k, open);
          DyckIsBalanced(t, k + 1, j, open);
          assert DyckAt(t, i, k, j, kinds);
        }
      } else if t[i] != Mirror(open) {
        DyckIsBalanced(t, i + 1, j, open);
        BalancedNeutral(t, i, j, open);
      }
    }
  }

  lemma BalancedNeutral(t: string, i: nat, j: nat, open: Opener)
    requires i < j <= |t| && Weight(t[i], open) == 0
    ensures Balanced(t, i, j, open) <==> Balanced(t, i + 1, j, open)
  {
    assert Balance(t, i, i, open) == 0;
    var n := i + 1;
    forall k: nat | n <= k <= j ensures Balance(t, i, k, open) == Balance(t, n, k, open) {
      BalanceSplit(t, i, n, k, open);
    }
  }

  lemma BalancedWrap(t: string, i: nat, k: nat, j: nat, open: Opener)
    requires i < k < j <= |t| && t[i] == open && t[k] == Mirror(open)
    requires Balanced(t, i + 1, k, open) && Balanced(t, k + 1, j, open)
    ensures Balanced(t, i, j, open)
  {
    assert Balance(t, i, i, open) == 0;
    forall m: nat | i < m <= j
      ensures Balance(t, i, m, open) == 1 + Balance(t, i + 1, m, open)
      ensures k < m ==> Balance(t, i, m, open) == Balance(t, k + 1, m, open)
    {
      BalanceSplit(t, i, i + 1, m, open);
      if k < m {
        BalanceSplit(t, i + 1, k + 1, m, open);
      }
    }
  }

  /** The place at which a balanced text first comes back to depth zero splits it into two balanced texts. */
  lemma FirstReturn(t: string, i: nat, j: nat, open: Opener) returns (k: nat)
    requires i < j <= |t| && t[i] == open && Balanced(t, i, j, open)
    ensures i < k < j && t[k] == Mirror(open)
    ensures Balanced(t, i + 1, k, open) && Balanced(t, k + 1, j, open)
  {
    assert Balance(t, i, i, open) == 0 && Balance(t, i, i + 1, open) == 1;
    k := i + 1;
    while Balance(t, i, k + 1, open) != 0
      invariant i < k < j
      invariant forall m: nat | i < m <= k :: Balance(t, i, m, open) > 0
      decreases j - k
    {
      assert Balance(t, i, k + 1, open) >= 0;
      k := k + 1;
    }
    assert Balance(t, i, k, open) > 0;
    var n, u := i + 1, k + 1;
    forall m: nat | n <= m <= j ensures Balance(t, i, m, open) == 1 + Balance(t, n, m, open) {
      BalanceSplit(t, i, n, m, open);
    }
    forall m: nat | u <= m <= j ensures Balance(t, i, m, open) == Balance(t, u, m, open) {
      BalanceSplit(t, i, u, m, open);
    }
  }
}
