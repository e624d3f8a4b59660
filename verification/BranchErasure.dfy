/**
 Conditional groups and the nesting tracker: reading a file with arbitrarily nested groups
 leaves the tracker where reading only the first branch of every group would leave it.
 */
module BranchErasure {
  import opened Wrappers
  import opened ConditionalGroups
  import opened NestingModel

  // ---------------------------------------------------------------- what is compared

  /** Everything about a block except its inline assembly state and its line number. */
  function Face(b: Block): Block {
    b.(asm := NoAsm, startLine := 0)
  }

  function Faces(stack: seq<Block>): (r: seq<Block>)
    ensures |r| == |stack|
  {
    seq(|stack|, k requires 0 <= k < |stack| => Face(stack[k]))
  }

  predicate Alike(s: seq<Block>, t: seq<Block>) {
    Faces(s) == Faces(t)
  }

  lemma AlikeAt(s: seq<Block>, t: seq<Block>)
    ensures Alike(s, t) <==> |s| == |t| && forall k | 0 <= k < |s| :: Face(s[k]) == Face(t[k])
  {
    if Alike(s, t) {
      forall k | 0 <= k < |s| ensures Face(s[k]) == Face(t[k]) {
        assert Faces(s)[k] == Faces(t)[k];
      }
    }
  }

  /** Alike: the same blocks in kind, access, brace, parentheses and base classes. */
  lemma AlikeMeans(s: seq<Block>, t: seq<Block>)
    ensures Alike(s, t) <==> |s| == |t| && forall k | 0 <= k < |s| ::
              && s[k].kind == t[k].kind && s[k].access == t[k].access && s[k].seenOpenBrace == t[k].seenOpenBrace
              && s[k].openParens == t[k].openParens && s[k].derived == t[k].derived
  {
    AlikeAt(s, t);
    if Alike(s, t) {
      forall k | 0 <= k < |s|
        ensures && s[k].kind == t[k].kind && s[k].access == t[k].access && s[k].seenOpenBrace == t[k].seenOpenBrace
                && s[k].openParens == t[k].openParens && s[k].derived == t[k].derived
      {
        assert Face(s[k]) == Face(t[k]);
      }
    }
  }

  lemma {:induction false} EatAllAlike(s: seq<Block>, t: seq<Block>, tokens: seq<Token>)
    requires Alike(s, t)
    ensures Alike(EatAll(s, tokens), EatAll(t, tokens))
    decreases |tokens|
  {
    if tokens != [] {
      AlikeAt(s, t);
      var s1, t1 := Eat(s, tokens[0]), Eat(t, tokens[0]);
      AlikeAt(s1, t1);
      EatAllAlike(s1, t1, tokens[1..]);
    }
  }

  lemma {:induction false} PushNamespacesAlike(s: seq<Block>, t: seq<Block>, heads: seq<NamespaceHead>, n: int, m: int)
    requires Alike(s, t)
    ensures Alike(PushNamespaces(s, heads, n), PushNamespaces(t, heads, m))
    decreases |heads|
  {
    if heads != [] {
      AlikeAt(s, t);
      var s1 := s + [NewBlock(Namespace(heads[0].name), n, heads[0].braced, NoAsm)];
      var t1 := t + [NewBlock(Namespace(heads[0].name), m, heads[0].braced, NoAsm)];
      AlikeAt(s1, t1);
      PushNamespacesAlike(s1, t1, heads[1..], n, m);
    }
  }

  lemma CountParensAlike(s: seq<Block>, t: seq<Block>, line: Line)
    requires Alike(s, t)
    ensures Alike(CountParens(s, line), CountParens(t, line))
  {
    AlikeAt(s, t);
    AlikeAt(CountParens(s, line), CountParens(t, line));
  }

  lemma PushClassAlike(s: seq<Block>, t: seq<Block>, line: Line, n: int, m: int)
    requires Alike(s, t)
    ensures TakesClass(s, line) == TakesClass(t, line)
    ensures Alike(PushClass(s, line, n), PushClass(t, line, m))
  {
    AlikeAt(s, t);
    AlikeAt(PushClass(s, line, n), PushClass(t, line, m));
  }

  lemma LabelsAlike(s: seq<Block>, t: seq<Block>, bareColon: bool, access: Option<Access>)
    requires Alike(s, t)
    ensures Alike(SetAccess(CheckBegin(s, bareColon), access), SetAccess(CheckBegin(t, bareColon), access))
  {
    AlikeAt(s, t);
    AlikeAt(CheckBegin(s, bareColon), CheckBegin(t, bareColon));
    AlikeAt(SetAccess(CheckBegin(s, bareColon), access), SetAccess(CheckBegin(t, bareColon), access));
  }

  lemma HeadsAlike(s: seq<Block>, t: seq<Block>, line: Line, n: int, m: int)
    requires Alike(s, t)
    ensures Alike(Heads(s, line, n), Heads(t, line, m))
  {
    var s1, t1 := CountParens(s, line), CountParens(t, line);
    CountParensAlike(s, t, line);
    var s2, t2 := PushNamespaces(s1, line.namespaces, n), PushNamespaces(t1, line.namespaces, m);
    PushNamespacesAlike(s1, t1, line.namespaces, n, m);
    PushClassAlike(s2, t2, line, n, m);
    var access := if TakesClass(s2, line) then line.classHead.value.access else line.access;
    LabelsAlike(PushClass(s2, line, n), PushClass(t2, line, m), line.bareColon, access);
  }

  /** A line does alike things to alike stacks. */
  lemma FeedAlike(s: seq<Block>, t: seq<Block>, line: Line, n: int, m: int)
    requires Alike(s, t)
    ensures Alike(Feed(s, line, n), Feed(t, line, m))
  {
    HeadsAlike(s, t, line, n, m);
    EatAllAlike(Heads(s, line, n), Heads(t, line, m), line.tokens);
  }

  // ---------------------------------------------------------------- directive lines

  /** What a line that starts with a directive cannot have: a namespace or class head at its start. */
  predicate Headless(line: Line) {
    line.namespaces == [] && line.classHead.None?
  }

  /** A plain block as an opening brace starts it. */
  const BRACED := Face(NewBlock(Plain, 0, true, NoAsm))

  /** How many blocks are open after a token, when the innermost block has seen its brace. */
  function AfterToken(h: nat, token: Token): nat {
    match token
    case OpenBrace(_) => h + 1
    case CloseBrace => if h == 0 then 0 else h - 1
    case _ => h
  }

  function Height(h: nat, tokens: seq<Token>): nat
    decreases |tokens|
  {
    if tokens == [] then h else Height(AfterToken(h, tokens[0]), tokens[1..])
  }

  /** The least number of blocks open at any time. */
  function Lowest(h: nat, tokens: seq<Token>): (low: nat)
    ensures low <= h
    decreases |tokens|
  {
    if tokens == [] then h
    else
      var low := Lowest(AfterToken(h, tokens[0]), tokens[1..]);
      if low < h then low else h
  }

  /**
   The tokens count out: there are none, or as many braces close as open and every block they
   close on the way is a plain one that a later brace replaces, above a block with its brace.
   */
  predicate Settles(stack: seq<Block>, tokens: seq<Token>) {
    tokens == [] ||
    var low := Lowest(|stack|, tokens);
    && Height(|stack|, tokens) == |stack|
    && (low > 0 ==> stack[low - 1].seenOpenBrace)
    && forall i | low <= i < |stack| :: Face(stack[i]) == BRACED
  }

  /** The line's parentheses and labels say nothing new about the innermost block. */
  predicate Untouched(b: Block, line: Line) {
    && line.parenChange == 0
    && (!b.seenOpenBrace && b.kind.Class? && line.bareColon ==> b.derived)
    && (b.kind.Class? && line.access.Some? ==> b.access == line.access.value)
  }

  /** A directive line the stack does not notice. */
  predicate Unnoticed(line: Line, stack: seq<Block>) {
    && Headless(line) && Settles(stack, line.tokens)
    && (stack != [] && Lowest(|stack|, line.tokens) == |stack| ==> Untouched(Top(stack), line))
  }

  /** Before its tokens are read, a line without heads changes at most the innermost block. */
  lemma HeadlessHeads(stack: seq<Block>, line: Line, n: int)
    requires Headless(line)
    ensures var h := Heads(stack, line, n);
            && |h| == |stack|
            && (forall i | 0 <= i < |stack| :: h[i].seenOpenBrace == stack[i].seenOpenBrace)
            && (forall i | 0 <= i < |stack| - 1 :: h[i] == stack[i])
            && (stack != [] ==> (Face(Top(h)) == Face(Top(stack)) <==> Untouched(Top(stack), line)))
  {
    var counted := CountParens(stack, line);
    assert PushNamespaces(counted, [], n) == counted;
  }

  /** Every block met on the way has its brace. */
  predicate Braced(stack: seq<Block>, low: nat) {
    forall i | 0 <= i < |stack| && low - 1 <= i :: stack[i].seenOpenBrace
  }

  /** While every block met has its brace, the tokens only count. */
  lemma {:induction false} TokensCount(stack: seq<Block>, tokens: seq<Token>)
    requires Braced(stack, Lowest(|stack|, tokens))
    ensures var r, low := EatAll(stack, tokens), Lowest(|stack|, tokens);
            && |r| == Height(|stack|, tokens) >= low
            && (forall i | 0 <= i < low :: r[i] == stack[i])
            && (forall i | low <= i < |r| :: Face(r[i]) == BRACED)
    decreases |tokens|
  {
    if tokens != [] {
      assert stack != [] ==> stack[|stack| - 1].seenOpenBrace;
      TokensCount(Eat(stack, tokens[0]), tokens[1..]);
    }
  }

  /** The block at `u`, which waits for its brace, has got it or is gone. */
  predicate Lost(r: seq<Block>, u: nat) {
    |r| <= u || r[u].seenOpenBrace
  }

  lemma {:induction false} StaysLost(stack: seq<Block>, u: nat, tokens: seq<Token>)
    requires Lost(stack, u)
    ensures Lost(EatAll(stack, tokens), u)
    decreases |tokens|
  {
    if tokens != [] {
      StaysLost(Eat(stack, tokens[0]), u, tokens[1..]);
    }
  }

  /** Tokens that reach down to a block without its brace are noticed. */
  lemma {:induction false} UnbracedNoticed(stack: seq<Block>, u: nat, tokens: seq<Token>)
    requires u < |stack| && !stack[u].seenOpenBrace && forall i | u < i < |stack| :: stack[i].seenOpenBrace
    requires tokens != [] && Lowest(|stack|, tokens) <= u + 1
    ensures var r := EatAll(stack, tokens); Lost(r, u) || |r| == u + 1 < |stack|
    decreases |tokens|
  {
    var next := Eat(stack, tokens[0]);
    if |stack| == u + 1 {
      StaysLost(next, u, tokens[1..]);
    } else if tokens[1..] != [] {
      UnbracedNoticed(next, u, tokens[1..]);
    }
  }

  lemma TopmostUnbraced(stack: seq<Block>, low: nat) returns (u: nat)
    requires !Braced(stack, low)
    ensures u < |stack| && low - 1 <= u && !stack[u].seenOpenBrace
            && forall i | u < i < |stack| :: stack[i].seenOpenBrace
  {
    u := |stack| - 1;
    while stack[u].seenOpenBrace
      invariant 0 <= u < |stack| && forall i | u < i < |stack| :: stack[i].seenOpenBrace
      invariant exists i :: 0 <= i <= u && low - 1 <= i && !stack[i].seenOpenBrace
      decreases u
    {
      u := u - 1;
    }
  }

  /** A directive line leaves the stack alike if and only if it is unnoticed. */
  lemma NoticedExactly(stack: seq<Block>, line: Line, n: int)
    requires Headless(line)
    ensures Unnoticed(line, stack) <==> Alike(Feed(stack, line, n), stack)
  {
    var h, low := Heads(stack, line, n), Lowest(|stack|, line.tokens);
    HeadlessHeads(stack, line, n);
    AlikeAt(Feed(stack, line, n), stack);
    if line.tokens == [] {
      assert Feed(stack, line, n) == h;
    } else if Braced(stack, low) {
      TokensCount(h, line.tokens);
      CountedAlike(stack, h, EatAll(h, line.tokens), line);
    } else {
      var u := TopmostUnbraced(stack, low);
      UnbracedNoticed(h, u, line.tokens);
      assert Face(stack[u]) != BRACED;
    }
  }

  lemma CountedAlike(stack: seq<Block>, h: seq<Block>, r: seq<Block>, line: Line)
    requires line.tokens != [] && Headless(line) && |h| == |stack|
             && forall i | 0 <= i < |stack| - 1 :: h[i] == stack[i]
    requires stack != [] ==> (Face(Top(h)) == Face(Top(stack)) <==> Untouched(Top(stack), line))
    requires var low := Lowest(|stack|, line.tokens);
             && Braced(stack, low) && |r| == Height(|stack|, line.tokens) >= low
             && (forall i | 0 <= i < low :: r[i] == h[i]) && (forall i | low <= i < |r| :: Face(r[i]) == BRACED)
    ensures Unnoticed(line, stack) <==> |r| == |stack| && forall k | 0 <= k < |r| :: Face(r[k]) == Face(stack[k])
  {
    var low := Lowest(|stack|, line.tokens);
    if |r| == |stack| && forall k | 0 <= k < |r| :: Face(r[k]) == Face(stack[k]) {
      forall i | low <= i < |stack| ensures Face(stack[i]) == BRACED {
        assert Face(r[i]) == Face(stack[i]);
      }
      if stack != [] && low == |stack| {
        assert Face(r[|stack| - 1]) == Face(stack[|stack| - 1]);
      }
    }
  }

  // ---------------------------------------------------------------- the theorem

  lemma FeedIsLawful()
    ensures Lawful(Feed, Faces, Unnoticed) && Sharp(Feed, Faces, Unnoticed, Headless)
  {
    forall s, t: seq<Block>, l, n, m | Alike(s, t) ensures Alike(Feed(s, l, n), Feed(t, l, m)) {
      FeedAlike(s, t, l, n, m);
    }
    forall s, t: seq<Block>, l: Line | Alike(s, t) ensures Unnoticed(l, s) == Unnoticed(l, t) {
      if Headless(l) {
        NoticedExactly(s, l, 0);
        NoticedExactly(t, l, 0);
        FeedAlike(s, t, l, 0, 0);
      }
    }
    forall s, l: Line, n | Headless(l) ensures Unnoticed(l, s) <==> Alike(Feed(s, l, n), s) {
      NoticedExactly(s, l, n);
    }
  }

  /**
   Reading the whole file from any state ends with the blocks, their accesses, braces and open
   parentheses that reading only the kept lines ends with, and with the checkpoints it began with.
   */
  lemma FirstBranchDecides(f: File<Line>, s: State<Block>, n: int, m: int)
    requires DirectivesQuiet(Feed, Unnoticed, f, s.stack)
    ensures Alike(Replay(Feed, s, All(f), n).stack, Replay(Feed, s, Kept(f), m).stack)
    ensures Replay(Feed, s, All(f), n).saved == s.saved
  {
    FeedIsLawful();
    ErasingBranches(Feed, Faces, Unnoticed, f, s, s, n, m);
    SavedRestored(Feed, s, f, n);
  }

  /**
   Reading the file and reading only its kept lines go in step, after every directive line and
   every group outside dropped branches, if and only if every such directive line is unnoticed
   where it stands.
   */
  lemma InStepExactly(f: File<Line>, s: State<Block>, n: int, m: int)
    requires Directives(Headless, f)
    ensures InStep(Feed, Faces, f, s, s, n, m) <==> DirectivesQuiet(Feed, Unnoticed, f, s.stack)
  {
    FeedIsLawful();
    GoInStep(Feed, Faces, Unnoticed, Headless, f, s, s, n, m);
  }

  /** For a group without lines in its first branch, closed by a bare #endif, erasure hangs on the #if line alone. */
  lemma EmptyGroupExactly(ifLine: Line, others: Branches<Line>, endLine: Line, s: State<Block>, n: int, m: int)
    requires Headless(ifLine) && Bare(endLine)
    ensures var f := Group(ifLine, Done, others, endLine, Done);
            Alike(Replay(Feed, s, All(f), n).stack, Replay(Feed, s, Kept(f), m).stack) <==> Unnoticed(ifLine, s.stack)
  {
    var s', k := AfterGroup(Feed, s, ifLine, Done, others, endLine, Done, n);
    var after := Feed(s.stack, ifLine, n);
    assert s'.stack == Feed(after, endLine, k - 1);
    NoticedExactly(s.stack, ifLine, n);
    NoticedExactly(after, endLine, k - 1);
  }

  /** For a group whose other directives are unnoticed, erasure hangs on the #endif line alone. */
  lemma EndLineExactly(f: File<Line>, s: State<Block>, n: int, m: int)
    requires f.Group? && f.next.Done? && Headless(f.endLine)
    requires Unnoticed(f.ifLine, s.stack) && DirectivesQuiet(Feed, Unnoticed, f.first, s.stack)
    ensures Alike(Replay(Feed, s, All(f), n).stack, Replay(Feed, s, Kept(f), m).stack)
       <==> Unnoticed(f.endLine, Replay(Feed, State(s.stack, []), Kept(f.first), 0).stack)
  {
    FeedIsLawful();
    EndInStep(Feed, Faces, Unnoticed, Headless, f, s, s, n, m);
    assert Kept(f) == Kept(f.first);
  }

  /** Directive lines without parentheses, semicolons, braces, colons, heads or labels are unnoticed everywhere. */
  predicate Bare(line: Line) {
    && line.parenChange == 0 && line.namespaces == [] && line.classHead.None?
    && line.access.None? && line.tokens == [] && !line.bareColon
  }

  predicate BareDirectives(f: File<Line>) {
    match f
    case Done => true
    case Text(_, next) => BareDirectives(next)
    case Group(i, first, _, e, next) => Bare(i) && BareDirectives(first) && Bare(e) && BareDirectives(next)
  }

  lemma {:induction false} BareIsQuiet(f: File<Line>, stack: seq<Block>)
    requires BareDirectives(f)
    ensures DirectivesQuiet(Feed, Unnoticed, f, stack)
    decreases f
  {
    match f
    case Done =>
    case Text(l, next) => BareIsQuiet(next, Feed(stack, l, 0));
    case Group(i, first, _, e, next) =>
      BareIsQuiet(first, stack);
      BareIsQuiet(next, Replay(Feed, State(stack, []), Kept(first), 0).stack);
  }

  /** So with bare directive lines the first branches decide, for every file and every state. */
  lemma FirstBranchDecidesBare(f: File<Line>, s: State<Block>, n: int, m: int)
    requires BareDirectives(f)
    ensures Alike(Replay(Feed, s, All(f), n).stack, Replay(Feed, s, Kept(f), m).stack)
    ensures Replay(Feed, s, All(f), n).saved == s.saved
  {
    BareIsQuiet(f, s.stack);
    FirstBranchDecides(f, s, n, m);
  }

  const NOTHING := Line(0, false, [], None, false, None, [])
  const CLASS_HEAD := NOTHING.(classHead := Some(ClassHead("Foo", false, None)))
  const IF_DEFINED := NOTHING.(tokens := [CloseParen])
  const BRACE := NOTHING.(tokens := [OpenBrace(false)])

  const DROPPED := Text(CLASS_HEAD, Group(IF_DEFINED, Done, NoMore, NOTHING, Text(BRACE, Done)))

  lemma ClassHeadFeed()
    ensures Feed([], CLASS_HEAD, 0) == [NewBlock(Class("Foo", false), 0, false, NoAsm)]
  {
  }

  lemma IfDefinedFeed(cls: Block, n: int)
    requires !cls.seenOpenBrace && cls.asm == NoAsm
    ensures Feed([cls], IF_DEFINED, n) == []
  {
    assert Heads([cls], IF_DEFINED, n) == [cls];
    assert EatAll([], IF_DEFINED.tokens[1..]) == [];
  }

  lemma BraceFeed(stack: seq<Block>, n: int)
    requires stack == [] || Top(stack).asm == NoAsm
    ensures Feed(stack, BRACE, n) == Eat(stack, OpenBrace(false))
  {
    assert CountParens(stack, BRACE) == stack;
    var next := Eat(stack, OpenBrace(false));
    assert BRACE.tokens[1..] == [];
    assert EatAll(next, []) == next;
  }

  /** The kept lines open the class. */
  lemma KeptOpensClass()
    ensures Replay(Feed, State([], []), Kept(DROPPED), 0).stack
         == [NewBlock(Class("Foo", false), 0, false, NoAsm).(seenOpenBrace := true)]
  {
    var cls := NewBlock(Class("Foo", false), 0, false, NoAsm);
    ClassHeadFeed();
    BraceFeed([cls], 1);
    var brace := Source(NoDirective, BRACE);
    assert Kept(DROPPED) == [Source(NoDirective, CLASS_HEAD)] + [brace];
    ReplayFirst(Feed, State([], []), Source(NoDirective, CLASS_HEAD), [brace], 0);
    ReplayFirst(Feed, State([cls], []), brace, [], 1);
  }

  /** The whole file has lost the class: the brace opens a plain block. */
  lemma AllOpensPlainBlock()
    ensures Replay(Feed, State([], []), All(DROPPED), 0).stack == [NewBlock(Plain, 0, true, NoAsm)]
  {
    var cls := NewBlock(Class("Foo", false), 0, false, NoAsm);
    ClassHeadFeed();
    ReplayFirst(Feed, State([], []), Source(NoDirective, CLASS_HEAD), All(DROPPED.next), 0);
    var s, m := AfterGroup(Feed, State([cls], []), IF_DEFINED, Done, NoMore, NOTHING, Text(BRACE, Done), 1);
    IfDefinedFeed(cls, 1);
    assert s == State([], []);
    BraceFeed([], m);
    ReplayFirst(Feed, s, Source(NoDirective, BRACE), [], m);
  }

  /**
   With a directive line that is noticed branch erasure fails: a class head, then a directive
   `if defined(A)` before the brace. The closing parenthesis of the directive drops the class.
   */
  lemma NoisyDirectiveDropsClass()
    ensures !Alike(Replay(Feed, State([], []), All(DROPPED), 0).stack,
                   Replay(Feed, State([], []), Kept(DROPPED), 0).stack)
  {
    var plain := [NewBlock(Plain, 0, true, NoAsm)];
    var cls := [NewBlock(Class("Foo", false), 0, false, NoAsm).(seenOpenBrace := true)];
    assert !Alike(plain, cls) by {
      AlikeAt(plain, cls);
      assert Face(plain[0]) != Face(cls[0]);
    }
    AllOpensPlainBlock();
    KeptOpensClass();
  }
}
