/**
 Tracking a stack through #if/#elif/#else/#endif groups by saving and restoring it. The
 results here hold for whatever a line does to the stack, so they are stated for an arbitrary
 step; NestingModel supplies the step of the nesting tracker.
 */
module ConditionalGroups {

  datatype Directive = NoDirective | IfDirective | ElseDirective | EndifDirective

  /** A line: the preprocessor directive it is, if any, and what else is on it. */
  datatype Source<L> = Source(directive: Directive, text: L)

  /** The checkpoint of one open group. */
  datatype Saved<B> = Saved(beforeIf: seq<B>, beforeElse: seq<B>, seenElse: bool)

  datatype State<B> = State(stack: seq<B>, saved: seq<Saved<B>>)

  function Top<T>(s: seq<T>): T
    requires s != []
  {
    s[|s| - 1]
  }

  function Pop<T>(s: seq<T>): seq<T>
    requires s != []
  {
    s[..|s| - 1]
  }

  function SetTop<T>(s: seq<T>, t: T): seq<T>
    requires s != []
  {
    s[|s| - 1 := t]
  }

  function UpdatePreprocessor<B>(s: State<B>, d: Directive): State<B> {
    match d
    case NoDirective => s
    case IfDirective => s.(saved := s.saved + [Saved(s.stack, [], false)])
    case ElseDirective =>
      if s.saved == [] then s
      else
        var top := Top(s.saved);
        var top' := if top.seenElse then top else top.(seenElse := true, beforeElse := s.stack);
        State(top.beforeIf, SetTop(s.saved, top'))
    case EndifDirective =>
      if s.saved == [] then s
      else
        var top := Top(s.saved);
        State(if top.seenElse then top.beforeElse else s.stack, Pop(s.saved))
  }

  // ---------------------------------------------------------------- replaying lines

  type Step<!B, !L> = (seq<B>, L, int) -> seq<B>

  /** One line: the preprocessor first, then the step, at every line, directive or not. */
  function Update<B, L>(step: Step<B, L>, s: State<B>, line: Source<L>, ln: int): State<B> {
    var s1 := UpdatePreprocessor(s, line.directive);
    s1.(stack := step(s1.stack, line.text, ln))
  }

  function Replay<B, L>(step: Step<B, L>, s: State<B>, lines: seq<Source<L>>, ln: int): State<B>
    decreases |lines|
  {
    if lines == [] then s else Replay(step, Update(step, s, lines[0], ln), lines[1..], ln + 1)
  }

  lemma {:induction false} ReplaySplit<B, L>(step: Step<B, L>, s: State<B>,
                                             a: seq<Source<L>>, b: seq<Source<L>>, ln: int)
    ensures Replay(step, s, a + b, ln) == Replay(step, Replay(step, s, a, ln), b, ln + |a|)
    decreases |a|
  {
    if a == [] {
      assert a + b == b;
    } else {
      assert (a + b)[1..] == a[1..] + b;
      ReplaySplit(step, Update(step, s, a[0], ln), a[1..], b, ln + 1);
    }
  }

  lemma ReplayFirst<B, L>(step: Step<B, L>, s: State<B>, line: Source<L>, rest: seq<Source<L>>, ln: int)
    ensures Replay(step, s, [line] + rest, ln) == Replay(step, Update(step, s, line, ln), rest, ln + 1)
  {
    assert ([line] + rest)[1..] == rest;
  }

  lemma ReplayLast<B, L>(step: Step<B, L>, s: State<B>, lines: seq<Source<L>>, ln: int)
    requires lines != []
    ensures Replay(step, s, lines, ln) == Update(step, Replay(step, s, Pop(lines), ln), Top(lines), ln + |lines| - 1)
  {
    assert lines == Pop(lines) + [Top(lines)];
    ReplaySplit(step, s, Pop(lines), [Top(lines)], ln);
    ReplayFirst(step, Replay(step, s, Pop(lines), ln), Top(lines), [], ln + |lines| - 1);
  }

  /** The blocks that end on one line. */
  function EndedOn<B, L>(ended: Step<B, L>, s: State<B>, line: Source<L>, ln: int): seq<B> {
    ended(UpdatePreprocessor(s, line.directive).stack, line.text, ln)
  }

  /** The blocks that end on the lines, when `ended` gives those that end on one line. */
  function EndedAll<B, L>(step: Step<B, L>, ended: Step<B, L>, s: State<B>, lines: seq<Source<L>>, ln: int): seq<B>
    decreases |lines|
  {
    if lines == [] then []
    else
      EndedOn(ended, s, lines[0], ln)
      + EndedAll(step, ended, Update(step, s, lines[0], ln), lines[1..], ln + 1)
  }

  lemma {:induction false} EndedSplit<B, L>(step: Step<B, L>, ended: Step<B, L>, s: State<B>,
                                            a: seq<Source<L>>, b: seq<Source<L>>, ln: int)
    ensures EndedAll(step, ended, s, a + b, ln)
         == EndedAll(step, ended, s, a, ln) + EndedAll(step, ended, Replay(step, s, a, ln), b, ln + |a|)
    decreases |a|
  {
    if a == [] {
      assert a + b == b;
    } else {
      assert (a + b)[1..] == a[1..] + b;
      EndedSplit(step, ended, Update(step, s, a[0], ln), a[1..], b, ln + 1);
    }
  }

  lemma EndedLast<B, L>(step: Step<B, L>, ended: Step<B, L>, s: State<B>, a: seq<Source<L>>, l: Source<L>, ln: int)
    ensures EndedAll(step, ended, s, a + [l], ln)
         == EndedAll(step, ended, s, a, ln) + EndedOn(ended, Replay(step, s, a, ln), l, ln + |a|)
  {
    EndedSplit(step, ended, s, a, [l], ln);
    assert [l][1..] == [];
  }

  lemma ReplayNext<B, L>(step: Step<B, L>, ended: Step<B, L>, s: State<B>, lines: seq<Source<L>>, i: nat, ln: int)
    requires i < |lines|
    ensures var before := Replay(step, s, lines[..i], ln);
            && Replay(step, s, lines[..i + 1], ln) == Update(step, before, lines[i], ln + i)
            && EndedAll(step, ended, s, lines[..i + 1], ln) == EndedAll(step, ended, s, lines[..i], ln)
                 + ended(UpdatePreprocessor(before, lines[i].directive).stack, lines[i].text, ln + i)
  {
    assert lines[..i + 1] == lines[..i] + [lines[i]];
    ReplayLast(step, s, lines[..i + 1], ln);
    EndedLast(step, ended, s, lines[..i], lines[i], ln);
  }

  // ---------------------------------------------------------------- files with groups

  /** A file as a sequence of plain lines and complete conditional groups. */
  datatype File<L> =
    | Done
    | Text(line: L, next: File<L>)
    | Group(ifLine: L, first: File<L>, others: Branches<L>, endLine: L, next: File<L>)

  /** The branches after the first one, each with its #elif or #else line. */
  datatype Branches<L> = NoMore | Branch(elseLine: L, body: File<L>, more: Branches<L>)

  /** Every line of the file. */
  function All<L>(f: File<L>): seq<Source<L>> {
    match f
    case Done => []
    case Text(l, next) => [Source(NoDirective, l)] + All(next)
    case Group(i, first, others, e, next) =>
      [Source(IfDirective, i)] + (All(first) + (AllBranches(others) + ([Source(EndifDirective, e)] + All(next))))
  }

  function AllBranches<L>(b: Branches<L>): seq<Source<L>> {
    match b
    case NoMore => []
    case Branch(l, body, more) => [Source(ElseDirective, l)] + (All(body) + AllBranches(more))
  }

  /** The lines that are left when only the first branch of every group is kept. */
  function Kept<L>(f: File<L>): seq<Source<L>> {
    match f
    case Done => []
    case Text(l, next) => [Source(NoDirective, l)] + Kept(next)
    case Group(_, first, _, _, next) => Kept(first) + Kept(next)
  }

  // ---------------------------------------------------------------- saved stacks

  /** Whatever the branches do to the stack, the checkpoints are those from before the group. */
  lemma {:induction false} SavedRestored<B, L>(step: Step<B, L>, s: State<B>, f: File<L>, n: int)
    ensures Replay(step, s, All(f), n).saved == s.saved
    decreases f
  {
    match f
    case Done =>
    case Text(l, next) =>
      ReplayFirst(step, s, Source(NoDirective, l), All(next), n);
      SavedRestored(step, Update(step, s, Source(NoDirective, l), n), next, n + 1);
    case Group(i, first, others, e, next) =>
      var s1, m := AfterGroup(step, s, i, first, others, e, next, n);
      SavedRestored(step, s1, next, m);
  }

  /** A group behaves as its #if line, its first branch and its #endif line, and nothing else. */
  lemma {:induction false} AfterGroup<B, L>(step: Step<B, L>, s: State<B>, i: L, first: File<L>, others: Branches<L>,
                                            e: L, next: File<L>, n: int)
    returns (s': State<B>, m: int)
    ensures Replay(step, s, All(Group(i, first, others, e, next)), n) == Replay(step, s', All(next), m)
    ensures var s1 := Update(step, s, Source(IfDirective, i), n);
            s' == State(step(Replay(step, s1, All(first), n + 1).stack, e, m - 1), s.saved)
    decreases Group(i, first, others, e, next), 0
  {
    var s1 := Update(step, s, Source(IfDirective, i), n);
    var s2 := Replay(step, s1, All(first), n + 1);
    var k := n + 1 + |All(first)|;
    var rest := [Source(EndifDirective, e)] + All(next);
    m := k + |AllBranches(others)| + 1;
    ReplayFirst(step, s, Source(IfDirective, i), All(first) + (AllBranches(others) + rest), n);
    ReplaySplit(step, s1, All(first), AllBranches(others) + rest, n + 1);
    ReplaySplit(step, s2, AllBranches(others), rest, k);
    SavedRestored(step, s1, first, n + 1);
    AfterBranches(step, s2, others, k);
    var s3 := Replay(step, s2, AllBranches(others), k);
    ReplayFirst(step, s3, Source(EndifDirective, e), All(next), m - 1);
    s' := Update(step, s3, Source(EndifDirective, e), m - 1);
  }

  /** However many branches follow the first, #endif goes back to the stack at the end of the first. */
  lemma {:induction false} AfterBranches<B, L>(step: Step<B, L>, s: State<B>, others: Branches<L>, k: int)
    requires s.saved != [] && !Top(s.saved).seenElse
    ensures UpdatePreprocessor(Replay(step, s, AllBranches(others), k), EndifDirective) == State(s.stack, Pop(s.saved))
    decreases others, 1
  {
    if others.Branch? {
      var other := Source(ElseDirective, others.elseLine);
      var s1 := Update(step, s, other, k);
      var s2 := Replay(step, s1, All(others.body), k + 1);
      ReplayFirst(step, s, other, All(others.body) + AllBranches(others.more), k);
      ReplaySplit(step, s1, All(others.body), AllBranches(others.more), k + 1);
      SavedRestored(step, s1, others.body, k + 1);
      LaterBranches(step, s2, others.more, k + 1 + |All(others.body)|);
    }
  }

  /** Once the first #else has been read, further branches leave the checkpoint alone. */
  lemma {:induction false} LaterBranches<B, L>(step: Step<B, L>, s: State<B>, b: Branches<L>, n: int)
    requires s.saved != [] && Top(s.saved).seenElse
    ensures Replay(step, s, AllBranches(b), n).saved == s.saved
    decreases b
  {
    if b.Branch? {
      var other := Source(ElseDirective, b.elseLine);
      var s1 := Update(step, s, other, n);
      ReplayFirst(step, s, other, All(b.body) + AllBranches(b.more), n);
      ReplaySplit(step, s1, All(b.body), AllBranches(b.more), n + 1);
      SavedRestored(step, s1, b.body, n + 1);
      LaterBranches(step, Replay(step, s1, All(b.body), n + 1), b.more, n + 1 + |All(b.body)|);
    }
  }

  // ---------------------------------------------------------------- where a branch is read from

  /** The lines of a group up to the line that begins another branch. */
  function UpToBranch<L>(i: L, first: File<L>, earlier: Branches<L>): seq<Source<L>> {
    [Source(IfDirective, i)] + (All(first) + AllBranches(earlier))
  }

  /** Before a further branch begins, the checkpoint holds the stack from before the group. */
  lemma {:induction false} HeldBeforeBranch<B, L>(step: Step<B, L>, s: State<B>, i: L, first: File<L>,
                                                  earlier: Branches<L>, n: int)
    ensures var held := Replay(step, s, UpToBranch(i, first, earlier), n).saved;
            held != [] && Pop(held) == s.saved && Top(held).beforeIf == s.stack
  {
    var s1 := Update(step, s, Source(IfDirective, i), n);
    ReplayFirst(step, s, Source(IfDirective, i), All(first) + AllBranches(earlier), n);
    ReplaySplit(step, s1, All(first), AllBranches(earlier), n + 1);
    SavedRestored(step, s1, first, n + 1);
    HeldThroughBranches(step, Replay(step, s1, All(first), n + 1), earlier, n + 1 + |All(first)|);
  }

  lemma {:induction false} HeldThroughBranches<B, L>(step: Step<B, L>, s: State<B>, b: Branches<L>, n: int)
    requires s.saved != []
    ensures var held := Replay(step, s, AllBranches(b), n).saved;
            held != [] && Pop(held) == Pop(s.saved) && Top(held).beforeIf == Top(s.saved).beforeIf
    decreases b
  {
    if b.Branch? {
      var other := Source(ElseDirective, b.elseLine);
      var s1 := Update(step, s, other, n);
      ReplayFirst(step, s, other, All(b.body) + AllBranches(b.more), n);
      ReplaySplit(step, s1, All(b.body), AllBranches(b.more), n + 1);
      SavedRestored(step, s1, b.body, n + 1);
      HeldThroughBranches(step, Replay(step, s1, All(b.body), n + 1), b.more, n + 1 + |All(b.body)|);
    }
  }

  /**
   Every #else or #elif goes back to the stack before the #if line: whatever the first branch and
   the branches before it did, the line is read on that stack.
   */
  lemma ElseGoesBack<B, L>(step: Step<B, L>, s: State<B>, i: L, first: File<L>, earlier: Branches<L>, l: L, n: int)
    ensures var group := UpToBranch(i, first, earlier);
            Replay(step, s, group + [Source(ElseDirective, l)], n).stack == step(s.stack, l, n + |group|)
  {
    var group := UpToBranch(i, first, earlier);
    HeldBeforeBranch(step, s, i, first, earlier, n);
    ReplaySplit(step, s, group, [Source(ElseDirective, l)], n);
    ReplayFirst(step, Replay(step, s, group, n), Source(ElseDirective, l), [], n + |group|);
  }

  /** So the blocks that end on the line and in its branch are those that end when it is read from there. */
  lemma BranchEndsFromThere<B, L>(step: Step<B, L>, ended: Step<B, L>, s: State<B>, i: L, first: File<L>,
                                  earlier: Branches<L>, l: L, body: seq<Source<L>>, n: int)
    returns (s': State<B>)
    ensures var group := UpToBranch(i, first, earlier);
            var k, upTo := n + |group|, group + [Source(ElseDirective, l)];
            && s'.stack == step(s.stack, l, k)
            && Replay(step, s, upTo + body, n) == Replay(step, s', body, k + 1)
            && EndedAll(step, ended, s, upTo + body, n)
                 == EndedAll(step, ended, s, group, n) + ended(s.stack, l, k) + EndedAll(step, ended, s', body, k + 1)
  {
    var group, line := UpToBranch(i, first, earlier), Source(ElseDirective, l);
    var upTo := group + [line];
    s' := Replay(step, s, upTo, n);
    ElseGoesBack(step, s, i, first, earlier, l, n);
    HeldBeforeBranch(step, s, i, first, earlier, n);
    ReplaySplit(step, s, upTo, body, n);
    EndedSplit(step, ended, s, upTo, body, n);
    EndedLast(step, ended, s, group, line, n);
  }

  /** Outside of any group #else, #elif and #endif are lines like any other. */
  lemma StrayDirective<B, L>(step: Step<B, L>, s: State<B>, d: Directive, l: L, n: int)
    requires s.saved == [] && !d.IfDirective?
    ensures Update(step, s, Source(d, l), n) == State(step(s.stack, l, n), [])
  {
  }

  // ---------------------------------------------------------------- branch erasure

  /**
   What is needed of a step: on stacks of the same view it has results of the same view,
   whatever the line number, and a line that is quiet for a stack keeps its view.
   */
  ghost predicate Lawful<B(!new), L(!new), V(!new)>(step: Step<B, L>, view: seq<B> -> V, quiet: (L, seq<B>) -> bool) {
    && (forall s, t, l, n, m :: view(s) == view(t) ==> view(step(s, l, n)) == view(step(t, l, m)))
    && (forall s, t, l :: view(s) == view(t) ==> quiet(l, s) == quiet(l, t))
    && (forall s, l, n :: quiet(l, s) ==> view(step(s, l, n)) == view(s))
  }

  /** Every #if and #endif line outside dropped branches is quiet where it is read. */
  ghost predicate DirectivesQuiet<B, L>(step: Step<B, L>, quiet: (L, seq<B>) -> bool, f: File<L>, stack: seq<B>)
    decreases f
  {
    match f
    case Done => true
    case Text(l, next) => DirectivesQuiet(step, quiet, next, step(stack, l, 0))
    case Group(i, first, _, e, next) =>
      var after := Replay(step, State(stack, []), Kept(first), 0).stack;
      && quiet(i, stack) && DirectivesQuiet(step, quiet, first, stack)
      && quiet(e, after) && DirectivesQuiet(step, quiet, next, after)
  }

  lemma {:induction false} KeptSame<B(!new), L(!new), V(!new)>(step: Step<B, L>, view: seq<B> -> V,
      quiet: (L, seq<B>) -> bool, f: File<L>, s: State<B>, t: State<B>, n: int, m: int)
    requires Lawful(step, view, quiet) && view(s.stack) == view(t.stack)
    ensures view(Replay(step, s, Kept(f), n).stack) == view(Replay(step, t, Kept(f), m).stack)
    decreases f
  {
    match f
    case Done =>
    case Text(l, next) =>
      var line := Source(NoDirective, l);
      ReplayFirst(step, s, line, Kept(next), n);
      ReplayFirst(step, t, line, Kept(next), m);
      KeptSame(step, view, quiet, next, Update(step, s, line, n), Update(step, t, line, m), n + 1, m + 1);
    case Group(_, first, _, _, next) =>
      var s1, t1 := Replay(step, s, Kept(first), n), Replay(step, t, Kept(first), m);
      KeptSame(step, view, quiet, first, s, t, n, m);
      KeptSame(step, view, quiet, next, s1, t1, n + |Kept(first)|, m + |Kept(first)|);
      KeptGroup(step, f, s, n);
      KeptGroup(step, f, t, m);
  }

  lemma KeptGroup<B, L>(step: Step<B, L>, f: File<L>, s: State<B>, n: int)
    requires f.Group?
    ensures Replay(step, s, Kept(f), n) ==
            Replay(step, Replay(step, s, Kept(f.first), n), Kept(f.next), n + |Kept(f.first)|)
  {
    ReplaySplit(step, s, Kept(f.first), Kept(f.next), n);
  }

  lemma {:induction false} QuietSame<B(!new), L(!new), V(!new)>(step: Step<B, L>, view: seq<B> -> V,
      quiet: (L, seq<B>) -> bool, f: File<L>, s: seq<B>, t: seq<B>)
    requires Lawful(step, view, quiet) && view(s) == view(t) && DirectivesQuiet(step, quiet, f, s)
    ensures DirectivesQuiet(step, quiet, f, t)
    decreases f
  {
    match f
    case Done =>
    case Text(l, next) =>
      QuietSame(step, view, quiet, next, step(s, l, 0), step(t, l, 0));
    case Group(i, first, _, e, next) =>
      QuietSame(step, view, quiet, first, s, t);
      KeptSame(step, view, quiet, first, State(s, []), State(t, []), 0, 0);
      QuietSame(step, view, quiet, next, Replay(step, State(s, []), Kept(first), 0).stack,
                Replay(step, State(t, []), Kept(first), 0).stack);
  }

  /**
   Branch erasure: with quiet directive lines, the whole file leaves the same stack as the
   file with only the first branch of every group, from any two states with the same stack.
   */
  lemma {:induction false} ErasingBranches<B(!new), L(!new), V(!new)>(step: Step<B, L>, view: seq<B> -> V,
      quiet: (L, seq<B>) -> bool, f: File<L>, s: State<B>, t: State<B>, n: int, m: int)
    requires Lawful(step, view, quiet) && view(s.stack) == view(t.stack) && DirectivesQuiet(step, quiet, f, s.stack)
    ensures view(Replay(step, s, All(f), n).stack) == view(Replay(step, t, Kept(f), m).stack)
    decreases f, 1
  {
    match f
    case Done =>
    case Text(_, _) => ErasingLine(step, view, quiet, f, s, t, n, m);
    case Group(_, _, _, _, _) => ErasingGroup(step, view, quiet, f, s, t, n, m);
  }

  lemma {:induction false} ErasingLine<B(!new), L(!new), V(!new)>(step: Step<B, L>, view: seq<B> -> V,
      quiet: (L, seq<B>) -> bool, f: File<L>, s: State<B>, t: State<B>, n: int, m: int)
    requires Lawful(step, view, quiet) && view(s.stack) == view(t.stack) && f.Text?
             && DirectivesQuiet(step, quiet, f, s.stack)
    ensures view(Replay(step, s, All(f), n).stack) == view(Replay(step, t, Kept(f), m).stack)
    decreases f.next, 2
  {
    var line := Source(NoDirective, f.line);
    ReplayFirst(step, s, line, All(f.next), n);
    ReplayFirst(step, t, line, Kept(f.next), m);
    QuietSame(step, view, quiet, f.next, step(s.stack, f.line, 0), step(s.stack, f.line, n));
    ErasingBranches(step, view, quiet, f.next, Update(step, s, line, n), Update(step, t, line, m), n + 1, m + 1);
  }

  lemma {:induction false} ErasingGroup<B(!new), L(!new), V(!new)>(step: Step<B, L>, view: seq<B> -> V,
      quiet: (L, seq<B>) -> bool, f: File<L>, s: State<B>, t: State<B>, n: int, m: int)
    requires Lawful(step, view, quiet) && view(s.stack) == view(t.stack) && f.Group?
             && DirectivesQuiet(step, quiet, f, s.stack)
    ensures view(Replay(step, s, All(f), n).stack) == view(Replay(step, t, Kept(f), m).stack)
    decreases f, 0
  {
    var s', k := AfterGroup(step, s, f.ifLine, f.first, f.others, f.endLine, f.next, n);
    ReplaySplit(step, t, Kept(f.first), Kept(f.next), m);
    ErasingFirst(step, view, quiet, f, s, s'.stack, t, n, m, k - 1);
    ErasingBranches(step, view, quiet, f.next, s', Replay(step, t, Kept(f.first), m), k, m + |Kept(f.first)|);
  }

  /** The #if line, the first branch and the #endif line do what the kept first branch does. */
  lemma {:induction false} ErasingFirst<B(!new), L(!new), V(!new)>(step: Step<B, L>, view: seq<B> -> V,
      quiet: (L, seq<B>) -> bool, f: File<L>, s: State<B>, atEnd: seq<B>, t: State<B>, n: int, m: int, k: int)
    requires Lawful(step, view, quiet) && view(s.stack) == view(t.stack) && f.Group?
             && DirectivesQuiet(step, quiet, f, s.stack)
    requires var s1 := Update(step, s, Source(IfDirective, f.ifLine), n);
             atEnd == step(Replay(step, s1, All(f.first), n + 1).stack, f.endLine, k)
    ensures DirectivesQuiet(step, quiet, f.next, atEnd)
    ensures view(atEnd) == view(Replay(step, t, Kept(f.first), m).stack)
    decreases f.first, 2
  {
    var s1 := Update(step, s, Source(IfDirective, f.ifLine), n);
    QuietSame(step, view, quiet, f.first, s.stack, s1.stack);
    ErasingBranches(step, view, quiet, f.first, s1, t, n + 1, m);
    KeptSame(step, view, quiet, f.first, State(s.stack, []), t, 0, m);
    var after := Replay(step, State(s.stack, []), Kept(f.first), 0).stack;
    var end := Replay(step, s1, All(f.first), n + 1).stack;
    assert view(after) == view(end);
    assert view(atEnd) == view(end);
    QuietSame(step, view, quiet, f.next, after, atEnd);
  }

  // ---------------------------------------------------------------- exactly when

  /** For lines that can be directives, being quiet is leaving the stack the same. */
  ghost predicate Sharp<B(!new), L(!new), V(!new)>(step: Step<B, L>, view: seq<B> -> V,
      quiet: (L, seq<B>) -> bool, directive: L -> bool) {
    forall s, l, n :: directive(l) ==> (quiet(l, s) <==> view(step(s, l, n)) == view(s))
  }

  /** The #if and #endif lines outside dropped branches are lines that can be directives. */
  predicate Directives<L>(directive: L -> bool, f: File<L>) {
    match f
    case Done => true
    case Text(_, next) => Directives(directive, next)
    case Group(i, first, _, e, next) =>
      directive(i) && Directives(directive, first) && directive(e) && Directives(directive, next)
  }

  /**
   Reading `f` from `s` and reading its kept lines from `t` agree wherever both can be looked at:
   after every #if line, all through every first branch, and after every group.
   */
  ghost predicate InStep<B(!new), L(!new), V(!new)>(step: Step<B, L>, view: seq<B> -> V, f: File<L>,
      s: State<B>, t: State<B>, n: int, m: int)
    decreases f
  {
    match f
    case Done => true
    case Text(l, next) =>
      var line := Source(NoDirective, l);
      InStep(step, view, next, Update(step, s, line, n), Update(step, t, line, m), n + 1, m + 1)
    case Group(i, first, others, e, next) =>
      var group := All(Group(i, first, others, e, Done));
      var s1, s2 := Update(step, s, Source(IfDirective, i), n), Replay(step, s, group, n);
      var t2 := Replay(step, t, Kept(first), m);
      && view(s1.stack) == view(t.stack) && InStep(step, view, first, s1, t, n + 1, m)
      && view(s2.stack) == view(t2.stack) && InStep(step, view, next, s2, t2, n + |group|, m + |Kept(first)|)
  }

  /** Both readings go in step if and only if every directive line is quiet where it stands. */
  lemma {:induction false} GoInStep<B(!new), L(!new), V(!new)>(step: Step<B, L>, view: seq<B> -> V,
      quiet: (L, seq<B>) -> bool, directive: L -> bool, f: File<L>, s: State<B>, t: State<B>, n: int, m: int)
    requires Lawful(step, view, quiet) && Sharp(step, view, quiet, directive)
    requires Directives(directive, f) && view(s.stack) == view(t.stack)
    ensures InStep(step, view, f, s, t, n, m) <==> DirectivesQuiet(step, quiet, f, t.stack)
    decreases f, 1
  {
    match f
    case Done =>
    case Text(l, next) =>
      var line := Source(NoDirective, l);
      GoInStep(step, view, quiet, directive, next, Update(step, s, line, n), Update(step, t, line, m), n + 1, m + 1);
      QuietAlike(step, view, quiet, next, step(t.stack, l, 0), step(t.stack, l, m));
    case Group(_, _, _, _, _) => GroupInStep(step, view, quiet, directive, f, s, t, n, m);
  }

  lemma QuietAlike<B(!new), L(!new), V(!new)>(step: Step<B, L>, view: seq<B> -> V,
      quiet: (L, seq<B>) -> bool, f: File<L>, s: seq<B>, t: seq<B>)
    requires Lawful(step, view, quiet) && view(s) == view(t)
    ensures DirectivesQuiet(step, quiet, f, s) <==> DirectivesQuiet(step, quiet, f, t)
  {
    if DirectivesQuiet(step, quiet, f, s) {
      QuietSame(step, view, quiet, f, s, t);
    }
    if DirectivesQuiet(step, quiet, f, t) {
      QuietSame(step, view, quiet, f, t, s);
    }
  }

  /** The #if line of a group is in step if and only if it is quiet. */
  lemma IfInStep<B(!new), L(!new), V(!new)>(step: Step<B, L>, view: seq<B> -> V,
      quiet: (L, seq<B>) -> bool, directive: L -> bool, line: L, s: seq<B>, t: seq<B>, n: int)
    requires Lawful(step, view, quiet) && Sharp(step, view, quiet, directive) && directive(line) && view(s) == view(t)
    ensures view(step(s, line, n)) == view(t) <==> quiet(line, t)
  {
    assert view(t) == view(s);
  }

  /** A group, by its parts. */
  lemma {:induction false} GroupInStep<B(!new), L(!new), V(!new)>(step: Step<B, L>, view: seq<B> -> V,
      quiet: (L, seq<B>) -> bool, directive: L -> bool, f: File<L>, s: State<B>, t: State<B>, n: int, m: int)
    requires Lawful(step, view, quiet) && Sharp(step, view, quiet, directive)
    requires Directives(directive, f) && view(s.stack) == view(t.stack) && f.Group?
    ensures InStep(step, view, f, s, t, n, m) <==> DirectivesQuiet(step, quiet, f, t.stack)
    decreases f, 0
  {
    var group := All(Group(f.ifLine, f.first, f.others, f.endLine, Done));
    var s1, s2 := Update(step, s, Source(IfDirective, f.ifLine), n), Replay(step, s, group, n);
    var t2 := Replay(step, t, Kept(f.first), m);
    IfInStep(step, view, quiet, directive, f.ifLine, s.stack, t.stack, n);
    if quiet(f.ifLine, t.stack) {
      GoInStep(step, view, quiet, directive, f.first, s1, t, n + 1, m);
      if DirectivesQuiet(step, quiet, f.first, t.stack) {
        var after := Replay(step, State(t.stack, []), Kept(f.first), 0).stack;
        EndInStep(step, view, quiet, directive, f, s, t, n, m);
        if quiet(f.endLine, after) {
          GoInStep(step, view, quiet, directive, f.next, s2, t2, n + |group|, m + |Kept(f.first)|);
          QuietAlike(step, view, quiet, f.next, after, t2.stack);
        }
      }
    }
  }

  /** The #endif line of a group whose other directives are quiet is in step if and only if it is quiet. */
  lemma EndInStep<B(!new), L(!new), V(!new)>(step: Step<B, L>, view: seq<B> -> V,
      quiet: (L, seq<B>) -> bool, directive: L -> bool, f: File<L>, s: State<B>, t: State<B>, n: int, m: int)
    requires Lawful(step, view, quiet) && Sharp(step, view, quiet, directive)
    requires f.Group? && directive(f.endLine) && view(s.stack) == view(t.stack)
    requires quiet(f.ifLine, t.stack) && DirectivesQuiet(step, quiet, f.first, t.stack)
    ensures var s2 := Replay(step, s, All(Group(f.ifLine, f.first, f.others, f.endLine, Done)), n);
            var t2 := Replay(step, t, Kept(f.first), m);
            var after := Replay(step, State(t.stack, []), Kept(f.first), 0).stack;
            view(after) == view(t2.stack) && (view(s2.stack) == view(t2.stack) <==> quiet(f.endLine, after))
  {
    var s1 := Update(step, s, Source(IfDirective, f.ifLine), n);
    var s', k := AfterGroup(step, s, f.ifLine, f.first, f.others, f.endLine, Done, n);
    var end := Replay(step, s1, All(f.first), n + 1).stack;
    var t2 := Replay(step, t, Kept(f.first), m);
    var after := Replay(step, State(t.stack, []), Kept(f.first), 0).stack;
    QuietSame(step, view, quiet, f.first, t.stack, s1.stack);
    ErasingBranches(step, view, quiet, f.first, s1, t, n + 1, m);
    KeptSame(step, view, quiet, f.first, State(t.stack, []), t, 0, m);
    IfInStep(step, view, quiet, directive, f.endLine, end, t2.stack, k - 1);
  }
}
