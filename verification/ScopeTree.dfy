/**
 Block-structured text and the nesting tracker: what every block on the tracker's stack is, in
 terms of the scopes of the text it has read.
 */
module ScopeTree {
  import opened Wrappers
  import opened ConditionalGroups
  import opened NestingModel

  // ---------------------------------------------------------------- text as scopes

  /** A class head, with the label in the text after it and the label on what is left of its line. */
  datatype Declaration = Declaration(
    name: string,
    isStruct: bool,
    line: int,
    inside: Option<Access>,
    outside: Option<Access>)

  datatype Head = OfNamespace(name: string, line: int) | OfClass(declaration: Declaration)

  /** What tells the tracker something about the innermost block without opening or closing one. */
  datatype Mark =
    | Break(parenChange: int, asmStart: bool)   // a line begins
    | Label(access: Access)
    | Colon                                     // a bare colon
    | Mention(declaration: Declaration)         // a class head among arguments, within parentheses

  datatype Scope =
    | Semi                                                // the end of a statement
    | Paren                                               // a closing parenthesis
    | Note(mark: Mark)
    | Forward(head: Head, marks: seq<Mark>, semi: bool)   // a head that a semicolon or a parenthesis ends
    | Braced(opener: Option<Head>, marks: seq<Mark>, asm: bool, body: Scopes)   // the marks stand before the brace

  datatype Scopes = Nil | Cons(first: Scope, rest: Scopes)

  /** What the tracker notices, in the order in which it does. */
  datatype Event = Begins(head: Head) | Noted(mark: Mark) | Open(asm: bool) | Close | EndStatement | EndParen

  function EventOf(m: Mark): Event {
    if m.Mention? then Begins(OfClass(m.declaration)) else Noted(m)
  }

  function MarkEvents(marks: seq<Mark>): (es: seq<Event>)
    ensures |es| == |marks|
  {
    seq(|marks|, i requires 0 <= i < |marks| => EventOf(marks[i]))
  }

  /** Everything before the body of a braced scope. */
  function Lead(s: Scope): (es: seq<Event>)
    requires s.Braced?
    ensures |es| > 0
  {
    (if s.opener.None? then [] else [Begins(s.opener.value)] + MarkEvents(s.marks)) + [Open(s.asm)]
  }

  function Events(s: Scopes): seq<Event> {
    match s
    case Nil => []
    case Cons(first, rest) => EventsOf(first) + Events(rest)
  }

  function EventsOf(s: Scope): (es: seq<Event>)
    ensures |es| > 0
  {
    match s
    case Semi => [EndStatement]
    case Paren => [EndParen]
    case Note(mark) => [EventOf(mark)]
    case Forward(head, marks, semi) => [Begins(head)] + MarkEvents(marks) + [if semi then EndStatement else EndParen]
    case Braced(_, _, _, body) => Lead(s) + (Events(body) + [Close])
  }

  // ---------------------------------------------------------------- blocks and marks

  /** The block of a head that has just been read. */
  function HeadBlock(head: Head): Block {
    match head
    case OfNamespace(name, line) => NewBlock(Namespace(name), line, false, NoAsm)
    case OfClass(d) =>
      var b := NewBlock(Class(d.name, d.isStruct), d.line, false, NoAsm);
      if d.inside.Some? then b.(access := d.inside.value) else b
  }

  function BraceBlock(asm: bool): Block {
    NewBlock(Plain, 0, true, if asm then BlockAsm else NoAsm)
  }

  /** The access label in a mark. */
  function LabelIn(m: Mark): Option<Access> {
    match m
    case Label(access) => Some(access)
    case Mention(d) => d.outside
    case _ => None
  }

  /** What a mark changes in the innermost block. */
  function Touch(b: Block, m: Mark): Block {
    match m
    case Break(parenChange, asmStart) =>
      var c := b.(openParens := b.openParens + parenChange);
      c.(asm := NextAsm(c, parenChange, asmStart))
    case Colon => if !b.seenOpenBrace && b.kind.Class? then b.(derived := true) else b
    case _ => if b.kind.Class? && LabelIn(m).Some? then b.(access := LabelIn(m).value) else b
  }

  function TouchAll(b: Block, marks: seq<Mark>): Block
    decreases |marks|
  {
    if marks == [] then b else Touch(TouchAll(b, Pop(marks)), Top(marks))
  }

  /** The stack with its innermost block touched by the marks. */
  function Touched(stack: seq<Block>, marks: seq<Mark>): (r: seq<Block>)
    ensures |r| == |stack|
  {
    if stack == [] then [] else SetTop(stack, TouchAll(Top(stack), marks))
  }

  /** The block of a braced scope right after its brace. */
  function Inner(s: Scope): Block
    requires s.Braced?
  {
    if s.opener.None? then BraceBlock(s.asm) else TouchAll(HeadBlock(s.opener.value), s.marks).(seenOpenBrace := true)
  }

  // What marks amount to.

  function LastLabel(marks: seq<Mark>, otherwise: Access): Access
    decreases |marks|
  {
    if marks == [] then otherwise
    else if LabelIn(Top(marks)).Some? then LabelIn(Top(marks)).value
    else LastLabel(Pop(marks), otherwise)
  }

  function ParenSum(marks: seq<Mark>): int
    decreases |marks|
  {
    if marks == [] then 0
    else ParenSum(Pop(marks)) + if Top(marks).Break? then Top(marks).parenChange else 0
  }

  function Breaks(marks: seq<Mark>): nat
    decreases |marks|
  {
    if marks == [] then 0 else Breaks(Pop(marks)) + if Top(marks).Break? then 1 else 0
  }

  /** Marks add up: the last label, the parentheses, and whether a base was named. */
  lemma {:induction false} TouchAllMeans(b: Block, marks: seq<Mark>)
    ensures var c := TouchAll(b, marks);
            && c.kind == b.kind && c.startLine == b.startLine && c.seenOpenBrace == b.seenOpenBrace
            && c.access == (if b.kind.Class? then LastLabel(marks, b.access) else b.access)
            && c.openParens == b.openParens + ParenSum(marks)
            && c.derived == (b.derived || (!b.seenOpenBrace && b.kind.Class? && Colon in marks))
    decreases |marks|
  {
    if marks != [] {
      TouchAllMeans(b, Pop(marks));
      assert marks == Pop(marks) + [Top(marks)];
    }
  }

  /** Lines that close the parentheses they open do not change the inline assembly state any more. */
  predicate Settled(b: Block) {
    b.asm == NoAsm || b.asm == BlockAsm || (b.asm == InsideAsm && b.openParens != 0)
  }

  predicate Balanced(m: Mark) {
    m.Break? ==> m.parenChange == 0
  }

  /** The inline assembly state after some lines that close the parentheses they open. */
  lemma {:induction false} BalancedAsm(b: Block, marks: seq<Mark>)
    requires forall m | m in marks :: Balanced(m)
    ensures TouchAll(b, marks).openParens == b.openParens
    ensures TouchAll(b, marks).asm == if Settled(b) || Breaks(marks) == 0 then b.asm
                                      else if Breaks(marks) == 1 && b.asm == InsideAsm then EndAsm
                                      else NoAsm
    decreases |marks|
  {
    if marks != [] {
      BalancedAsm(b, Pop(marks));
      assert Top(marks) in marks;
    }
  }

  /** Where no line starts inline assembly, blocks outside of it stay outside, whatever the parentheses. */
  lemma {:induction false} NoAsmStarts(b: Block, marks: seq<Mark>)
    requires b.asm == NoAsm || b.asm == BlockAsm
    requires forall m | m in marks :: m.Break? ==> !m.asmStart
    ensures TouchAll(b, marks).asm == b.asm
    decreases |marks|
  {
    if marks != [] {
      NoAsmStarts(b, Pop(marks));
      assert Top(marks) in marks;
    }
  }

  /** Inline assembly that a line starts lasts as long as its parentheses are open. */
  lemma {:induction false} AsmLasts(b: Block, first: Mark, marks: seq<Mark>)
    requires (b.asm == NoAsm || b.asm == EndAsm) && b.openParens == 0 && first == Break(1, true)
    requires forall k | 0 < k <= |marks| :: ParenSum(marks[..k]) != -1
    ensures TouchAll(Touch(b, first), marks).asm == InsideAsm
    ensures TouchAll(Touch(b, first), marks).openParens == 1 + ParenSum(marks)
    decreases |marks|
  {
    if marks != [] {
      assert forall k | 0 < k < |marks| :: Pop(marks)[..k] == marks[..k];
      AsmLasts(b, first, Pop(marks));
      assert marks[..|marks|] == marks;
    }
  }

  lemma {:induction false} TouchJoin(b: Block, m: Mark, marks: seq<Mark>)
    ensures TouchAll(TouchAll(b, [m]), marks) == TouchAll(b, [m] + marks)
    decreases |marks|
  {
    if marks == [] {
      assert [m] + marks == [m];
    } else {
      assert Pop([m] + marks) == [m] + Pop(marks) && Top([m] + marks) == Top(marks);
      TouchJoin(b, m, Pop(marks));
    }
  }

  // ---------------------------------------------------------------- events on the stack

  /** A class may start here: the innermost block has no open parenthesis. */
  predicate Free(stack: seq<Block>) {
    stack == [] || Top(stack).openParens == 0
  }

  function React(stack: seq<Block>, e: Event): seq<Block> {
    match e
    case Begins(head) =>
      if head.OfNamespace? || Free(stack) then stack + [HeadBlock(head)]
      else SetTop(stack, Touch(Top(stack), Mention(head.declaration)))
    case Noted(mark) => if stack == [] then [] else SetTop(stack, Touch(Top(stack), mark))
    case Open(asm) =>
      if SeenOpenBrace(stack) then stack + [BraceBlock(asm)] else SetTop(stack, Top(stack).(seenOpenBrace := true))
    case Close => if stack == [] then stack else Pop(stack)
    case _ => if SeenOpenBrace(stack) then stack else Pop(stack)
  }

  /** The block an event ends, if it ends one. */
  function Closing(stack: seq<Block>, e: Event): seq<Block> {
    if e.Close? && stack != [] then [Top(stack)] else []
  }

  function RunAll(step: (seq<Block>, Event) -> seq<Block>, stack: seq<Block>, es: seq<Event>): seq<Block>
    decreases |es|
  {
    if es == [] then stack else RunAll(step, step(stack, es[0]), es[1..])
  }

  /** What `out` gives at every event of a run. */
  function OutputAll(step: (seq<Block>, Event) -> seq<Block>, out: (seq<Block>, Event) -> seq<Block>,
                     stack: seq<Block>, es: seq<Event>): seq<Block>
    decreases |es|
  {
    if es == [] then [] else out(stack, es[0]) + OutputAll(step, out, step(stack, es[0]), es[1..])
  }

  /** Reading `es` leads from one stack to another and ends the blocks `closed`. */
  ghost predicate Reads(stack: seq<Block>, es: seq<Event>, after: seq<Block>, closed: seq<Block>) {
    RunAll(React, stack, es) == after && OutputAll(React, Closing, stack, es) == closed
  }

  lemma {:induction false} RunSplit(step: (seq<Block>, Event) -> seq<Block>, out: (seq<Block>, Event) -> seq<Block>,
                                    stack: seq<Block>, a: seq<Event>, b: seq<Event>)
    ensures RunAll(step, stack, a + b) == RunAll(step, RunAll(step, stack, a), b)
    ensures OutputAll(step, out, stack, a + b)
         == OutputAll(step, out, stack, a) + OutputAll(step, out, RunAll(step, stack, a), b)
    decreases |a|
  {
    if a == [] {
      assert a + b == b;
    } else {
      assert (a + b)[1..] == a[1..] + b && (a + b)[0] == a[0];
      RunSplit(step, out, step(stack, a[0]), a[1..], b);
    }
  }

  lemma ReadsOn(stack: seq<Block>, a: seq<Event>, middle: seq<Block>, c1: seq<Block>,
                b: seq<Event>, after: seq<Block>, c2: seq<Block>)
    requires Reads(stack, a, middle, c1) && Reads(middle, b, after, c2)
    ensures Reads(stack, a + b, after, c1 + c2)
  {
    RunSplit(React, Closing, stack, a, b);
  }

  lemma ReadsOne(stack: seq<Block>, e: Event)
    ensures Reads(stack, [e], React(stack, e), Closing(stack, e))
  {
    assert [e][1..] == [];
  }

  // ---------------------------------------------------------------- scopes open and closed at a cut

  /** The marks that stand directly in `s`, not in a scope of its own, among its first `n` events. */
  function Own(s: Scopes, n: nat): seq<Mark> {
    match s
    case Nil => []
    case Cons(first, rest) => if n < |EventsOf(first)| then [] else OwnOf(first) + Own(rest, n - |EventsOf(first)|)
  }

  function OwnOf(s: Scope): seq<Mark> {
    if s.Note? then [s.mark] else []
  }

  function Marks(s: Scopes): seq<Mark> {
    match s
    case Nil => []
    case Cons(first, rest) => OwnOf(first) + Marks(rest)
  }

  /** The blocks of `s` that are open after its first `n` events, outermost first. */
  function OpenAt(s: Scopes, n: nat): seq<Block> {
    match s
    case Nil => []
    case Cons(first, rest) =>
      if n < |EventsOf(first)| then OpenIn(first, n) else OpenAt(rest, n - |EventsOf(first)|)
  }

  function OpenIn(s: Scope, n: nat): seq<Block>
    requires n < |EventsOf(s)|
  {
    match s
    case Forward(head, marks, _) => HeadOpen(head, marks, n)
    case Braced(opener, marks, _, body) =>
      if n >= |Lead(s)| then [TouchAll(Inner(s), Own(body, n - |Lead(s)|))] + OpenAt(body, n - |Lead(s)|)
      else if opener.Some? then HeadOpen(opener.value, marks, n)
      else []
    case _ => []
  }

  /** A head of which the first `n` events have been read. */
  function HeadOpen(head: Head, marks: seq<Mark>, n: nat): seq<Block>
    requires n <= |marks| + 1
  {
    if n == 0 then [] else [TouchAll(HeadBlock(head), marks[..n - 1])]
  }

  /** The blocks of `s` whose closing brace is among its first `n` events, inner before outer. */
  function ClosedAt(s: Scopes, n: nat): seq<Block> {
    match s
    case Nil => []
    case Cons(first, rest) =>
      if n < |EventsOf(first)| then ClosedIn(first, n) else EndedIn(first) + ClosedAt(rest, n - |EventsOf(first)|)
  }

  function ClosedIn(s: Scope, n: nat): seq<Block> {
    if s.Braced? && n >= |Lead(s)| then ClosedAt(s.body, n - |Lead(s)|) else []
  }

  /** Every braced block of `s` as it is at its end, children before their parent. */
  function PostOrder(s: Scopes): seq<Block> {
    match s
    case Nil => []
    case Cons(first, rest) => EndedIn(first) + PostOrder(rest)
  }

  function EndedIn(s: Scope): seq<Block> {
    if s.Braced? then PostOrder(s.body) + [TouchAll(Inner(s), Marks(s.body))] else []
  }

  /** Class heads within parentheses, and no others, are mentions; `stack` is where the text stands. */
  predicate Placed(stack: seq<Block>, s: Scopes)
    decreases s
  {
    match s
    case Nil => true
    case Cons(first, rest) => PlacedIn(stack, first) && Placed(Touched(stack, OwnOf(first)), rest)
  }

  predicate PlacedIn(stack: seq<Block>, s: Scope)
    decreases s
  {
    match s
    case Note(mark) => mark.Mention? ==> !Free(stack)
    case Forward(head, marks, _) => HeadPlaced(stack, head, marks)
    case Braced(opener, marks, _, body) =>
      (opener.Some? ==> HeadPlaced(stack, opener.value, marks)) && Placed(stack + [Inner(s)], body)
    case _ => true
  }

  predicate HeadPlaced(stack: seq<Block>, head: Head, marks: seq<Mark>) {
    (head.OfClass? ==> Free(stack)) && MarksPlaced(stack + [HeadBlock(head)], marks)
  }

  predicate MarksPlaced(stack: seq<Block>, marks: seq<Mark>) {
    forall i | 0 <= i < |marks| :: marks[i].Mention? ==> !Free(Touched(stack, marks[..i]))
  }

  // ---------------------------------------------------------------- reading a piece of text

  lemma {:induction false} ReadsMarks(stack: seq<Block>, marks: seq<Mark>)
    requires MarksPlaced(stack, marks)
    ensures Reads(stack, MarkEvents(marks), Touched(stack, marks), [])
    decreases |marks|
  {
    if marks != [] {
      var n := |marks| - 1;
      assert forall i | 0 <= i < n :: Pop(marks)[..i] == marks[..i];
      ReadsMarks(stack, Pop(marks));
      ReadsOne(Touched(stack, Pop(marks)), EventOf(marks[n]));
      assert marks[..n] == Pop(marks);
      assert MarkEvents(marks) == MarkEvents(Pop(marks)) + [EventOf(marks[n])];
      ReadsOn(stack, MarkEvents(Pop(marks)), Touched(stack, Pop(marks)), [], [EventOf(marks[n])],
              Touched(stack, marks), []);
    }
  }

  lemma TouchedLast(stack: seq<Block>, b: Block, marks: seq<Mark>)
    ensures Touched(stack + [b], marks) == stack + [TouchAll(b, marks)]
  {
  }

  /** Reading on inside a block. */
  lemma ReadsInto(stack: seq<Block>, a: seq<Event>, inner: Block,
                  b: seq<Event>, own: seq<Mark>, open: seq<Block>, closed: seq<Block>)
    requires Reads(stack, a, stack + [inner], [])
    requires Reads(stack + [inner], b, Touched(stack + [inner], own) + open, closed)
    ensures Reads(stack, a + b, stack + ([TouchAll(inner, own)] + open), closed)
  {
    TouchedLast(stack, inner, own);
    ReadsOn(stack, a, stack + [inner], [], b, stack + [TouchAll(inner, own)] + open, closed);
    assert stack + [TouchAll(inner, own)] + open == stack + ([TouchAll(inner, own)] + open);
    assert [] + closed == closed;
  }

  lemma HeadCut(head: Head, marks: seq<Mark>, n: nat)
    requires 0 < n <= |marks| + 1
    ensures ([Begins(head)] + MarkEvents(marks))[..n] == [Begins(head)] + MarkEvents(marks[..n - 1])
  {
  }

  /** A head and the first marks after it. */
  lemma ReadsHead(stack: seq<Block>, head: Head, marks: seq<Mark>, n: nat)
    requires HeadPlaced(stack, head, marks) && n <= |marks| + 1
    ensures Reads(stack, ([Begins(head)] + MarkEvents(marks))[..n], stack + HeadOpen(head, marks, n), [])
  {
    if n > 0 {
      var b, some := HeadBlock(head), marks[..n - 1];
      assert forall i | 0 <= i < n - 1 :: some[..i] == marks[..i];
      ReadsOne(stack, Begins(head));
      ReadsMarks(stack + [b], some);
      assert Touched(stack + [b], some) + [] == Touched(stack + [b], some);
      assert [TouchAll(b, some)] + [] == [TouchAll(b, some)];
      ReadsInto(stack, [Begins(head)], b, MarkEvents(some), some, [], []);
      HeadCut(head, marks, n);
    }
  }

  /** A head, its marks and the brace. */
  lemma ReadsLead(stack: seq<Block>, s: Scope)
    requires SeenOpenBrace(stack) && s.Braced? && PlacedIn(stack, s)
    ensures Reads(stack, Lead(s), stack + [Inner(s)], [])
  {
    if s.opener.None? {
      ReadsOne(stack, Open(s.asm));
      assert Lead(s) == [Open(s.asm)];
    } else {
      var es, n := [Begins(s.opener.value)] + MarkEvents(s.marks), |s.marks| + 1;
      var b := TouchAll(HeadBlock(s.opener.value), s.marks);
      ReadsHead(stack, s.opener.value, s.marks, n);
      assert es[..n] == es && s.marks[..|s.marks|] == s.marks;
      TouchAllMeans(HeadBlock(s.opener.value), s.marks);
      ReadsOne(stack + [b], Open(s.asm));
      ReadsOn(stack, es, stack + [b], [], [Open(s.asm)], stack + [Inner(s)], []);
    }
  }

  lemma ReadsForward(stack: seq<Block>, s: Scope)
    requires s.Forward? && PlacedIn(stack, s)
    ensures Reads(stack, EventsOf(s), stack, [])
  {
    var es, n := [Begins(s.head)] + MarkEvents(s.marks), |s.marks| + 1;
    var b := TouchAll(HeadBlock(s.head), s.marks);
    var end := if s.semi then EndStatement else EndParen;
    ReadsHead(stack, s.head, s.marks, n);
    assert es[..n] == es && s.marks[..|s.marks|] == s.marks;
    TouchAllMeans(HeadBlock(s.head), s.marks);
    ReadsOne(stack + [b], end);
    ReadsOn(stack, es, stack + [b], [], [end], stack, []);
  }

  lemma CutScopes(s: Scopes, n: nat)
    requires s.Cons? && n <= |Events(s)|
    ensures n < |EventsOf(s.first)| ==> Events(s)[..n] == EventsOf(s.first)[..n]
    ensures n >= |EventsOf(s.first)| ==>
              var m := n - |EventsOf(s.first)|;
              m <= |Events(s.rest)| && Events(s)[..n] == EventsOf(s.first) + Events(s.rest)[..m]
  {
  }

  lemma CutBraced(s: Scope, n: nat)
    requires s.Braced? && n < |EventsOf(s)|
    ensures n >= |Lead(s)| ==>
              var m := n - |Lead(s)|;
              m <= |Events(s.body)| && EventsOf(s)[..n] == Lead(s) + Events(s.body)[..m]
    ensures n < |Lead(s)| ==> EventsOf(s)[..n] == Lead(s)[..n]
  {
  }

  /** Past the end of the text nothing is open and every braced block is closed. */
  lemma {:induction false} FullCut(s: Scopes, n: nat)
    requires n >= |Events(s)|
    ensures Own(s, n) == Marks(s) && OpenAt(s, n) == [] && ClosedAt(s, n) == PostOrder(s)
    decreases s
  {
    if s.Cons? {
      FullCut(s.rest, n - |EventsOf(s.first)|);
    }
  }

  /**
   Reading any prefix of block-structured text where the innermost block has its brace: that
   block is touched by the marks of its own, above it stand exactly the scopes open at the cut,
   and ended are exactly the scopes closed before it, every field of every block included.
   */
  lemma {:induction false} PrefixOpensScopes(stack: seq<Block>, s: Scopes, n: nat)
    requires SeenOpenBrace(stack) && Placed(stack, s) && n <= |Events(s)|
    ensures Reads(stack, Events(s)[..n], Touched(stack, Own(s, n)) + OpenAt(s, n), ClosedAt(s, n))
    decreases s, 1
  {
    TouchedByNone(stack);
    if s.Cons? {
      var k := |EventsOf(s.first)|;
      CutScopes(s, n);
      if n < k {
        PrefixOfScope(stack, s.first, n);
      } else {
        var m := n - k;
        WholeScope(stack, s.first);
        TouchKeepsBrace(stack, OwnOf(s.first));
        PrefixOpensScopes(Touched(stack, OwnOf(s.first)), s.rest, m);
        ReadsTouched(stack, EventsOf(s.first), OwnOf(s.first), EndedIn(s.first),
                     Events(s.rest)[..m], Own(s.rest, m), OpenAt(s.rest, m), ClosedAt(s.rest, m));
        assert OpenAt(s, n) == OpenAt(s.rest, m) && Own(s, n) == OwnOf(s.first) + Own(s.rest, m);
      }
    }
  }

  lemma TouchedByNone(stack: seq<Block>)
    ensures Touched(stack, []) == stack
  {
  }

  lemma TouchKeepsBrace(stack: seq<Block>, marks: seq<Mark>)
    ensures SeenOpenBrace(Touched(stack, marks)) == SeenOpenBrace(stack)
  {
    if stack != [] {
      TouchAllMeans(Top(stack), marks);
    }
  }

  lemma TouchedJoin(stack: seq<Block>, own: seq<Mark>, more: seq<Mark>)
    requires |own| <= 1
    ensures Touched(Touched(stack, own), more) == Touched(stack, own + more)
  {
    if own == [] {
      assert own + more == more && Touched(stack, own) == stack;
    } else if stack != [] {
      assert own == [own[0]];
      TouchJoin(Top(stack), own[0], more);
    }
  }

  /** Reading on after a piece of text that left nothing open. */
  lemma ReadsTouched(stack: seq<Block>, a: seq<Event>, own: seq<Mark>, c1: seq<Block>,
                     b: seq<Event>, more: seq<Mark>, open: seq<Block>, c2: seq<Block>)
    requires |own| <= 1 && Reads(stack, a, Touched(stack, own), c1)
    requires Reads(Touched(stack, own), b, Touched(Touched(stack, own), more) + open, c2)
    ensures Reads(stack, a + b, Touched(stack, own + more) + open, c1 + c2)
  {
    var next := Touched(stack, own);
    ReadsOn(stack, a, next, c1, b, Touched(next, more) + open, c2);
    TouchedJoin(stack, own, more);
  }

  /** A scope of which a part is read, up to before its end. */
  lemma {:induction false} PrefixOfScope(stack: seq<Block>, s: Scope, n: nat)
    requires SeenOpenBrace(stack) && PlacedIn(stack, s) && n < |EventsOf(s)|
    ensures Reads(stack, EventsOf(s)[..n], stack + OpenIn(s, n), ClosedIn(s, n))
    decreases s, 0
  {
    match s
    case Forward(head, marks, _) =>
      ReadsHead(stack, head, marks, n);
      assert EventsOf(s)[..n] == ([Begins(head)] + MarkEvents(marks))[..n];
    case Braced(opener, marks, _, body) =>
      CutBraced(s, n);
      if n >= |Lead(s)| {
        var m := n - |Lead(s)|;
        ReadsLead(stack, s);
        PrefixOpensScopes(stack + [Inner(s)], body, m);
        ReadsInto(stack, Lead(s), Inner(s), Events(body)[..m], Own(body, m), OpenAt(body, m), ClosedAt(body, m));
      } else if opener.Some? {
        ReadsHead(stack, opener.value, marks, n);
        assert Lead(s)[..n] == ([Begins(opener.value)] + MarkEvents(marks))[..n];
      }
    case _ =>
  }

  /** A whole scope leaves nothing behind but its own mark. */
  lemma {:induction false} WholeScope(stack: seq<Block>, s: Scope)
    requires SeenOpenBrace(stack) && PlacedIn(stack, s)
    ensures Reads(stack, EventsOf(s), Touched(stack, OwnOf(s)), EndedIn(s))
    decreases s, 1
  {
    assert Touched(stack, []) == stack;
    match s
    case Forward(_, _, _) => ReadsForward(stack, s);
    case Braced(_, _, _, _) => WholeBlock(stack, s);
    case Note(mark) =>
      ReadsMarks(stack, [mark]);
      assert MarkEvents([mark]) == [EventOf(mark)];
    case Semi => ReadsOne(stack, EndStatement);
    case Paren => ReadsOne(stack, EndParen);
  }

  lemma {:induction false} WholeBlock(stack: seq<Block>, s: Scope)
    requires SeenOpenBrace(stack) && s.Braced? && PlacedIn(stack, s)
    ensures Reads(stack, EventsOf(s), stack, EndedIn(s))
    decreases s, 0
  {
    var next, last := stack + [Inner(s)], TouchAll(Inner(s), Marks(s.body));
    ReadsLead(stack, s);
    PrefixOpensScopes(next, s.body, |Events(s.body)|);
    FullCut(s.body, |Events(s.body)|);
    assert Events(s.body)[..|Events(s.body)|] == Events(s.body);
    TouchedLast(stack, Inner(s), Marks(s.body));
    assert stack + [last] + [] == stack + [last];
    ReadsBlock(stack, s, last, PostOrder(s.body));
  }

  lemma ReadsBlock(stack: seq<Block>, s: Scope, last: Block, closed: seq<Block>)
    requires s.Braced? && Reads(stack, Lead(s), stack + [Inner(s)], [])
    requires Reads(stack + [Inner(s)], Events(s.body), stack + [last], closed)
    ensures Reads(stack, EventsOf(s), stack, closed + [last])
  {
    ReadsOne(stack + [last], Close);
    ReadsOn(stack + [Inner(s)], Events(s.body), stack + [last], closed, [Close], stack, [last]);
    ReadsOn(stack, Lead(s), stack + [Inner(s)], [], Events(s.body) + [Close], stack, closed + [last]);
    assert [] + (closed + [last]) == closed + [last];
  }

  // ---------------------------------------------------------------- lines as events

  function NamespaceEvents(heads: seq<NamespaceHead>, ln: int): seq<Event>
    decreases |heads|
  {
    if heads == [] then []
    else
      [Begins(OfNamespace(heads[0].name, ln))] + (if heads[0].braced then [Open(false)] else [])
      + NamespaceEvents(heads[1..], ln)
  }

  /** A class head carries the labels of its line, since which one counts depends on whether it is taken. */
  function ClassEvents(line: Line, ln: int): seq<Event> {
    match line.classHead
    case Some(h) => [Begins(OfClass(Declaration(h.name, h.isStruct, ln, h.access, line.access)))]
    case None => if line.access.Some? then [Noted(Label(line.access.value))] else []
  }

  function TokenEvent(token: Token): Event {
    match token
    case OpenBrace(asm) => Open(asm)
    case CloseBrace => Close
    case Semicolon => EndStatement
    case CloseParen => EndParen
  }

  function TokenEvents(tokens: seq<Token>): (es: seq<Event>)
    ensures |es| == |tokens|
  {
    seq(|tokens|, i requires 0 <= i < |tokens| => TokenEvent(tokens[i]))
  }

  function HeadEvents(line: Line, ln: int): seq<Event> {
    [Noted(Break(line.parenChange, line.asmStart))] + NamespaceEvents(line.namespaces, ln)
    + (ClassEvents(line, ln) + ColonEvents(line))
  }

  function LineEvents(line: Line, ln: int): seq<Event> {
    HeadEvents(line, ln) + TokenEvents(line.tokens)
  }

  /** The events of a whole text that starts at line `ln`, when `events` gives those of one line. */
  function Spell(events: (Line, int) -> seq<Event>, lines: seq<Source<Line>>, ln: int): seq<Event> {
    if lines == [] then [] else Spell(events, Pop(lines), ln) + events(Top(lines).text, ln + |lines| - 1)
  }

  function TextEvents(lines: seq<Source<Line>>, ln: int): seq<Event> {
    Spell(LineEvents, lines, ln)
  }

  predicate NoDirectives(lines: seq<Source<Line>>) {
    forall k | 0 <= k < |lines| :: lines[k].directive == NoDirective
  }

  // ---------------------------------------------------------------- the tracker reads events

  lemma TokenReacts(stack: seq<Block>, token: Token)
    ensures Reads(stack, [TokenEvent(token)], Eat(stack, token),
                  if token.CloseBrace? && stack != [] then [Top(stack)] else [])
  {
    ReadsOne(stack, TokenEvent(token));
  }

  lemma {:induction false} TokensReact(stack: seq<Block>, tokens: seq<Token>)
    ensures Reads(stack, TokenEvents(tokens), EatAll(stack, tokens), EndedBy(stack, tokens))
    decreases |tokens|
  {
    if tokens != [] {
      var next := Eat(stack, tokens[0]);
      TokenReacts(stack, tokens[0]);
      TokensReact(next, tokens[1..]);
      ReadsOn(stack, [TokenEvent(tokens[0])], next, if tokens[0].CloseBrace? && stack != [] then [Top(stack)] else [],
              TokenEvents(tokens[1..]), EatAll(next, tokens[1..]), EndedBy(next, tokens[1..]));
      assert TokenEvents(tokens) == [TokenEvent(tokens[0])] + TokenEvents(tokens[1..]);
    }
  }

  lemma NamespaceReacts(stack: seq<Block>, head: NamespaceHead, ln: int)
    ensures var es := [Begins(OfNamespace(head.name, ln))] + if head.braced then [Open(false)] else [];
            Reads(stack, es, stack + [NewBlock(Namespace(head.name), ln, head.braced, NoAsm)], [])
  {
    var b := NewBlock(Namespace(head.name), ln, false, NoAsm);
    ReadsOne(stack, Begins(OfNamespace(head.name, ln)));
    if head.braced {
      ReadsOne(stack + [b], Open(false));
      ReadsOn(stack, [Begins(OfNamespace(head.name, ln))], stack + [b], [],
              [Open(false)], stack + [b.(seenOpenBrace := true)], []);
    } else {
      assert [Begins(OfNamespace(head.name, ln))] + [] == [Begins(OfNamespace(head.name, ln))];
    }
  }

  lemma {:induction false} NamespacesReact(stack: seq<Block>, heads: seq<NamespaceHead>, ln: int)
    ensures Reads(stack, NamespaceEvents(heads, ln), PushNamespaces(stack, heads, ln), [])
    decreases |heads|
  {
    if heads != [] {
      var next := stack + [NewBlock(Namespace(heads[0].name), ln, heads[0].braced, NoAsm)];
      var es := [Begins(OfNamespace(heads[0].name, ln))] + if heads[0].braced then [Open(false)] else [];
      NamespaceReacts(stack, heads[0], ln);
      NamespacesReact(next, heads[1..], ln);
      ReadsOn(stack, es, next, [], NamespaceEvents(heads[1..], ln), PushNamespaces(next, heads[1..], ln), []);
    }
  }

  function ColonEvents(line: Line): seq<Event> {
    if line.bareColon then [Noted(Colon)] else []
  }

  lemma ClassReacts(stack: seq<Block>, line: Line, ln: int)
    ensures var access := if TakesClass(stack, line) then line.classHead.value.access else line.access;
            Reads(stack, ClassEvents(line, ln), SetAccess(PushClass(stack, line, ln), access), [])
  {
    if ClassEvents(line, ln) != [] {
      ReadsOne(stack, ClassEvents(line, ln)[0]);
      assert ClassEvents(line, ln) == [ClassEvents(line, ln)[0]];
    }
  }

  lemma ColonReacts(stack: seq<Block>, line: Line)
    ensures Reads(stack, ColonEvents(line), CheckBegin(stack, line.bareColon), [])
  {
    ReadsOne(stack, Noted(Colon));
  }

  /** The check of a class head comes before its label, but touches another field. */
  lemma LabelsCommute(stack: seq<Block>, bareColon: bool, access: Option<Access>)
    ensures SetAccess(CheckBegin(stack, bareColon), access) == CheckBegin(SetAccess(stack, access), bareColon)
  {
  }

  lemma LabelsReact(stack: seq<Block>, line: Line, ln: int)
    ensures var access := if TakesClass(stack, line) then line.classHead.value.access else line.access;
            Reads(stack, ClassEvents(line, ln) + ColonEvents(line),
                  SetAccess(CheckBegin(PushClass(stack, line, ln), line.bareColon), access), [])
  {
    var access := if TakesClass(stack, line) then line.classHead.value.access else line.access;
    var next := SetAccess(PushClass(stack, line, ln), access);
    ClassReacts(stack, line, ln);
    ColonReacts(next, line);
    LabelsCommute(PushClass(stack, line, ln), line.bareColon, access);
    ReadsOn(stack, ClassEvents(line, ln), next, [], ColonEvents(line), CheckBegin(next, line.bareColon), []);
  }

  lemma CountReacts(stack: seq<Block>, line: Line)
    ensures Reads(stack, [Noted(Break(line.parenChange, line.asmStart))], CountParens(stack, line), [])
  {
    ReadsOne(stack, Noted(Break(line.parenChange, line.asmStart)));
  }

  /** What a line does before its braces are read. */
  lemma HeadsReact(stack: seq<Block>, line: Line, ln: int)
    ensures Reads(stack, HeadEvents(line, ln), Heads(stack, line, ln), [])
  {
    var start, names := [Noted(Break(line.parenChange, line.asmStart))], NamespaceEvents(line.namespaces, ln);
    var s1 := CountParens(stack, line);
    var s2 := PushNamespaces(s1, line.namespaces, ln);
    CountReacts(stack, line);
    NamespacesReact(s1, line.namespaces, ln);
    ReadsOn(stack, start, s1, [], names, s2, []);
    LabelsReact(s2, line, ln);
    ReadsOn(stack, start + names, s2, [], ClassEvents(line, ln) + ColonEvents(line), Heads(stack, line, ln), []);
  }

  /** A step that does to the stack what the events of the line do. */
  ghost predicate Follows(step: Step<Block, Line>, ended: Step<Block, Line>, events: (Line, int) -> seq<Event>) {
    forall stack: seq<Block>, line: Line, ln: int ::
      Reads(stack, events(line, ln), step(stack, line, ln), ended(stack, line, ln))
  }

  /** On every stack every line does what its events do, one after the other. */
  lemma FeedFollows()
    ensures Follows(Feed, Ended, LineEvents)
  {
    forall stack: seq<Block>, line: Line, ln: int
      ensures Reads(stack, LineEvents(line, ln), Feed(stack, line, ln), Ended(stack, line, ln))
    {
      var heads := Heads(stack, line, ln);
      HeadsReact(stack, line, ln);
      TokensReact(heads, line.tokens);
      ReadsOn(stack, HeadEvents(line, ln), heads, [],
              TokenEvents(line.tokens), EatAll(heads, line.tokens), EndedBy(heads, line.tokens));
    }
  }

  /** So does every sequence of lines without directives. */
  lemma {:induction false} ReplayFollows(step: Step<Block, Line>, ended: Step<Block, Line>,
                                         events: (Line, int) -> seq<Event>,
                                         s: State<Block>, lines: seq<Source<Line>>, ln: int)
    requires Follows(step, ended, events) && NoDirectives(lines)
    ensures Replay(step, s, lines, ln).saved == s.saved
    ensures Reads(s.stack, Spell(events, lines, ln), Replay(step, s, lines, ln).stack,
                  EndedAll(step, ended, s, lines, ln))
    decreases |lines|
  {
    if lines != [] {
      var before, line, k := Replay(step, s, Pop(lines), ln), Top(lines).text, ln + |lines| - 1;
      ReplayFollows(step, ended, events, s, Pop(lines), ln);
      ReplayLast(step, s, lines, ln);
      EndedLast(step, ended, s, Pop(lines), Top(lines), ln);
      assert Pop(lines) + [Top(lines)] == lines;
      ReadsOn(s.stack, Spell(events, Pop(lines), ln), before.stack, EndedAll(step, ended, s, Pop(lines), ln),
              events(line, k), step(before.stack, line, k), ended(before.stack, line, k));
    }
  }

  // ---------------------------------------------------------------- whole texts

  /**
   The tracker follows the scopes of the text. Any lines that spell a prefix of block-structured
   text, cut at the end of a line, lead to the stack they began with, its innermost block touched
   by the marks directly in it, and above it exactly the scopes open at the cut, outermost first;
   the blocks whose end was checked are the scopes closed before it, inner before outer.
   */
  lemma TextFollowsScopes(s: State<Block>, text: Scopes, lines: seq<Source<Line>>, ln: int)
    requires SeenOpenBrace(s.stack) && Placed(s.stack, text) && NoDirectives(lines)
    requires TextEvents(lines, ln) <= Events(text)
    ensures var n := |TextEvents(lines, ln)|;
            && Replay(Feed, s, lines, ln).stack == Touched(s.stack, Own(text, n)) + OpenAt(text, n)
            && EndedAll(Feed, Ended, s, lines, ln) == ClosedAt(text, n)
  {
    FeedFollows();
    ReplayFollows(Feed, Ended, LineEvents, s, lines, ln);
    PrefixOpensScopes(s.stack, text, |TextEvents(lines, ln)|);
    assert Events(text)[..|TextEvents(lines, ln)|] == TextEvents(lines, ln);
  }

  /** A complete text leaves the stack it began with, and ends every braced block once, children first. */
  lemma CompleteTextBalances(s: State<Block>, text: Scopes, lines: seq<Source<Line>>, ln: int)
    requires SeenOpenBrace(s.stack) && Placed(s.stack, text) && NoDirectives(lines)
    requires TextEvents(lines, ln) == Events(text)
    ensures Replay(Feed, s, lines, ln).stack == Touched(s.stack, Marks(text))
    ensures EndedAll(Feed, Ended, s, lines, ln) == PostOrder(text)
  {
    TextFollowsScopes(s, text, lines, ln);
    FullCut(text, |Events(text)|);
  }

  /** The class and namespace heads of `s` whose scopes are open after its first `n` events, outermost first. */
  function OpenHeads(s: Scopes, n: nat): seq<Head> {
    match s
    case Nil => []
    case Cons(first, rest) =>
      if n >= |EventsOf(first)| then OpenHeads(rest, n - |EventsOf(first)|)
      else if n == 0 then []
      else
        match first
        case Forward(head, _, _) => [head]
        case Braced(opener, _, _, body) =>
          (if opener.Some? then [opener.value] else [])
          + if n >= |Lead(first)| then OpenHeads(body, n - |Lead(first)|) else []
        case _ => []
  }

  /** The blocks that are reported are those of these heads: the same kinds, names and lines, in order. */
  predicate ReportsHeads(report: seq<Block>, heads: seq<Head>) {
    && |report| == |heads|
    && forall k | 0 <= k < |heads| ::
         match heads[k]
         case OfNamespace(name, line) => report[k].kind == Namespace(name) && report[k].startLine == line
         case OfClass(d) => report[k].kind == Class(d.name, d.isStruct) && report[k].startLine == d.line
  }

  lemma ReportsJoin(a: seq<Block>, b: seq<Block>, x: seq<Head>, y: seq<Head>)
    requires ReportsHeads(Incomplete(a), x) && ReportsHeads(Incomplete(b), y)
    ensures ReportsHeads(Incomplete(a + b), x + y)
  {
    IncompleteJoin(a, b);
    HeadsJoin(Incomplete(a), Incomplete(b), x, y);
  }

  lemma HeadsJoin(a: seq<Block>, b: seq<Block>, x: seq<Head>, y: seq<Head>)
    requires ReportsHeads(a, x) && ReportsHeads(b, y)
    ensures ReportsHeads(a + b, x + y)
  {
  }

  lemma HeadIsReported(head: Head, marks: seq<Mark>, more: seq<Mark>, seen: bool)
    ensures var b := TouchAll(TouchAll(HeadBlock(head), marks).(seenOpenBrace := seen), more);
            ReportsHeads(Incomplete([b]), [head])
  {
    var b := TouchAll(HeadBlock(head), marks).(seenOpenBrace := seen);
    TouchAllMeans(HeadBlock(head), marks);
    TouchAllMeans(b, more);
    IncompleteOne(TouchAll(b, more));
  }

  lemma BraceIsNotReported(asm: bool, marks: seq<Mark>)
    ensures Incomplete([TouchAll(BraceBlock(asm), marks)]) == []
  {
    TouchAllMeans(BraceBlock(asm), marks);
    IncompleteOne(TouchAll(BraceBlock(asm), marks));
  }

  lemma HeadOpenReported(head: Head, marks: seq<Mark>, n: nat)
    requires 0 < n <= |marks| + 1
    ensures ReportsHeads(Incomplete(HeadOpen(head, marks, n)), [head])
  {
    TouchAllMeans(HeadBlock(head), marks[..n - 1]);
    HeadIsReported(head, marks[..n - 1], [], false);
  }

  /** Of the scopes open at a cut, those with a head are reported. */
  lemma {:induction false} OpenHeadsReported(s: Scopes, n: nat)
    ensures ReportsHeads(Incomplete(OpenAt(s, n)), OpenHeads(s, n))
    decreases s, 0
  {
    if s.Cons? {
      if n >= |EventsOf(s.first)| {
        OpenHeadsReported(s.rest, n - |EventsOf(s.first)|);
      } else if s.first.Forward? && n > 0 {
        HeadOpenReported(s.first.head, s.first.marks, n);
      } else if s.first.Braced? && n >= |Lead(s.first)| {
        OpenBodyReported(s.first, n - |Lead(s.first)|);
      } else if s.first.Braced? && s.first.opener.Some? && n > 0 {
        HeadOpenReported(s.first.opener.value, s.first.marks, n);
      }
    }
  }

  lemma {:induction false} OpenBodyReported(s: Scope, m: nat)
    requires s.Braced?
    ensures ReportsHeads(Incomplete([TouchAll(Inner(s), Own(s.body, m))] + OpenAt(s.body, m)),
                         (if s.opener.Some? then [s.opener.value] else []) + OpenHeads(s.body, m))
    decreases s.body, 1
  {
    OpenHeadsReported(s.body, m);
    if s.opener.Some? {
      HeadIsReported(s.opener.value, s.marks, Own(s.body, m), true);
    } else {
      BraceIsNotReported(s.asm, Own(s.body, m));
    }
    ReportsJoin([TouchAll(Inner(s), Own(s.body, m))], OpenAt(s.body, m),
                if s.opener.Some? then [s.opener.value] else [], OpenHeads(s.body, m));
  }

  /**
   For a file that stops in the middle of a text, exactly the classes and namespaces that are open
   there are reported, outermost first, each with its name and the line of its head.
   */
  lemma CutTextIsReported(text: Scopes, lines: seq<Source<Line>>)
    requires Placed([], text) && NoDirectives(lines) && TextEvents(lines, 0) <= Events(text)
    ensures ReportsHeads(Incomplete(Replay(Feed, State([], []), lines, 0).stack),
                         OpenHeads(text, |TextEvents(lines, 0)|))
  {
    TextFollowsScopes(State([], []), text, lines, 0);
    assert [] + OpenAt(text, |TextEvents(lines, 0)|) == OpenAt(text, |TextEvents(lines, 0)|);
    OpenHeadsReported(text, |TextEvents(lines, 0)|);
  }

  // ---------------------------------------------------------------- when nothing is left behind

  /** An event that is no mark which changes the parentheses. */
  predicate KeepsParens(e: Event) {
    e.Noted? ==> Balanced(e.mark)
  }

  /** An event that labels nothing but a class it starts. */
  predicate Unlabelled(e: Event) {
    (e.Noted? ==> LabelIn(e.mark).None?) && (e.Begins? && e.head.OfClass? ==> e.head.declaration.outside.None?)
  }

  predicate StartsNoAsm(e: Event) {
    e.Noted? && e.mark.Break? ==> !e.mark.asmStart
  }

  lemma {:induction false} NamesAreNoMarks(heads: seq<NamespaceHead>, ln: int)
    ensures forall e | e in NamespaceEvents(heads, ln) :: e.Open? || (e.Begins? && e.head.OfNamespace?)
    decreases |heads|
  {
    if heads != [] {
      NamesAreNoMarks(heads[1..], ln);
    }
  }

  // What a line does not have is not among its events.

  lemma BalancedLine(line: Line, ln: int)
    requires line.parenChange == 0
    ensures forall e | e in LineEvents(line, ln) :: KeepsParens(e)
  {
    NamesAreNoMarks(line.namespaces, ln);
    assert forall e | e in TokenEvents(line.tokens) :: !e.Noted? && !e.Begins?;
  }

  lemma UnlabelledLine(line: Line, ln: int)
    requires line.access.None?
    ensures forall e | e in LineEvents(line, ln) :: Unlabelled(e)
  {
    NamesAreNoMarks(line.namespaces, ln);
    assert forall e | e in TokenEvents(line.tokens) :: !e.Noted? && !e.Begins?;
  }

  lemma AsmlessLine(line: Line, ln: int)
    requires !line.asmStart
    ensures forall e | e in LineEvents(line, ln) :: StartsNoAsm(e)
  {
    NamesAreNoMarks(line.namespaces, ln);
    assert forall e | e in TokenEvents(line.tokens) :: !e.Noted? && !e.Begins?;
  }

  lemma {:induction false} EventIsOnLine(events: (Line, int) -> seq<Event>, e: Event, lines: seq<Source<Line>>, ln: int)
    returns (k: nat)
    requires e in Spell(events, lines, ln)
    ensures k < |lines| && e in events(lines[k].text, ln + k)
    decreases |lines|
  {
    if e in Spell(events, Pop(lines), ln) {
      k := EventIsOnLine(events, e, Pop(lines), ln);
    } else {
      k := |lines| - 1;
    }
  }

  /** What holds of the events of every line holds of the marks of the text. */
  lemma MarksFromLines(p: Event -> bool, text: Scopes, lines: seq<Source<Line>>, ln: int)
    requires forall k | 0 <= k < |lines| :: forall e | e in LineEvents(lines[k].text, ln + k) :: p(e)
    requires TextEvents(lines, ln) == Events(text)
    ensures forall m | m in Marks(text) :: p(EventOf(m))
  {
    MarksAreEvents(text);
    forall m | m in Marks(text) ensures p(EventOf(m)) {
      var k := EventIsOnLine(LineEvents, EventOf(m), lines, ln);
    }
  }

  lemma {:induction false} MarksAreEvents(s: Scopes)
    ensures forall m | m in Marks(s) :: EventOf(m) in Events(s)
    decreases s
  {
    if s.Cons? {
      MarksAreEvents(s.rest);
    }
  }

  /** A text that is not empty begins with the beginning of a line. */
  lemma BreaksOfText(text: Scopes, lines: seq<Source<Line>>, ln: int)
    requires TextEvents(lines, ln) == Events(text)
    ensures if lines == [] then Marks(text) == [] else Breaks(Marks(text)) > 0
  {
    if lines == [] {
      assert Events(text) == [];
    } else {
      FirstEvent(lines, ln);
      assert text.Cons? && EventsOf(text.first)[0] == Events(text)[0];
      BreakFirst(text.first.mark, Marks(text.rest));
    }
  }

  lemma {:induction false} FirstEvent(lines: seq<Source<Line>>, ln: int)
    requires lines != []
    ensures TextEvents(lines, ln) != [] && TextEvents(lines, ln)[0].Noted? && TextEvents(lines, ln)[0].mark.Break?
    decreases |lines|
  {
    var rest := TextEvents(Pop(lines), ln);
    assert TextEvents(lines, ln) == rest + LineEvents(Top(lines).text, ln + |lines| - 1);
    if |lines| > 1 {
      FirstEvent(Pop(lines), ln);
    } else {
      assert LineEvents(Top(lines).text, ln)[0] == HeadEvents(Top(lines).text, ln)[0];
    }
  }

  lemma {:induction false} BreakFirst(m: Mark, marks: seq<Mark>)
    requires m.Break?
    ensures Breaks([m] + marks) > 0
    decreases |marks|
  {
    if marks != [] {
      assert Pop([m] + marks) == [m] + Pop(marks);
      BreakFirst(m, Pop(marks));
    }
  }

  lemma {:induction false} NoLabels(marks: seq<Mark>, otherwise: Access)
    requires forall m | m in marks :: LabelIn(m).None?
    ensures LastLabel(marks, otherwise) == otherwise
    decreases |marks|
  {
    if marks != [] {
      NoLabels(Pop(marks), otherwise);
    }
  }

  /** Reading the text from `s` begins where a block has its brace, and reads it completely. */
  predicate CompleteText(s: State<Block>, text: Scopes, lines: seq<Source<Line>>, ln: int) {
    && SeenOpenBrace(s.stack) && Placed(s.stack, text) && NoDirectives(lines)
    && TextEvents(lines, ln) == Events(text)
  }

  /** A block with its brace is unchanged if its last label, its parentheses and its inline assembly state are. */
  lemma UntouchedExactly(stack: seq<Block>, marks: seq<Mark>)
    requires stack != [] && SeenOpenBrace(stack)
    ensures Touched(stack, marks) == stack <==>
              && SameLabel(Top(stack), marks) && ParenSum(marks) == 0
              && TouchAll(Top(stack), marks).asm == Top(stack).asm
  {
    var b := Top(stack);
    TouchAllMeans(b, marks);
    assert Touched(stack, marks) == stack <==> TouchAll(b, marks) == b;
  }

  /** The last label directly in a class is the access it already has. */
  predicate SameLabel(b: Block, marks: seq<Mark>) {
    b.kind.Class? ==> LastLabel(marks, b.access) == b.access
  }

  lemma {:induction false} BalancedSum(marks: seq<Mark>)
    requires forall m | m in marks :: Balanced(m)
    ensures ParenSum(marks) == 0
    decreases |marks|
  {
    if marks != [] {
      BalancedSum(Pop(marks));
      assert Top(marks) in marks;
    }
  }

  /**
   When a complete text of lines that close the parentheses they open changes nothing at all:
   exactly if it is empty, or nothing was open, or no inline assembly is ending in the innermost
   block and that is no class with another last label of its own.
   */
  lemma UnchangedExactly(s: State<Block>, text: Scopes, lines: seq<Source<Line>>, ln: int)
    requires CompleteText(s, text, lines, ln)
    requires forall l | l in lines :: l.text.parenChange == 0
    ensures Replay(Feed, s, lines, ln).stack == s.stack <==>
              s.stack == [] || lines == [] || (Settled(Top(s.stack)) && SameLabel(Top(s.stack), Marks(text)))
  {
    CompleteTextBalances(s, text, lines, ln);
    BreaksOfText(text, lines, ln);
    if s.stack != [] {
      BalancedMarks(text, lines, ln);
      BalancedSum(Marks(text));
      BalancedAsm(Top(s.stack), Marks(text));
      UntouchedExactly(s.stack, Marks(text));
    }
  }

  lemma BalancedMarks(text: Scopes, lines: seq<Source<Line>>, ln: int)
    requires TextEvents(lines, ln) == Events(text) && forall l | l in lines :: l.text.parenChange == 0
    ensures forall m | m in Marks(text) :: Balanced(m)
  {
    forall k | 0 <= k < |lines| ensures forall e | e in LineEvents(lines[k].text, ln + k) :: KeepsParens(e) {
      assert lines[k] in lines;
      BalancedLine(lines[k].text, ln + k);
    }
    MarksFromLines(KeepsParens, text, lines, ln);
    forall m | m in Marks(text) ensures Balanced(m) {
      assert KeepsParens(EventOf(m));
    }
  }

  lemma UnlabelledMarks(text: Scopes, lines: seq<Source<Line>>, ln: int)
    requires TextEvents(lines, ln) == Events(text) && forall l | l in lines :: l.text.access.None?
    ensures forall m | m in Marks(text) :: LabelIn(m).None?
  {
    forall k | 0 <= k < |lines| ensures forall e | e in LineEvents(lines[k].text, ln + k) :: Unlabelled(e) {
      assert lines[k] in lines;
      UnlabelledLine(lines[k].text, ln + k);
    }
    MarksFromLines(Unlabelled, text, lines, ln);
    forall m | m in Marks(text) ensures LabelIn(m).None? {
      assert Unlabelled(EventOf(m));
    }
  }

  /** So without labels, and where no inline assembly is ending, nothing is changed. */
  lemma UnlabelledChangesNothing(s: State<Block>, text: Scopes, lines: seq<Source<Line>>, ln: int)
    requires CompleteText(s, text, lines, ln)
    requires forall l | l in lines :: l.text.parenChange == 0 && l.text.access.None?
    requires s.stack == [] || Settled(Top(s.stack))
    ensures Replay(Feed, s, lines, ln).stack == s.stack
  {
    UnchangedExactly(s, text, lines, ln);
    if s.stack != [] {
      UnlabelledMarks(text, lines, ln);
      NoLabels(Marks(text), Top(s.stack).access);
    }
  }

  /** Whatever the parentheses, where no line starts inline assembly and the innermost block is outside of it. */
  lemma UnchangedAcrossParens(s: State<Block>, text: Scopes, lines: seq<Source<Line>>, ln: int)
    requires CompleteText(s, text, lines, ln)
    requires forall l | l in lines :: !l.text.asmStart
    requires s.stack != [] && (Top(s.stack).asm == NoAsm || Top(s.stack).asm == BlockAsm)
    ensures Replay(Feed, s, lines, ln).stack == s.stack <==>
              ParenSum(Marks(text)) == 0 && SameLabel(Top(s.stack), Marks(text))
  {
    CompleteTextBalances(s, text, lines, ln);
    AsmlessMarks(text, lines, ln);
    NoAsmStarts(Top(s.stack), Marks(text));
    UntouchedExactly(s.stack, Marks(text));
  }

  lemma AsmlessMarks(text: Scopes, lines: seq<Source<Line>>, ln: int)
    requires TextEvents(lines, ln) == Events(text) && forall l | l in lines :: !l.text.asmStart
    ensures forall m | m in Marks(text) :: m.Break? ==> !m.asmStart
  {
    forall k | 0 <= k < |lines| ensures forall e | e in LineEvents(lines[k].text, ln + k) :: StartsNoAsm(e) {
      assert lines[k] in lines;
      AsmlessLine(lines[k].text, ln + k);
    }
    MarksFromLines(StartsNoAsm, text, lines, ln);
    forall m | m in Marks(text) ensures m.Break? ==> !m.asmStart {
      assert StartsNoAsm(EventOf(m));
    }
  }

  // A text that changes the stack.

  function LabelLine(a: Access): Line {
    Line(0, false, [], None, false, Some(a), [])
  }

  function LabelText(a: Access): Scopes {
    Cons(Note(Break(0, false)), Cons(Note(Label(a)), Nil))
  }

  lemma LabelTextSpelled(a: Access, lines: seq<Source<Line>>, ln: int)
    requires lines == [Source(NoDirective, LabelLine(a))]
    ensures TextEvents(lines, ln) == Events(LabelText(a))
  {
    var es := [Noted(Break(0, false)), Noted(Label(a))];
    assert TokenEvents([]) == [] && NamespaceEvents([], ln) == [];
    assert LineEvents(LabelLine(a), ln) == es;
    assert Pop(lines) == [] && TextEvents([], ln) == [];
    assert Events(LabelText(a)) == [Noted(Break(0, false))] + ([Noted(Label(a))] + []);
  }

  lemma LabelTextPlaced(stack: seq<Block>, a: Access)
    ensures Placed(stack, LabelText(a))
  {
    var rest := LabelText(a).rest;
    assert PlacedIn(stack, LabelText(a).first) && PlacedIn(Touched(stack, [Break(0, false)]), rest.first);
  }

  lemma LabelTextLabels(a: Access, otherwise: Access)
    ensures LastLabel(Marks(LabelText(a)), otherwise) == a
  {
    assert Marks(LabelText(a)) == [Break(0, false)] + ([Label(a)] + []);
  }

  /** One line with a label changes every class that has its brace and another access. */
  lemma LabelChangesClass(s: State<Block>, a: Access, lines: seq<Source<Line>>, ln: int)
    requires s.stack != [] && Top(s.stack).kind.Class? && Top(s.stack).seenOpenBrace && Top(s.stack).access != a
    requires lines == [Source(NoDirective, LabelLine(a))]
    ensures CompleteText(s, LabelText(a), lines, ln)
    ensures Replay(Feed, s, lines, ln).stack != s.stack
  {
    LabelTextPlaced(s.stack, a);
    LabelTextSpelled(a, lines, ln);
    LabelTextLabels(a, Top(s.stack).access);
    UnchangedExactly(s, LabelText(a), lines, ln);
  }
}
