/**
 The nesting tracker on values: what one line does to the stack of open blocks and to the
 saved stacks of the open preprocessor groups. The classes in NestingState are proved to
 compute these functions on the heap.
 */
module NestingModel {
  import opened Wrappers
  import opened ConditionalGroups

  datatype Access = Unset | Public | Private | Protected | Signals

  datatype Asm = NoAsm | InsideAsm | EndAsm | BlockAsm

  datatype Kind = Plain | Class(name: string, isStruct: bool) | Namespace(name: string)

  /** One block that is open, or whose head has been read and whose brace is still to come. */
  datatype Block = Block(
    kind: Kind,
    startLine: int,
    access: Access,
    seenOpenBrace: bool,
    openParens: int,
    asm: Asm,
    derived: bool)

  // ---------------------------------------------------------------- lines

  /** A namespace head at the start of a line; `braced` when a '{' follows it on the line. */
  datatype NamespaceHead = NamespaceHead(name: string, braced: bool)

  /** A class head at the start of what is left; `access` is the label in the text after it. */
  datatype ClassHead = ClassHead(name: string, isStruct: bool, access: Option<Access>)

  /** A brace, semicolon or closing parenthesis; `asm` when the text up to the brace starts an asm block. */
  datatype Token = OpenBrace(asm: bool) | CloseBrace | Semicolon | CloseParen

  /** What the pattern matches of the tracker, other than those for directives, find on one line. */
  datatype Line = Line(
    parenChange: int,
    asmStart: bool,
    namespaces: seq<NamespaceHead>,
    classHead: Option<ClassHead>,
    bareColon: bool,
    access: Option<Access>,
    tokens: seq<Token>)

  // ---------------------------------------------------------------- one line on the stack

  predicate SeenOpenBrace(stack: seq<Block>) {
    stack == [] || Top(stack).seenOpenBrace
  }

  function NewBlock(kind: Kind, line: int, seen: bool, asm: Asm): Block {
    var access := if kind.Class? then (if kind.isStruct then Public else Private) else Unset;
    Block(kind, line, access, seen, 0, asm, false)
  }

  function NextAsm(b: Block, parenChange: int, asmStart: bool): Asm {
    match b.asm
    case NoAsm => if parenChange != 0 && b.openParens == 1 && asmStart then InsideAsm else NoAsm
    case EndAsm => if parenChange != 0 && b.openParens == 1 && asmStart then InsideAsm else NoAsm
    case InsideAsm => if b.openParens == 0 then EndAsm else InsideAsm
    case BlockAsm => BlockAsm
  }

  function CountParens(stack: seq<Block>, line: Line): seq<Block> {
    if stack == [] then stack
    else
      var b := Top(stack).(openParens := Top(stack).openParens + line.parenChange);
      SetTop(stack, b.(asm := NextAsm(b, line.parenChange, line.asmStart)))
  }

  function PushNamespaces(stack: seq<Block>, heads: seq<NamespaceHead>, ln: int): seq<Block>
    decreases |heads|
  {
    if heads == [] then stack
    else PushNamespaces(stack + [NewBlock(Namespace(heads[0].name), ln, heads[0].braced, NoAsm)], heads[1..], ln)
  }

  predicate TakesClass(stack: seq<Block>, line: Line) {
    line.classHead.Some? && (stack == [] || Top(stack).openParens == 0)
  }

  function PushClass(stack: seq<Block>, line: Line, ln: int): seq<Block> {
    if TakesClass(stack, line) then
      stack + [NewBlock(Class(line.classHead.value.name, line.classHead.value.isStruct), ln, false, NoAsm)]
    else stack
  }

  function CheckBegin(stack: seq<Block>, bareColon: bool): seq<Block> {
    if !SeenOpenBrace(stack) && Top(stack).kind.Class? && bareColon
    then SetTop(stack, Top(stack).(derived := true))
    else stack
  }

  function SetAccess(stack: seq<Block>, access: Option<Access>): seq<Block> {
    if stack != [] && Top(stack).kind.Class? && access.Some?
    then SetTop(stack, Top(stack).(access := access.value))
    else stack
  }

  /** The stack after one token. */
  function Eat(stack: seq<Block>, token: Token): seq<Block> {
    match token
    case OpenBrace(asm) =>
      if !SeenOpenBrace(stack) then SetTop(stack, Top(stack).(seenOpenBrace := true))
      else stack + [NewBlock(Plain, 0, true, if asm then BlockAsm else NoAsm)]
    case CloseBrace => if stack == [] then stack else Pop(stack)
    case _ => if SeenOpenBrace(stack) then stack else Pop(stack)
  }

  function EatAll(stack: seq<Block>, tokens: seq<Token>): seq<Block>
    decreases |tokens|
  {
    if tokens == [] then stack else EatAll(Eat(stack, tokens[0]), tokens[1..])
  }

  /** The blocks whose closing brace is among the tokens, in the order of the braces. */
  function EndedBy(stack: seq<Block>, tokens: seq<Token>): seq<Block>
    decreases |tokens|
  {
    if tokens == [] then []
    else
      (if tokens[0].CloseBrace? && stack != [] then [Top(stack)] else [])
      + EndedBy(Eat(stack, tokens[0]), tokens[1..])
  }

  lemma OneToken(stack: seq<Block>, token: Token)
    ensures EatAll(stack, [token]) == Eat(stack, token)
    ensures EndedBy(stack, [token]) == if token.CloseBrace? && stack != [] then [Top(stack)] else []
  {
    assert [token][1..] == [];
  }

  lemma {:induction false} EatAllSplit(stack: seq<Block>, a: seq<Token>, b: seq<Token>)
    ensures EatAll(stack, a + b) == EatAll(EatAll(stack, a), b)
    decreases |a|
  {
    if a == [] {
      assert a + b == b;
    } else {
      assert (a + b)[1..] == a[1..] + b && (a + b)[0] == a[0];
      EatAllSplit(Eat(stack, a[0]), a[1..], b);
    }
  }

  lemma {:induction false} EndedBySplit(stack: seq<Block>, a: seq<Token>, b: seq<Token>)
    ensures EndedBy(stack, a + b) == EndedBy(stack, a) + EndedBy(EatAll(stack, a), b)
    decreases |a|
  {
    if a == [] {
      assert a + b == b;
    } else {
      var next := Eat(stack, a[0]);
      assert (a + b)[1..] == a[1..] + b && (a + b)[0] == a[0];
      EndedBySplit(next, a[1..], b);
      assert EatAll(stack, a) == EatAll(next, a[1..]);
    }
  }

  lemma EatNext(stack: seq<Block>, tokens: seq<Token>, i: nat)
    requires i < |tokens|
    ensures var before := EatAll(stack, tokens[..i]);
            && EatAll(stack, tokens[..i + 1]) == Eat(before, tokens[i])
            && EndedBy(stack, tokens[..i + 1]) == EndedBy(stack, tokens[..i])
                 + if tokens[i].CloseBrace? && before != [] then [Top(before)] else []
  {
    assert tokens[..i + 1] == tokens[..i] + [tokens[i]];
    EatAllSplit(stack, tokens[..i], [tokens[i]]);
    EndedBySplit(stack, tokens[..i], [tokens[i]]);
    OneToken(EatAll(stack, tokens[..i]), tokens[i]);
  }

  /** Everything a line does to the stack before its braces are read. */
  function Heads(stack: seq<Block>, line: Line, ln: int): seq<Block> {
    var counted := CountParens(stack, line);
    var inNamespaces := PushNamespaces(counted, line.namespaces, ln);
    var inClass := PushClass(inNamespaces, line, ln);
    var access := if TakesClass(inNamespaces, line) then line.classHead.value.access else line.access;
    SetAccess(CheckBegin(inClass, line.bareColon), access)
  }

  /** What a line does to the stack once the preprocessor has been dealt with. */
  function Feed(stack: seq<Block>, line: Line, ln: int): seq<Block> {
    EatAll(Heads(stack, line, ln), line.tokens)
  }

  /** The blocks whose end is checked while the line is read. */
  function Ended(stack: seq<Block>, line: Line, ln: int): seq<Block> {
    EndedBy(Heads(stack, line, ln), line.tokens)
  }

  /** What is reported for a file that ends with these blocks open: classes and namespaces, outermost first. */
  function Incomplete(stack: seq<Block>): seq<Block> {
    if stack == [] then []
    else Incomplete(Pop(stack)) + if Top(stack).kind.Plain? then [] else [Top(stack)]
  }

  /** Every class and every namespace is reported, and nothing else, in the order of the stack. */
  lemma {:induction false} IncompleteJoin(a: seq<Block>, b: seq<Block>)
    ensures Incomplete(a + b) == Incomplete(a) + Incomplete(b)
    decreases |b|
  {
    if b == [] {
      assert a + b == a;
    } else {
      assert Pop(a + b) == a + Pop(b) && Top(a + b) == Top(b);
      IncompleteJoin(a, Pop(b));
    }
  }

  lemma IncompleteOne(b: Block)
    ensures Incomplete([b]) == if b.kind.Class? || b.kind.Namespace? then [b] else []
  {
    assert Pop([b]) == [];
  }

  // ---------------------------------------------------------------- what common lines do

  /** Counting the parentheses of a line changes the innermost block only, and there two fields. */
  lemma CountsParens(stack: seq<Block>, line: Line)
    ensures stack == [] ==> CountParens(stack, line) == []
    ensures stack != [] ==>
              && |CountParens(stack, line)| == |stack| && Pop(CountParens(stack, line)) == Pop(stack)
              && var b, c := Top(stack), Top(CountParens(stack, line));
                 c == b.(openParens := b.openParens + line.parenChange, asm := c.asm)
  {
  }

  /** A class head with its brace opens a class: private unless it is a struct or a label follows on the line. */
  lemma ClassLine(stack: seq<Block>, line: Line, ln: int, name: string, isStruct: bool,
                  inside: Option<Access>, asm: bool)
    requires line.namespaces == [] && line.classHead == Some(ClassHead(name, isStruct, inside))
    requires line.tokens == [OpenBrace(asm)]
    requires stack != [] ==> Top(stack).openParens + line.parenChange == 0
    ensures var access := if inside.Some? then inside.value else if isStruct then Public else Private;
            Feed(stack, line, ln) == CountParens(stack, line)
              + [Block(Class(name, isStruct), ln, access, true, 0, NoAsm, line.bareColon)]
  {
    CountsParens(stack, line);
    OneToken(Heads(stack, line, ln), OpenBrace(asm));
  }

  /** Within open parentheses a class head opens nothing. */
  lemma ClassAmongArguments(stack: seq<Block>, line: Line, ln: int)
    requires stack != [] && Top(stack).openParens + line.parenChange != 0
    requires line.namespaces == [] && line.access.None? && !line.bareColon && line.tokens == []
    ensures Feed(stack, line, ln) == CountParens(stack, line)
  {
    CountsParens(stack, line);
  }

  lemma NamespaceLine(stack: seq<Block>, line: Line, ln: int, name: string, braced: bool)
    requires line.namespaces == [NamespaceHead(name, braced)] && line.classHead.None? && line.tokens == []
    ensures Feed(stack, line, ln) == CountParens(stack, line)
              + [Block(Namespace(name), ln, Unset, braced, 0, NoAsm, false)]
  {
    CountsParens(stack, line);
    assert line.namespaces[1..] == [];
    assert PushNamespaces(CountParens(stack, line), line.namespaces, ln)
        == CountParens(stack, line) + [Block(Namespace(name), ln, Unset, braced, 0, NoAsm, false)];
  }

  /** A brace where the innermost block has its own opens a plain block, which may be one of inline assembly. */
  lemma BraceLine(stack: seq<Block>, line: Line, ln: int, asm: bool)
    requires SeenOpenBrace(stack) && line.namespaces == [] && line.classHead.None? && line.access.None?
    requires line.tokens == [OpenBrace(asm)]
    ensures Feed(stack, line, ln) == CountParens(stack, line)
              + [Block(Plain, 0, Unset, true, 0, if asm then BlockAsm else NoAsm, false)]
  {
    CountsParens(stack, line);
    OneToken(Heads(stack, line, ln), OpenBrace(asm));
  }

  /** A closing brace ends the innermost block, even one that waits for its brace, and nothing where nothing is open. */
  lemma ClosingLine(stack: seq<Block>, line: Line, ln: int)
    requires line.namespaces == [] && line.classHead.None? && line.access.None? && !line.bareColon
    requires line.tokens == [CloseBrace]
    ensures Feed(stack, line, ln) == if stack == [] then [] else Pop(stack)
    ensures Ended(stack, line, ln) == if stack == [] then [] else [Top(CountParens(stack, line))]
  {
    CountsParens(stack, line);
    OneToken(Heads(stack, line, ln), CloseBrace);
  }

  /** A label and a closing brace on one line: the label is the ended block's, even if it stands behind the brace. */
  lemma LabelBeforeBrace(stack: seq<Block>, line: Line, ln: int, access: Access)
    requires stack != [] && Top(stack).kind.Class? && Top(stack).seenOpenBrace
    requires line.namespaces == [] && line.classHead.None? && line.access == Some(access) && line.tokens == [CloseBrace]
    ensures Feed(stack, line, ln) == Pop(stack)
    ensures Ended(stack, line, ln) == [Top(CountParens(stack, line)).(access := access)]
  {
    CountsParens(stack, line);
    OneToken(Heads(stack, line, ln), CloseBrace);
  }

  /** Inline assembly begins exactly on a line that starts it and opens the only parenthesis. */
  lemma AsmBegins(stack: seq<Block>, line: Line)
    requires stack != [] && (Top(stack).asm == NoAsm || Top(stack).asm == EndAsm)
    ensures Top(CountParens(stack, line)).asm ==
            if line.asmStart && line.parenChange != 0 && Top(stack).openParens + line.parenChange == 1
            then InsideAsm else NoAsm
  {
  }

  /** It ends with the line that closes the last parenthesis; blocks that are inline assembly stay that. */
  lemma AsmEnds(stack: seq<Block>, line: Line)
    requires stack != [] && (Top(stack).asm == InsideAsm || Top(stack).asm == BlockAsm)
    ensures Top(CountParens(stack, line)).asm == EndAsm
       <==> Top(stack).asm == InsideAsm && Top(stack).openParens + line.parenChange == 0
    ensures Top(CountParens(stack, line)).asm != EndAsm ==> Top(CountParens(stack, line)).asm == Top(stack).asm
  {
  }
}
