/**
 The nesting tracker with its blocks as objects that are updated in place. Saved stacks are
 deep copies, and the stack handed back at the end of a group is not copied; that this is safe
 is the isolation invariant, under which the objects compute the functions of NestingModel.
 */
module NestingState {
  import opened Wrappers
  import M = NestingModel
  import CG = ConditionalGroups

  class Block {
    const kind: M.Kind
    const startLine: int
    var access: M.Access
    var seenOpenBrace: bool
    var openParens: int
    var asm: M.Asm
    var derived: bool

    function Value(): M.Block
      reads this
    {
      M.Block(kind, startLine, access, seenOpenBrace, openParens, asm, derived)
    }

    constructor (kind: M.Kind, startLine: int, seenOpenBrace: bool)
      ensures Value() == M.NewBlock(kind, startLine, seenOpenBrace, M.NoAsm)
    {
      this.kind, this.startLine, this.seenOpenBrace := kind, startLine, seenOpenBrace;
      access := if kind.Class? then (if kind.isStruct then M.Public else M.Private) else M.Unset;
      openParens, asm, derived := 0, M.NoAsm, false;
    }

    constructor Copy(b: Block)
      ensures Value() == b.Value()
    {
      kind, startLine := b.kind, b.startLine;
      access, seenOpenBrace, openParens, asm, derived := b.access, b.seenOpenBrace, b.openParens, b.asm, b.derived;
    }

    /** Counts the parentheses of a line and enters or leaves an inline assembly block. */
    method Count(parenChange: int, asmStart: bool)
      modifies this`openParens, this`asm
      ensures Value() == var b := old(Value()).(openParens := old(openParens) + parenChange);
                         b.(asm := M.NextAsm(b, parenChange, asmStart))
    {
      openParens := openParens + parenChange;
      if asm == M.NoAsm || asm == M.EndAsm {
        if parenChange != 0 && openParens == 1 && asmStart {
          asm := M.InsideAsm;
        } else {
          asm := M.NoAsm;
        }
      } else if asm == M.InsideAsm && openParens == 0 {
        asm := M.EndAsm;
      }
    }
  }

  /** A list object of blocks; no block is in it twice. */
  class BlockList {
    var items: seq<Block>

    ghost var values: seq<M.Block>   // what the blocks hold
    ghost var repr: set<object>      // the list and its blocks

    ghost predicate Valid()
      reads this, repr
      ensures Valid() ==> this in repr
    {
      && this in repr
      && |items| == |values|
      && (forall k | 0 <= k < |items| :: items[k] in repr && items[k].Value() == values[k])
      && (forall i, j | 0 <= i < j < |items| :: items[i] != items[j])
    }

    constructor ()
      ensures Valid() && fresh(repr) && values == []
    {
      items, values, repr := [], [], {this};
    }

    method DeepCopy() returns (copy: BlockList)
      requires Valid()
      ensures copy.Valid() && fresh(copy.repr) && copy.values == values
    {
      copy := new BlockList();
      for i := 0 to |items|
        invariant copy.Valid() && fresh(copy.repr) && copy.values == values[..i]
      {
        var b := new Block.Copy(items[i]);
        copy.Append(b, values[i]);
      }
    }

    method Append(b: Block, ghost value: M.Block)
      requires Valid() && b !in repr && b.Value() == value
      modifies this
      ensures Valid() && repr == old(repr) + {b} && values == old(values) + [value]
    {
      items, values, repr := items + [b], values + [value], repr + {b};
    }

    method Pop() returns (b: Block)
      requires Valid() && items != []
      modifies this
      ensures Valid() && repr == old(repr) && values == CG.Pop(old(values))
      ensures b.Value() == CG.Top(old(values))
    {
      b := items[|items| - 1];
      items, values := items[..|items| - 1], values[..|values| - 1];
    }

    predicate SeenOpenBrace()
      requires Valid()
      reads this, repr
      ensures SeenOpenBrace() == M.SeenOpenBrace(values)
    {
      items == [] || items[|items| - 1].seenOpenBrace
    }

    method CountParens(line: M.Line)
      requires Valid()
      modifies repr
      ensures Valid() && repr == old(repr) && values == M.CountParens(old(values), line)
    {
      if items != [] {
        items[|items| - 1].Count(line.parenChange, line.asmStart);
        values := M.CountParens(values, line);
      }
    }

    method PushNamespaces(heads: seq<M.NamespaceHead>, ln: int)
      requires Valid()
      modifies this
      ensures Valid() && fresh(repr - old(repr)) && values == M.PushNamespaces(old(values), heads, ln)
    {
      for i := 0 to |heads|
        invariant Valid() && fresh(repr - old(repr))
        invariant M.PushNamespaces(values, heads[i..], ln) == M.PushNamespaces(old(values), heads, ln)
      {
        var b := new Block(M.Namespace(heads[i].name), ln, false);
        if heads[i].braced {
          b.seenOpenBrace := true;
        }
        assert heads[i..][1..] == heads[i + 1..];
        Append(b, b.Value());
      }
    }

    method PushClass(line: M.Line, ln: int) returns (taken: bool)
      requires Valid()
      modifies this
      ensures Valid() && fresh(repr - old(repr)) && values == M.PushClass(old(values), line, ln)
      ensures taken == M.TakesClass(old(values), line)
    {
      taken := line.classHead.Some? && (items == [] || items[|items| - 1].openParens == 0);
      if taken {
        var b := new Block(M.Class(line.classHead.value.name, line.classHead.value.isStruct), ln, false);
        Append(b, b.Value());
      }
    }

    method CheckBegin(bareColon: bool)
      requires Valid()
      modifies repr
      ensures Valid() && repr == old(repr) && values == M.CheckBegin(old(values), bareColon)
    {
      if !SeenOpenBrace() {
        var top := items[|items| - 1];
        if top.kind.Class? && bareColon {
          top.derived := true;
          values := M.CheckBegin(values, bareColon);
        }
      }
    }

    method SetAccess(access: Option<M.Access>)
      requires Valid()
      modifies repr
      ensures Valid() && repr == old(repr) && values == M.SetAccess(old(values), access)
    {
      if items != [] {
        var top := items[|items| - 1];
        if top.kind.Class? && access.Some? {
          top.access := access.value;
          values := M.SetAccess(values, access);
        }
      }
    }

    /** Reads one brace, semicolon or closing parenthesis; returns the block it ends, if any. */
    method Eat(token: M.Token) returns (ended: seq<M.Block>)
      requires Valid()
      modifies repr
      ensures Valid() && fresh(repr - old(repr)) && values == M.Eat(old(values), token)
      ensures ended == if token.CloseBrace? && old(values) != [] then [CG.Top(old(values))] else []
    {
      ended := [];
      match token
      case OpenBrace(asm) =>
        if !SeenOpenBrace() {
          items[|items| - 1].seenOpenBrace := true;
          values := M.Eat(values, token);
        } else {
          var b := new Block(M.Plain, 0, true);
          if asm {
            b.asm := M.BlockAsm;
          }
          Append(b, b.Value());
        }
      case CloseBrace =>
        if items != [] {
          var b := Pop();
          ended := [b.Value()];
        }
      case _ =>
        if !SeenOpenBrace() {
          var b := Pop();
        }
    }

    method EatAll(tokens: seq<M.Token>) returns (ended: seq<M.Block>)
      requires Valid()
      modifies repr
      ensures Valid() && fresh(repr - old(repr)) && values == M.EatAll(old(values), tokens)
      ensures ended == M.EndedBy(old(values), tokens)
    {
      ended := [];
      for i := 0 to |tokens|
        invariant Valid() && fresh(repr - old(repr))
        invariant values == M.EatAll(old(values), tokens[..i])
        invariant ended == M.EndedBy(old(values), tokens[..i])
      {
        M.EatNext(old(values), tokens, i);
        var e := Eat(tokens[i]);
        ended := ended + e;
      }
      assert tokens[..|tokens|] == tokens;
    }

    /** Everything a line does to the stack once the preprocessor has been dealt with. */
    method Feed(line: M.Line, ln: int) returns (ended: seq<M.Block>)
      requires Valid()
      modifies repr
      ensures Valid() && fresh(repr - old(repr))
      ensures values == M.Feed(old(values), line, ln) && ended == M.Ended(old(values), line, ln)
    {
      CountParens(line);
      PushNamespaces(line.namespaces, ln);
      var taken := PushClass(line, ln);
      CheckBegin(line.bareColon);
      SetAccess(if taken then line.classHead.value.access else line.access);
      assert values == M.Heads(old(values), line, ln);
      ended := EatAll(line.tokens);
    }

    /** The classes and namespaces that are still open, outermost first. */
    method CheckCompletedBlocks() returns (incomplete: seq<M.Block>)
      requires Valid()
      ensures incomplete == M.Incomplete(values)
    {
      incomplete := [];
      for i := 0 to |items|
        invariant incomplete == M.Incomplete(values[..i])
      {
        assert CG.Pop(values[..i + 1]) == values[..i];
        if !items[i].kind.Plain? {
          incomplete := incomplete + [items[i].Value()];
        }
      }
      assert values[..|items|] == values;
    }
  }

  /** The checkpoint of one open group. */
  class PreprocessorInfo {
    const stackBeforeIf: BlockList
    var stackBeforeElse: BlockList
    var seenElse: bool

    ghost var repr: set<object>

    ghost predicate Valid()
      reads this, repr
      ensures Valid() ==> this in repr
    {
      && this in repr
      && stackBeforeIf in repr && stackBeforeElse in repr
      && stackBeforeIf.repr <= repr && stackBeforeElse.repr <= repr
      && this !in stackBeforeIf.repr && this !in stackBeforeElse.repr
      && stackBeforeIf.repr !! stackBeforeElse.repr
      && stackBeforeIf.Valid() && stackBeforeElse.Valid()
    }

    ghost predicate Holds(value: CG.Saved<M.Block>)
      reads this, repr
    {
      Valid() && Value() == value
    }

    ghost function Value(): CG.Saved<M.Block>
      requires Valid()
      reads this, repr
    {
      CG.Saved(stackBeforeIf.values, stackBeforeElse.values, seenElse)
    }

    constructor (stack: BlockList)
      requires stack.Valid()
      ensures Valid() && fresh(repr - stack.repr) && Value() == CG.Saved(stack.values, [], false)
    {
      var none := new BlockList();
      stackBeforeIf, stackBeforeElse, seenElse := stack, none, false;
      repr := {this} + stack.repr + none.repr;
    }

    /** Keeps a copy of the stack at the end of the first branch. */
    method EndFirstBranch(stack: BlockList)
      requires Valid() && stack.Valid() && stack.repr !! repr
      modifies this
      ensures Valid() && fresh(repr - old(repr))
      ensures Value() == old(Value()).(seenElse := true, beforeElse := stack.values)
    {
      seenElse := true;
      stackBeforeElse := stack.DeepCopy();
      repr := repr + stackBeforeElse.repr;
    }
  }

  /** One more line, replayed on values. */
  lemma NextLine(start: CG.State<M.Block>, lines: seq<CG.Source<M.Line>>, i: nat, before: CG.State<M.Block>,
      after: CG.State<M.Block>, ended: seq<M.Block>, e: seq<M.Block>)
    requires i < |lines| && before == CG.Replay(M.Feed, start, lines[..i], 0)
    requires ended == CG.EndedAll(M.Feed, M.Ended, start, lines[..i], 0)
    requires after == CG.Update(M.Feed, before, lines[i], i)
    requires e == M.Ended(CG.UpdatePreprocessor(before, lines[i].directive).stack, lines[i].text, i)
    ensures after == CG.Replay(M.Feed, start, lines[..i + 1], 0)
    ensures ended + e == CG.EndedAll(M.Feed, M.Ended, start, lines[..i + 1], 0)
  {
    CG.ReplayNext(M.Feed, M.Ended, start, lines, i, 0);
  }

  class NestingState {
    var stack: BlockList
    var ppStack: seq<PreprocessorInfo>

    ghost var saved: seq<CG.Saved<M.Block>>   // what the checkpoints hold
    ghost var repr: set<object>

    ghost predicate Valid()
      reads this, repr
      ensures Valid() ==> this in repr
    {
      && this in repr
      && stack in repr && stack.repr <= repr && this !in stack.repr && stack.Valid()
      && |ppStack| == |saved|
      && (forall i | 0 <= i < |ppStack| ::
            && ppStack[i] in repr && ppStack[i].repr <= repr && this !in ppStack[i].repr
            && ppStack[i].Holds(saved[i]))
      && Isolated()
    }

    /** No object is shared between the live stack and a checkpoint, or between two checkpoints. */
    ghost predicate Isolated()
      reads this, stack, ppStack
    {
      && (forall i | 0 <= i < |ppStack| :: stack.repr !! ppStack[i].repr)
      && (forall i, j | 0 <= i < j < |ppStack| :: ppStack[i].repr !! ppStack[j].repr)
    }

    ghost function View(): CG.State<M.Block>
      requires Valid()
      reads this, repr
    {
      CG.State(stack.values, saved)
    }

    constructor ()
      ensures Valid() && fresh(repr) && View() == CG.State([], [])
    {
      var empty := new BlockList();
      stack, ppStack, saved := empty, [], [];
      repr := {this} + empty.repr;
    }

    /** A checkpoint with a copy of the stack. */
    method Checkpoint() returns (info: PreprocessorInfo)
      requires Valid()
      ensures fresh(info) && fresh(info.repr) && info.Holds(CG.Saved(stack.values, [], false))
      ensures stack.repr !! info.repr && this !in info.repr
              && forall i | 0 <= i < |ppStack| :: ppStack[i].repr !! info.repr
    {
      var copy := stack.DeepCopy();
      info := new PreprocessorInfo(copy);
    }

    /** Stacks a checkpoint that shares nothing with the others. */
    method Push(info: PreprocessorInfo, ghost value: CG.Saved<M.Block>)
      requires Valid() && info.Holds(value) && this !in info.repr
      requires stack.repr !! info.repr && forall i | 0 <= i < |ppStack| :: ppStack[i].repr !! info.repr
      modifies this`ppStack, this`saved, this`repr
      ensures Valid() && repr == old(repr) + info.repr
      ensures stack.values == old(stack.values) && saved == old(saved) + [value]
    {
      ppStack, saved, repr := ppStack + [info], saved + [value], repr + info.repr;
    }

    method BeginGroup()
      requires Valid()
      modifies this
      ensures Valid() && fresh(repr - old(repr)) && View() == CG.UpdatePreprocessor(old(View()), CG.IfDirective)
      ensures stack.values == old(stack.values) && saved == old(saved) + [CG.Saved(stack.values, [], false)]
    {
      var info := Checkpoint();
      Push(info, CG.Saved(stack.values, [], false));
    }

    /** Everything is valid, but the innermost checkpoint holds something else and may have grown. */
    ghost predicate TopHolds(value: CG.Saved<M.Block>)
      reads this, stack, stack.repr, ppStack, set i, o | 0 <= i < |ppStack| && o in ppStack[i].repr :: o
    {
      && this in repr
      && stack in repr && stack.repr <= repr && this !in stack.repr && stack.Valid()
      && 0 < |ppStack| == |saved|
      && (forall i | 0 <= i < |ppStack| - 1 ::
            && ppStack[i] in repr && ppStack[i].repr <= repr && this !in ppStack[i].repr
            && ppStack[i].Holds(saved[i]))
      && this !in ppStack[|ppStack| - 1].repr && ppStack[|ppStack| - 1].Holds(value)
      && Isolated()
    }

    /** The copy kept at the end of the first branch; nothing but the innermost checkpoint changes. */
    method KeepFirstBranch()
      requires Valid() && ppStack != []
      modifies ppStack[|ppStack| - 1]
      ensures stack.values == old(stack.values)
              && TopHolds(CG.Top(saved).(seenElse := true, beforeElse := stack.values))
      ensures fresh(ppStack[|ppStack| - 1].repr - old(ppStack[|ppStack| - 1].repr))
    {
      ppStack[|ppStack| - 1].EndFirstBranch(stack);
    }

    method AcceptTop(ghost value: CG.Saved<M.Block>)
      requires TopHolds(value)
      modifies this`saved, this`repr
      ensures Valid() && stack.values == old(stack.values)
      ensures saved == CG.SetTop(old(saved), value) && repr == old(repr) + ppStack[|ppStack| - 1].repr
    {
      saved, repr := CG.SetTop(saved, value), repr + ppStack[|ppStack| - 1].repr;
    }

    method EndFirstBranch()
      requires Valid() && ppStack != []
      modifies ppStack[|ppStack| - 1], this`saved, this`repr
      ensures Valid() && fresh(repr - old(repr))
      ensures stack.values == old(stack.values)
      ensures saved == CG.SetTop(old(saved), CG.Top(old(saved)).(seenElse := true, beforeElse := stack.values))
    {
      KeepFirstBranch();
      AcceptTop(CG.Top(saved).(seenElse := true, beforeElse := stack.values));
    }

    method RestoreBeforeIf()
      requires Valid() && ppStack != []
      modifies this`stack, this`repr
      ensures Valid() && fresh(repr - old(repr)) && View() == old(View()).(stack := CG.Top(saved).beforeIf)
    {
      var top := ppStack[|ppStack| - 1];
      stack := top.stackBeforeIf.DeepCopy();
      repr := repr + stack.repr;
    }

    method BeginBranch()
      requires Valid() && ppStack != []
      modifies this, repr
      ensures Valid() && fresh(repr - old(repr)) && View() == CG.UpdatePreprocessor(old(View()), CG.ElseDirective)
      ensures stack.values == CG.Top(old(saved)).beforeIf && CG.Top(saved).beforeIf == CG.Top(old(saved)).beforeIf
      ensures CG.Top(saved).beforeElse ==
              if CG.Top(old(saved)).seenElse then CG.Top(old(saved)).beforeElse else old(stack.values)
    {
      if !ppStack[|ppStack| - 1].seenElse {
        EndFirstBranch();
      }
      RestoreBeforeIf();
    }

    method EndGroup()
      requires Valid() && ppStack != []
      modifies this
      ensures Valid() && repr == old(repr) && View() == CG.UpdatePreprocessor(old(View()), CG.EndifDirective)
      ensures saved == CG.Pop(old(saved))
      ensures stack.values ==
              if CG.Top(old(saved)).seenElse then CG.Top(old(saved)).beforeElse else old(stack.values)
    {
      var top := ppStack[|ppStack| - 1];
      if top.seenElse {
        stack := top.stackBeforeElse;
      }
      ppStack, saved := ppStack[..|ppStack| - 1], saved[..|saved| - 1];
    }

    /** Checkpoints before a group, restores before each further branch, and hands back after it. */
    method UpdatePreprocessor(directive: CG.Directive)
      requires Valid()
      modifies this, repr
      ensures Valid() && fresh(repr - old(repr)) && View() == CG.UpdatePreprocessor(old(View()), directive)
    {
      match directive
      case NoDirective =>
      case IfDirective =>
        BeginGroup();
      case ElseDirective =>
        if ppStack != [] {
          BeginBranch();
        }
      case EndifDirective =>
        if ppStack != [] {
          EndGroup();
        }
    }

    /** Updates the nesting state with one line; returns the blocks whose end was checked. */
    method Update(line: CG.Source<M.Line>, ln: int) returns (ended: seq<M.Block>)
      requires Valid()
      modifies this, repr
      ensures Valid() && fresh(repr - old(repr)) && View() == CG.Update(M.Feed, old(View()), line, ln)
      ensures ended == M.Ended(CG.UpdatePreprocessor(old(View()), line.directive).stack, line.text, ln)
    {
      UpdatePreprocessor(line.directive);
      ended := FeedStack(line.text, ln);
    }

    method FeedStack(line: M.Line, ln: int) returns (ended: seq<M.Block>)
      requires Valid()
      modifies stack.repr, this`repr
      ensures Valid() && fresh(repr - old(repr))
      ensures View() == old(View()).(stack := M.Feed(old(stack.values), line, ln))
      ensures ended == M.Ended(old(stack.values), line, ln)
    {
      ended := stack.Feed(line, ln);
      repr := repr + stack.repr;
    }

    /** Reads a file line by line, as the linter does before it reports the blocks left open. */
    method UpdateAll(lines: seq<CG.Source<M.Line>>) returns (ended: seq<M.Block>, incomplete: seq<M.Block>)
      requires Valid()
      modifies this, repr
      ensures Valid() && fresh(repr - old(repr)) && View() == CG.Replay(M.Feed, old(View()), lines, 0)
      ensures ended == CG.EndedAll(M.Feed, M.Ended, old(View()), lines, 0)
      ensures incomplete == M.Incomplete(View().stack)
    {
      ended := [];
      ghost var start := View();
      for i := 0 to |lines|
        invariant Valid() && fresh(repr - old(repr))
        invariant View() == CG.Replay(M.Feed, start, lines[..i], 0)
        invariant ended == CG.EndedAll(M.Feed, M.Ended, start, lines[..i], 0)
      {
        ended := UpdateNext(lines, i, ended, start);
      }
      assert lines[..|lines|] == lines;
      incomplete := stack.CheckCompletedBlocks();
    }

    method UpdateNext(lines: seq<CG.Source<M.Line>>, i: nat, ended: seq<M.Block>, ghost start: CG.State<M.Block>)
      returns (ended': seq<M.Block>)
      requires Valid() && i < |lines|
      requires View() == CG.Replay(M.Feed, start, lines[..i], 0)
      requires ended == CG.EndedAll(M.Feed, M.Ended, start, lines[..i], 0)
      modifies this, repr
      ensures Valid() && fresh(repr - old(repr))
      ensures View() == CG.Replay(M.Feed, start, lines[..i + 1], 0)
      ensures ended' == CG.EndedAll(M.Feed, M.Ended, start, lines[..i + 1], 0)
    {
      ghost var before := View();
      var e := Update(lines[i], i);
      ended' := ended + e;
      NextLine(start, lines, i, before, View(), ended, e);
    }
  }
}
