/**
 Files with conditional groups whose first branches are block-structured text: where reading
 such a file leads, and what the final check reports for it.
 */
module FinalReport {
  import opened ConditionalGroups
  import opened NestingModel
  import opened BranchErasure
  import opened ScopeTree

  lemma {:induction false} KeptHasNoDirectives(f: File<Line>)
    ensures NoDirectives(Kept(f))
    decreases f
  {
    match f
    case Done =>
    case Text(_, next) => KeptHasNoDirectives(next);
    case Group(_, first, _, _, next) =>
      KeptHasNoDirectives(first);
      KeptHasNoDirectives(next);
  }

  /** Stacks that are alike are reported alike. */
  lemma {:induction false} IncompleteAlike(s: seq<Block>, t: seq<Block>)
    requires Alike(s, t)
    ensures Alike(Incomplete(s), Incomplete(t))
    decreases |s|
  {
    AlikeAt(s, t);
    if s != [] {
      AlikeAt(Pop(s), Pop(t));
      IncompleteAlike(Pop(s), Pop(t));
      AlikeAt(Incomplete(Pop(s)), Incomplete(Pop(t)));
      AlikeAt(Incomplete(s), Incomplete(t));
    }
  }

  /**
   A file whose directive lines are unnoticed and whose first branches spell a prefix of
   block-structured text leads to the scopes of that text: the branches after the first ones, and
   the directive lines themselves, leave no trace.
   */
  lemma FileFollowsScopes(f: File<Line>, s: State<Block>, text: Scopes, n: int, m: int)
    requires SeenOpenBrace(s.stack) && Placed(s.stack, text) && DirectivesQuiet(Feed, Unnoticed, f, s.stack)
    requires TextEvents(Kept(f), m) <= Events(text)
    ensures var k := |TextEvents(Kept(f), m)|;
            Alike(Replay(Feed, s, All(f), n).stack, Touched(s.stack, Own(text, k)) + OpenAt(text, k))
    ensures Replay(Feed, s, All(f), n).saved == s.saved
  {
    KeptHasNoDirectives(f);
    FirstBranchDecides(f, s, n, m);
    TextFollowsScopes(s, text, Kept(f), m);
  }

  /** The kinds and names that are reported are those of these heads, in order. */
  predicate NamesHeads(report: seq<Block>, heads: seq<Head>) {
    && |report| == |heads|
    && forall k | 0 <= k < |heads| ::
         report[k].kind == match heads[k]
           case OfNamespace(name, _) => Namespace(name)
           case OfClass(d) => Class(d.name, d.isStruct)
  }

  /** At the end of such a file exactly the open classes and namespaces of the text are reported, outermost first. */
  lemma FileIsReported(f: File<Line>, text: Scopes, m: int)
    requires Placed([], text) && DirectivesQuiet(Feed, Unnoticed, f, []) && TextEvents(Kept(f), m) <= Events(text)
    ensures NamesHeads(Incomplete(Replay(Feed, State([], []), All(f), 0).stack),
                       OpenHeads(text, |TextEvents(Kept(f), m)|))
  {
    var open := OpenAt(text, |TextEvents(Kept(f), m)|);
    var report := Incomplete(Replay(Feed, State([], []), All(f), 0).stack);
    FileFollowsScopes(f, State([], []), text, 0, m);
    assert [] + open == open;
    IncompleteAlike(Replay(Feed, State([], []), All(f), 0).stack, open);
    OpenHeadsReported(text, |TextEvents(Kept(f), m)|);
    AlikeAt(report, Incomplete(open));
    forall k | 0 <= k < |report| ensures report[k].kind == Incomplete(open)[k].kind {
      assert Face(report[k]) == Face(Incomplete(open)[k]);
    }
  }

  /** With bare directive lines nothing needs to be known about the stack. */
  lemma BareFileIsReported(f: File<Line>, text: Scopes, m: int)
    requires Placed([], text) && BareDirectives(f) && TextEvents(Kept(f), m) <= Events(text)
    ensures NamesHeads(Incomplete(Replay(Feed, State([], []), All(f), 0).stack),
                       OpenHeads(text, |TextEvents(Kept(f), m)|))
  {
    BareIsQuiet(f, []);
    FileIsReported(f, text, m);
  }

  /** If the first branches are a complete text, nothing is reported. */
  lemma CompleteFileIsNotReported(f: File<Line>, text: Scopes, m: int)
    requires Placed([], text) && DirectivesQuiet(Feed, Unnoticed, f, []) && TextEvents(Kept(f), m) == Events(text)
    ensures Incomplete(Replay(Feed, State([], []), All(f), 0).stack) == []
  {
    var stack := Replay(Feed, State([], []), All(f), 0).stack;
    FileFollowsScopes(f, State([], []), text, 0, m);
    FullCut(text, |Events(text)|);
    AlikeAt(stack, []);
  }
}
