# Verified models of two parts of BigARTM

This project models, in Dafny, the two parts of the repository that are small parsers and
state machines of their own, and proves what they compute.

**The structure tracker of `utils/cpplint.py`.**

* *Brackets over lines* (`Brackets`, `TextLines`, `CloseExpression`, `TextInside`): forward and
  backward matching over an array of lines, proved against the first return of the running
  balance in the flattened text, and inverse to each other; extraction of the text inside a
  bracket, proved against the grammar of well-nested text.
* *Template brackets* (`AngleBrackets`): the two searches with their stacks, proved against a
  grammar of what may stand in template arguments; the backward search mirrors the forward one.
* *Nesting* (`ConditionalGroups`, `NestingModel`, `NestingState`, `BranchErasure`, `ScopeTree`,
  `FinalReport`): the stack of open blocks with snapshots at preprocessor conditionals.
  `NestingModel` says on values what a line does; `NestingState` has the objects that are updated
  in place, with the invariant that live and saved stacks share no object; `BranchErasure` proves
  that only the first branch of a group counts, `ScopeTree` that the stack is the path of open
  scopes, every field of every block included, and `FinalReport` puts the two together.
* *Comment removal* (`Comments`), *include order* (`IncludeOrder`), *function length*
  (`FunctionSize`) and the *split of a CHECK condition* (`CheckCheck`).

**The wire format of `src/artm_tests/rpcz_canary_service.pb.cc`.**

* `Base128` and `Wire` define varints, tags and fields, reading and writing, and prove round
  trips, exact sizes and independence of what follows; `Messages` proves for any message type
  that concatenating byte strings is merging messages ("Last One Wins" in the Protocol Buffers
  Encoding document).
* `RequestModel` and `ResponseModel` instantiate this for the two messages.
* `CodedInput` and `CodedOutput` are the streams with their loops and arrays; `SearchRequests` and
  `SearchResponses` hold the message classes: accessors, the predictive parser, both serialisers,
  size, merge, copy, clear and swap, and the round trip of a message through an array.

In the parser the two predictions may answer no at any time, chosen without restriction, so
that the contract covers every way the input may be cut into buffers.

Where the code and a natural reading of it differ, the code is followed:

* Branch erasure needs directive lines the tracker does not notice. `BranchErasure.Unnoticed` is
  the exact condition on a directive line and the stack: the line leaves the stack alike if and
  only if it holds (`NoticedExactly`), and the whole file and its first branches are read in
  step if and only if it holds at every directive line outside dropped branches (`InStepExactly`).
  A closing parenthesis on a directive line, as in `if defined(A)`, between a class head and its
  brace fails it and drops the class (`NoisyDirectiveDropsClass`). A later line may undo what a
  directive line did, so a file can end alike although it was not read in step.
* A block-structured text leaves the blocks it stands in as they were, except for what stands
  directly in the innermost one. `ScopeTree.CompleteTextBalances` states the resulting stack;
  `UnchangedExactly` says when it is identical: a class whose last label of its own differs from
  the access it had (`LabelChangesClass`), or a block in which inline assembly is ending,
  which the first line already moves on, is changed, and nothing else is. A label counts before
  the braces of its line.
* A class head within open parentheses starts no block; at file level, where the tracker counts
  no parentheses, it does, and the next semicolon or closing parenthesis drops it again.
  `ScopeTree.Placed` is this distinction on texts.
* `SetAllocatedQuery` deletes the message's string before it stores the new one, so a caller must
  not pass that string itself.
* A tag that cannot be read ends a message as successfully as the end of the input does; only
  the legitimate-end flag of the stream tells the two apart.
* The severity is cut off at five, so a function length error is never printed at a verbosity
  above five (`AboveFiveTriggers`, `CheckAndPrint`); at a negative verbosity the logarithm of zero
  can be asked for (`NegativeVerbosityFails`).
* A field with number zero and a non-zero wire type is kept as an unknown field; a tag of zero
  ends the message.

## Model

| member | source | states |
|---|---|---|
| Brackets.DyckIsBalanced | utils/cpplint.py:1226-1239 | for one bracket kind, the grammar of well-nested text and the running-balance condition describe the same texts, for every text and range |
| CloseExpression.FindEndOfExpressionInLine | utils/cpplint.py:1218-1239 | stops at the first closer at which start depth plus balance is zero; otherwise no closer on the line does that, and the returned depth is the balance of the whole rest |
| CloseExpression.FindStartOfExpressionInLine | utils/cpplint.py:1288-1312 | the same leftwards: the first opener that takes the depth to zero, or none on the line does |
| CloseExpression.CloseExpression | utils/cpplint.py:1242-1285 | returns (line, column) if and only if the running balance over the flattened text first returns to zero just before it; -1 if and only if it never does, or no opener stands there |
| CloseExpression.ReverseCloseExpression | utils/cpplint.py:1315-1357 | returns (line, column) if and only if the balance counted leftwards first returns to zero there; -1 if and only if it never does |
| CloseExpression.CloseInvertsReverse | utils/cpplint.py:1242-1357 | the forward answer for (l, p) is (m, e) if and only if the backward answer for (m, e-1) is (l, p), for all four kinds and any array of lines |
| CloseExpression.MatchedBothWays | utils/cpplint.py:1226-1312 | in one text, the first return to zero going right from an opener and going left from its closer are the same pair |
| CloseExpression.MatchedIsDyck | utils/cpplint.py:1242-1285 | the match of a bracket is exactly the closer that follows the well-nested text after it |
| CloseExpression.NestedOrDisjoint | utils/cpplint.py:1242-1285 | two matched spans of one kind are nested or disjoint, and share an end only if they are the same |
| CloseExpression.PairCloses | utils/cpplint.py:1242-1357 | for each of the four kinds by its characters: an opening bracket and the first closing one on its line, with no bracket of the kind between them, are a pair in both directions |
| CloseExpression.ClosesExactly | utils/cpplint.py:1256-1285 | a bracket has at most one closing position |
| TextLines.PositionUnique | utils/cpplint.py:1268-1285 | a place in the flattened text is a place on exactly one line |
| TextInside.GetTextInside | utils/cpplint.py:3663-3690 | the text returned is the well-nested text over three bracket kinds between the opener and its matching closer; None if and only if there is no such text |
| TextInside.PairEncloses | utils/cpplint.py:3659-3690 | for each of the three kinds by its characters: text without punctuation is enclosed by its own closing mark and by no other, angle brackets counting as text |
| TextInside.EnclosedTextIsUnique | utils/cpplint.py:3676-3690 | at most one well-nested text followed by the matching closer starts at a given place |
| TextInside.EmptiedIsDyck | utils/cpplint.py:3676-3687 | the place at which the stack of expected closers runs empty ends a well-nested text followed by its closer |
| TextInside.DyckIsTransparent | utils/cpplint.py:3676-3687 | well-nested text leaves the stack of expected closers as it was, whatever is on it |
| AngleBrackets.FindNextMatchingAngleBracket | utils/cpplint.py:2405-2471 | terminates on every array of lines, never looks at an empty stack, and answers false exactly when the character automaton over the flattened text refuses |
| AngleBrackets.FindPreviousMatchingAngleBracket | utils/cpplint.py:2474-2528 | the backward search: true exactly when its automaton is matched or stopped by a comma, so false on exhaustion |
| AngleBrackets.VerdictExactly | utils/cpplint.py:2429-2471 | the automaton closes or meets a comma or refuses at a place exactly when the grammar of template arguments says so: both directions, for every text |
| AngleBrackets.WellNestedPasses | utils/cpplint.py:2429-2466 | well-nested text without commas and semicolons belongs to the pieces the search passes over |
| AngleBrackets.FirstOperatorDecides | utils/cpplint.py:2429-2463 | behind the bracket the first of the eight operators decides by its character, unless it opens another bracket; without any the answer is yes |
| AngleBrackets.ClosesRoundOrSquare | utils/cpplint.py:2457-2466 | within round or square brackets commas, semicolons and > do not count, and either closing bracket closes |
| AngleBrackets.PassedOver | utils/cpplint.py:2429-2466 | a passed piece leaves the stack unchanged whatever follows it, so the next closer is judged as if the piece were not there |
| AngleBrackets.LeavesOrEndsInside | utils/cpplint.py:2429-2466 | after an opened bracket the automaton either leaves it at its own closer with the stack restored, or ends inside it |
| AngleBrackets.BackwardMirrorsForward | utils/cpplint.py:2405-2528 | the backward search has the outcome of the forward search on the reversed text with brackets turned around |
| AngleBrackets.AnswersAgree | utils/cpplint.py:2463-2528 | the two answers agree on mirrored texts unless the text runs out, which it does both ways: then forwards is true and backwards false |
| ConditionalGroups.SavedRestored | utils/cpplint.py:1857-1887 | reading any file of complete, arbitrarily nested groups restores the saved stacks it began with |
| ConditionalGroups.AfterGroup | utils/cpplint.py:1857-1887 | a group behaves as its first branch followed by whatever comes after, with the checkpoint gone |
| ConditionalGroups.LaterBranches | utils/cpplint.py:1870-1879 | once the first #else is read no further branch changes the checkpoint, so what is handed back at the end of the group is fixed |
| ConditionalGroups.ElseGoesBack | utils/cpplint.py:1862-1875 | every #else and #elif line is read on the stack from before the #if line, whatever the first branch and the branches before it did |
| ConditionalGroups.BranchEndsFromThere | utils/cpplint.py:1862-1875 | so the branch behind it is read from there, and the blocks that end on that line and in the branch are those that end when it is read from there |
| ConditionalGroups.StrayDirective | utils/cpplint.py:1862-1890 | outside of any group #else, #elif and #endif are lines like any other |
| ConditionalGroups.ErasingBranches | utils/cpplint.py:1836-1890 | for every step function and view of the stack that respect each other, reading the file and reading only the first branches end with the same view if the directive lines keep it |
| ConditionalGroups.GoInStep | utils/cpplint.py:1836-1890 | the two readings agree after every #if line, all through every first branch and after every group if and only if every directive line outside dropped branches keeps the view where it stands |
| NestingModel.ClassLine | utils/cpplint.py:1680-1693 | a class head with its brace opens a class, private, public for a struct, or with the access of a label behind the head, with no open parenthesis and the number of its line |
| NestingModel.ClassAmongArguments | utils/cpplint.py:1973-1979 | within open parentheses a class head opens nothing |
| NestingModel.NamespaceLine | utils/cpplint.py:1931-1948 | a namespace head opens a namespace, with or without its brace |
| NestingModel.BraceLine | utils/cpplint.py:2013-2024 | a brace where the innermost block has its own opens a plain block, marked if it is inline assembly |
| NestingModel.ClosingLine | utils/cpplint.py:2039-2046 | a closing brace ends the innermost block even if that waits for its brace, and does nothing where nothing is open |
| NestingModel.LabelBeforeBrace | utils/cpplint.py:1985-2046 | a label counts before the closing brace of its line |
| NestingModel.AsmBegins | utils/cpplint.py:1912-1921 | inline assembly begins exactly on a line that starts it, changes the parentheses and leaves one open |
| NestingModel.AsmEnds | utils/cpplint.py:1912-1925 | it ends with the line after which no parenthesis is open; blocks of inline assembly stay that |
| NestingModel.IncompleteJoin | utils/cpplint.py:2060-2079 | the report for a stack is that for its parts, in order |
| NestingModel.IncompleteOne | utils/cpplint.py:2071-2079 | a block is reported exactly if it is a class or a namespace |
| BranchErasure.AlikeMeans | utils/cpplint.py:1836-1890 | stacks are alike exactly if their blocks have the same kinds and names, access, braces, parentheses and base flags |
| BranchErasure.FeedAlike | utils/cpplint.py:1904-2046 | a line does alike things to stacks that differ only in inline assembly state and line numbers |
| BranchErasure.NoticedExactly | utils/cpplint.py:1904-2046 | a directive line, with any braces, semicolons, parentheses and labels, leaves the stack alike if and only if it is unnoticed: a check on its brace counts, its parenthesis count, its labels and the blocks it reaches |
| BranchErasure.TokensCount | utils/cpplint.py:2013-2046 | while every block met has its brace, the tokens leave the blocks below the lowest point alone and plain blocks above it, as many as the braces count |
| BranchErasure.UnbracedNoticed | utils/cpplint.py:2024-2040 | tokens that reach a block waiting for its brace mark it, drop it or end below where they began |
| BranchErasure.FirstBranchDecides | utils/cpplint.py:1836-2046 | branch erasure for every file, state and line numbering whose directive lines are unnoticed where they stand, and restored saved stacks |
| BranchErasure.InStepExactly | utils/cpplint.py:1836-2046 | for every file, the full reading and the reading of the kept lines go in step if and only if every directive line outside dropped branches is unnoticed where it stands |
| BranchErasure.EmptyGroupExactly | utils/cpplint.py:1836-2046 | for a group with an empty first branch and a bare #endif, erasure holds if and only if the #if line is unnoticed |
| BranchErasure.EndLineExactly | utils/cpplint.py:1836-2046 | for any group whose other directives are unnoticed, erasure holds if and only if the #endif line is unnoticed after the first branch |
| BranchErasure.FirstBranchDecidesBare | utils/cpplint.py:1836-2046 | branch erasure for every file whose directive lines have no parentheses, braces, semicolons, colons, heads or labels |
| BranchErasure.NoisyDirectiveDropsClass | utils/cpplint.py:2030-2040 | a witness that the condition can fail: a class head, then a directive ending in a closing parenthesis before the brace, drops the class |
| ScopeTree.TouchAllMeans | utils/cpplint.py:1904-1993 | what the marks directly in a block amount to: its access is the last label, its open parentheses the sum, its base is noted before the brace, and nothing else changes |
| ScopeTree.AsmLasts | utils/cpplint.py:1904-1925 | inline assembly that a line starts lasts over any lines that leave its parentheses open |
| ScopeTree.BalancedAsm | utils/cpplint.py:1904-1925 | over lines that close their parentheses the inline assembly state settles after two lines and is then constant |
| ScopeTree.FeedFollows | utils/cpplint.py:1904-2046 | on every stack every line, balanced or not, does to every field of every block what its events do one after the other, and ends the same blocks |
| ScopeTree.PrefixOpensScopes | utils/cpplint.py:1904-2046 | any prefix of block-structured text touches the innermost block with its own marks, leaves exactly the scopes it has opened and not closed, each with all its fields, and ends the closed ones in post-order |
| ScopeTree.TextFollowsScopes | utils/cpplint.py:1892-2046 | the same for the tracker on texts cut at a line boundary: the stack, field by field, is the stack before with its innermost block touched, plus the open scopes; parentheses may span lines |
| ScopeTree.CompleteTextBalances | utils/cpplint.py:1892-2046 | a complete block-structured text leaves exactly the stack before with its innermost block touched by the marks directly in it, and ends every braced block once, in post-order |
| ScopeTree.UnchangedExactly | utils/cpplint.py:1892-2046 | a complete text of lines that close their parentheses leaves the stack identical if and only if there was no line, or nothing was open, or the innermost block's assembly state is settled and the last label directly in it, if it is a class, is the access it has |
| ScopeTree.UnlabelledChangesNothing | utils/cpplint.py:1892-2046 | without labels and where no inline assembly is ending such a text leaves the stack identical |
| ScopeTree.UnchangedAcrossParens | utils/cpplint.py:1892-2046 | where parentheses span lines and no line starts inline assembly the stack is identical if and only if the parentheses directly in the innermost block add up to zero and its last label agrees |
| ScopeTree.LabelChangesClass | utils/cpplint.py:1985-1993 | one line with a label is a complete text that changes any stack whose innermost block is a class with another access |
| ScopeTree.CutTextIsReported | utils/cpplint.py:2060-2079 | for a text cut at a line boundary the blocks reported are, in number, order, kind, name and line, the class and namespace heads of the text whose scopes are open there |
| FinalReport.FileFollowsScopes | utils/cpplint.py:1836-2046 | a file with groups whose directive lines are unnoticed and whose first branches spell a prefix of block-structured text leads to the scopes of that text, and the saved stacks are restored |
| FinalReport.FileIsReported | utils/cpplint.py:1836-2079 | for such a file the blocks reported are, in number, order, kind and name, the class and namespace heads open at the end of the text of its first branches |
| FinalReport.BareFileIsReported | utils/cpplint.py:1836-2079 | the same for every file with bare directive lines, without a condition on the stack |
| FinalReport.CompleteFileIsNotReported | utils/cpplint.py:1836-2079 | if the first branches are a complete text nothing is reported, whatever the other branches hold |
| NestingState.BlockList.DeepCopy | utils/cpplint.py:1861-1874 | a copy with equal values and no object in common |
| NestingState.BlockList.Eat | utils/cpplint.py:2008-2046 | one token updates the list in place as it updates the value, and returns the block whose end is checked |
| NestingState.BlockList.Feed | utils/cpplint.py:1904-2046 | a line updates the objects in place as it updates the values |
| NestingState.BlockList.CheckCompletedBlocks | utils/cpplint.py:2060-2079 | reports exactly the open classes and namespaces of the list, outermost first |
| NestingState.NestingState.BeginGroup | utils/cpplint.py:1858-1861 | checkpoints a copy of the stack that shares no object with the stack or another checkpoint |
| NestingState.NestingState.BeginBranch | utils/cpplint.py:1862-1875 | keeps the end of the first branch and restores the stack before the group, sharing no object with any checkpoint |
| NestingState.NestingState.EndGroup | utils/cpplint.py:1876-1887 | hands the saved list back without copying it and stays isolated |
| NestingState.NestingState.UpdatePreprocessor | utils/cpplint.py:1836-1890 | computes the value version under the invariant that no block object is shared between live and saved stacks |
| NestingState.NestingState.Update | utils/cpplint.py:1892-2046 | the object version of one line refines the value version and keeps the isolation invariant |
| NestingState.NestingState.UpdateAll | utils/cpplint.py:1892-2079 | the object version of a whole file refines the value version: stack, saved stacks, ended blocks and final report |
| Comments.RemoveComments | utils/cpplint.py:1139-1152 | the nested in-place loops refine a one-pass two-state automaton for any start and end tests: same lines, same errors, same line count |
| Comments.RemoveMultiLineComments | utils/cpplint.py:1111-1152 | the same with the tests of the source |
| Comments.FindNextMultiLineCommentStart | utils/cpplint.py:1111-1119 | the first line from a given one that starts a comment without ending it, or the line count |
| Comments.FindNextMultiLineCommentEnd | utils/cpplint.py:1122-1128 | the first line from a given one that ends a comment, or the line count |
| Comments.RemoveMultiLineCommentsFromRange | utils/cpplint.py:1131-1136 | exactly the lines of the range become the dummy line |
| Comments.ErrorExactlyWhenEndless | utils/cpplint.py:1144-1151 | an error is reported at a line if and only if a comment starts there in code and never ends |
| Comments.NoStartsLeft | utils/cpplint.py:1139-1152 | when no error is reported no line of the result starts a comment |
| Comments.ErasedTwice | utils/cpplint.py:1139-1152 | erasing is idempotent on the lines |
| Comments.LinterErasesComments | utils/cpplint.py:1111-1152 | with the tests of the source: no comment starts are left unless an error is reported, and a second removal changes and reports nothing new |
| Comments.StartsExactly | utils/cpplint.py:1111-1119 | between white space of any length, a text starts a comment exactly if it begins with /* and has no */ behind these two characters |
| Comments.EndsExactly | utils/cpplint.py:1122-1128 | between white space of any length, a text ends a comment exactly if its last two characters are */ |
| Comments.ClosedCommentStays | utils/cpplint.py:1114-1117 | outside comments a line whose comment is closed on it stays as it is, is not reported, and leaves the next line outside |
| Comments.CodeStays | utils/cpplint.py:1139-1152 | outside comments a line that starts none stays as it is |
| Comments.SpanErased | utils/cpplint.py:1139-1152 | a comment is replaced from the line it starts on to the first line that ends it, both included, and the line behind is outside |
| Comments.EndlessStays | utils/cpplint.py:1146-1150 | a comment that never ends is left as it is, with all lines behind it |
| Comments.DummyIsCode | utils/cpplint.py:1131-1136 | the dummy line neither starts nor ends a comment |
| IncludeOrder.IncludeState.CheckNextIncludeOrder | utils/cpplint.py:621-672 | reports an error exactly for a system header after its section, and moves to the next section otherwise |
| IncludeOrder.SectionNeverDecreases | utils/cpplint.py:638-672 | over a run without reset the section never decreases |
| IncludeOrder.SectionMeans | utils/cpplint.py:638-672 | what each section says about the headers seen, a late own header counting as another project's |
| IncludeOrder.ErrorsExactly | utils/cpplint.py:642-653 | a C header errs exactly after a C++ one, an other one, or a late own one; a C++ header exactly after an other or a late own one |
| IncludeOrder.RunsWithoutErrors | utils/cpplint.py:621-672 | a run has no error if and only if it lies in MY* C* CPP* (MY or OTHER)* |
| IncludeOrder.CheckRun | utils/cpplint.py:572-672 | the object called on every header of a run gives the verdicts of the sections reached, all in order if and only if the run lies in that language |
| FunctionSize.FunctionState.Check | utils/cpplint.py:824-847 | triggers exactly beyond base times two to the verbosity, with the level the least of five and the logarithm of the quotient; asks for the logarithm of zero exactly when triggered below the base |
| FunctionSize.BaseByName | utils/cpplint.py:832-835 | 400 lines for names that begin with TEST or Test, 250 for others |
| FunctionSize.ExceedsDoubles | utils/cpplint.py:836-837 | at verbosity zero more lines than the base are too many, and each verbosity doubles the base, negative ones included |
| FunctionSize.NegativeVerbosityFails | utils/cpplint.py:834-837 | at every negative verbosity a function one line short of the base asks for the logarithm of zero |
| FunctionSize.TwoHundredLinesFail | utils/cpplint.py:834-837 | an input: 200 lines at verbosity -1 |
| FunctionSize.AboveFiveTriggers | utils/cpplint.py:834-841 | at every verbosity above five, one line beyond the threshold triggers an error whose logarithm is cut off at five |
| FunctionSize.SixteenThousandLinesUnprinted | utils/cpplint.py:834-841 | an input: 16001 lines at verbosity 6, with a logarithm of six and a severity of five |
| FunctionSize.LevelAtLeast | utils/cpplint.py:836-841 | a level that brackets the length is at least the verbosity that triggered it, for verbosities up to five |
| FunctionSize.Log2Bounds | utils/cpplint.py:837 | the level brackets the quotient between two powers of two |
| FunctionSize.ShouldPrintError | utils/cpplint.py:949-973 | prints exactly when not suppressed, confident enough, and the last filter for the category does not exclude it |
| FunctionSize.FilterAdded | utils/cpplint.py:960-971 | a filter appended to the list decides alone for the categories it concerns and changes nothing for others |
| FunctionSize.FilterByPrefix | utils/cpplint.py:960-971 | a last filter that names a prefix of the category decides by its sign; one that names no prefix changes nothing; without filters nothing is filtered |
| FunctionSize.CheckAndPrint | utils/cpplint.py:824-847 | up to verbosity five, negative ones included, an error is printed exactly when one is reported and it is neither suppressed nor filtered; above five never; the logarithm of zero is asked for exactly at a negative verbosity, triggered below the base |
| CheckCheck.NothingBeforeFirstStop | utils/cpplint.py:3218-3258 | before the first stop and outside parentheses no && or || and no == or != is spelled, and every angle bracket is a character of a spelled <<, >> or -> |
| CheckCheck.FirstStopExactly | utils/cpplint.py:3215-3247 | in a balanced text the first stop is, in characters, the first place at depth zero with &&, ||, ==, != or an angle bracket that belongs to no <<, >> or ->, runs of brackets being paired from the left; it is a logical operator exactly for && and || |
| CheckCheck.HasLogicExactly | utils/cpplint.py:3262-3265 | the right side has a logical operator exactly if it is something, && or ||, and something |
| CheckCheck.ParenthesisTaken | utils/cpplint.py:3223-3229 | in a balanced expression the parenthesis always closes, so the unmatched-parenthesis exit is never taken |
| CheckCheck.SplitComparison | utils/cpplint.py:3215-3267 | the operand-at-a-time loop terminates and splits exactly at the first stop, stated in characters, when that is one of the six comparisons with something on both sides and no logical operator to the right; the left side is balanced, has no stop at depth zero, and is kept up to spaces |
| CheckCheck.JoinExpression | utils/cpplint.py:3201-3207 | the pieces joined over the lines are the flattened text between the parentheses |
| CheckCheck.ArgumentIsBalanced | utils/cpplint.py:3197-3207 | the text between a parenthesis and its match is balanced |
| CheckCheck.CheckCheck | utils/cpplint.py:3197-3267 | a split is found exactly when the parenthesis closes and its text splits as above |
| Base128.EncodedSize | 3rdparty/protobuf/src/google/protobuf/io/coded_stream.cc:813-858 | a varint has at most k bytes if and only if the number has at most k base 128 digits |
| Base128.WrittenIsRead | 3rdparty/protobuf/src/google/protobuf/io/coded_stream.cc:422-485 | what was written is read back, whatever follows it |
| Base128.Written64IsRead | 3rdparty/protobuf/src/google/protobuf/io/coded_stream.cc:339-485 | every 64-bit number written is read back as 64 bits, and as its low 32 bits by the 32-bit reader |
| Base128.ReadAppend | 3rdparty/protobuf/src/google/protobuf/io/coded_stream.cc:422-443 | reading a varint, canonical or not, never depends on what follows it |
| Base128.EncodingIsShortest | 3rdparty/protobuf/src/google/protobuf/io/coded_stream.cc:682-691 | no byte string shorter than the encoding is read as the number |
| Base128.TenBytesDecide | 3rdparty/protobuf/src/google/protobuf/io/coded_stream.cc:422-443 | reading fails exactly if none of the first ten bytes is below 128; else it gives the base 128 digits up to the first such byte, cut to 64 or 32 bits, whatever the bytes |
| Base128.SignedRoundTrip | 3rdparty/protobuf/src/google/protobuf/io/coded_stream.h:944-950 | sign extension on write and truncation on read give an int32 back, and a negative one takes ten bytes |
| Base128.LowBits | 3rdparty/protobuf/src/google/protobuf/io/coded_stream.cc:339-346 | the 32-bit reader succeeds exactly when the 64-bit one does and keeps its low bits |
| Base128.VarintSize32 | 3rdparty/protobuf/src/google/protobuf/io/coded_stream.cc:813-825 | the comparisons give the exact number of bytes |
| Base128.VarintSize64 | 3rdparty/protobuf/src/google/protobuf/io/coded_stream.cc:827-858 | the comparison tree gives the exact number of bytes |
| Base128.VarintSize32SignExtended | 3rdparty/protobuf/src/google/protobuf/io/coded_stream.h:1020-1026 | the exact number of bytes of a sign-extended int32 |
| Wire.WordRoundTrip | 3rdparty/protobuf/src/google/protobuf/io/coded_stream.h:961-992 | a fixed-width word is read back from its bytes |
| Wire.Fixed32Bytes | 3rdparty/protobuf/src/google/protobuf/wire_format.cc:129-134 | in numbers: after a tag of eight times the field number and five any four bytes are a fixed32, the lowest first, and a fixed32 is written as these |
| Wire.Fixed64Bytes | 3rdparty/protobuf/src/google/protobuf/wire_format.cc:92-97 | in numbers: the same for eight bytes after eight times the field number and one |
| Wire.FixedNeedsAll | 3rdparty/protobuf/src/google/protobuf/wire_format.cc:92-134 | reading either fails exactly with fewer than four or eight bytes |
| Wire.VarintBytes | 3rdparty/protobuf/src/google/protobuf/wire_format.cc:86-91 | wire type 0: a varint of up to 64 bits, read and written |
| Wire.DelimitedBytes | 3rdparty/protobuf/src/google/protobuf/wire_format.cc:98-110 | wire type 2: a length and as many bytes; fails exactly if the length is 2^31 or more or the bytes are not there |
| Wire.GroupBytes | 3rdparty/protobuf/src/google/protobuf/wire_format.cc:111-125 | wire types 3 and 4: fields between the two tags of a number are read as a group exactly if they are recoverable one level deeper |
| Wire.GroupIsWritten | 3rdparty/protobuf/src/google/protobuf/wire_format.cc:187-193 | a group is written as its fields between tags of wire types 3 and 4 |
| Wire.GroupEndBytes | 3rdparty/protobuf/src/google/protobuf/wire_format.cc:141-160 | a tag of wire type 4 ends any scan, with its number |
| Wire.GroupNeedsItsEnd | 3rdparty/protobuf/src/google/protobuf/wire_format.cc:111-125 | a group that another number closes cannot be read |
| Wire.GroupExactly | 3rdparty/protobuf/src/google/protobuf/wire_format.cc:111-125 | a group can be read exactly if scanning what follows its tag, one level deeper, ends with its own number |
| Wire.NoSuchField | 3rdparty/protobuf/src/google/protobuf/wire_format.cc:126-137 | wire types 4, 6 and 7 start no value |
| Wire.UnreadableTagStops | 3rdparty/protobuf/src/google/protobuf/wire_format.cc:141-149 | a zero tag or one that cannot be read stops a scan without failing it |
| Wire.ReadFieldAppend | 3rdparty/protobuf/src/google/protobuf/wire_format.cc:81-145 | a field that can be read is read the same whatever follows it |
| Wire.ScanAppend | 3rdparty/protobuf/src/google/protobuf/wire_format.cc:147-166 | scanning two byte strings put together scans the second after the first, or leaves it over after an end of group |
| Wire.FieldsWritten | 3rdparty/protobuf/src/google/protobuf/wire_format.cc:81-204 | written fields followed by anything are all read back before it, or the scan stops early, decided by their tags and nesting |
| Wire.RoundTripExactly | 3rdparty/protobuf/src/google/protobuf/wire_format.cc:81-204 | writing and scanning gives the fields back, groups included, if and only if no tag is zero and no group nests too deep |
| Wire.ScannedIsRecoverable | 3rdparty/protobuf/src/google/protobuf/wire_format.cc:81-166 | whatever is scanned, from any bytes, can be written and scanned again |
| Wire.ComputeUnknownFieldsSize | 3rdparty/protobuf/src/google/protobuf/wire_format.cc:290-337 | the computed size is the number of bytes written, groups included |
| Messages.HundredGroups | 3rdparty/protobuf/src/google/protobuf/io/coded_stream.cc:83 | a hundred groups one inside the other are read back, a hundred and one are not |
| Messages.ConcatenationIsMerge | src/artm_tests/rpcz_canary_service.pb.cc:197-249 | for any message that folds fields: if the first byte string parses to its end, parsing both together is parsing each and merging |
| Messages.GroupEndStops | src/artm_tests/rpcz_canary_service.pb.cc:237-242 | if the first byte string ends with the end of a group, parsing both together is parsing the first, with the second left over |
| Messages.ParsingIsMerging | src/artm_tests/rpcz_canary_service.pb.cc:197-249 | parsing into a message is parsing into an empty one and merging |
| RequestModel.RequestsMerge | src/artm_tests/rpcz_canary_service.pb.cc:339-350 | merging obeys the laws the concatenation theorem needs |
| RequestModel.RequestConcatenation | src/artm_tests/rpcz_canary_service.pb.cc:197-249 | concatenation is merge for requests: query, page number and unknown fields, any encodings, any second byte string |
| RequestModel.LastOneWins | src/artm_tests/rpcz_canary_service.pb.cc:197-249 | folding fields keeps the last query and page number and all unknown fields in order |
| RequestModel.RequestRoundTrip | src/artm_tests/rpcz_canary_service.pb.cc:197-271 | parsing a serialised request consumes it entirely and gives it back if and only if its unknown fields are recoverable and none passes for a known one |
| RequestModel.RequestBytes | src/artm_tests/rpcz_canary_service.pb.cc:251-271 | in numbers: 10, the length and characters of the query, 16 and the page number, a negative one as its 64-bit complement, and the unknown fields; nothing for a new message |
| RequestModel.ParsedRequestIsStable | src/artm_tests/rpcz_canary_service.pb.cc:197-271 | a request parsed from any bytes is serialised and parsed back unchanged |
| RequestModel.SerializedInParts | src/artm_tests/rpcz_canary_service.pb.cc:251-271 | the bytes of a request are those of its query, page number and unknown fields in this order |
| ResponseModel.ResponsesMerge | src/artm_tests/rpcz_canary_service.pb.cc:559-563 | merging obeys the laws the concatenation theorem needs |
| ResponseModel.ResponseConcatenation | src/artm_tests/rpcz_canary_service.pb.cc:450-489 | concatenation is merge for responses |
| ResponseModel.EveryOneIsKept | src/artm_tests/rpcz_canary_service.pb.cc:450-489 | folding fields keeps every result and every unknown field, each kind in order |
| ResponseModel.ResponseRoundTrip | src/artm_tests/rpcz_canary_service.pb.cc:450-506 | parsing a serialised response gives it back if and only if its unknown fields are recoverable and none passes for a result |
| ResponseModel.ResultBytes | src/artm_tests/rpcz_canary_service.pb.cc:491-506 | in numbers: every result is 10, its length and its characters |
| ResponseModel.ParsedResponseIsStable | src/artm_tests/rpcz_canary_service.pb.cc:450-506 | a response parsed from any bytes is serialised and parsed back unchanged |
| CodedInput.CodedInputStream.ReadVarint64 | 3rdparty/protobuf/src/google/protobuf/io/coded_stream.cc:422-443 | the byte loop reads what the recursive definition says: ten bytes at most, bits past the 64th dropped |
| CodedInput.CodedInputStream.ReadTag | 3rdparty/protobuf/src/google/protobuf/io/coded_stream.cc:365-420 | zero for the end of input, an unreadable tag, or a zero tag; only the end sets the legitimate-end flag |
| CodedInput.CodedInputStream.ExpectTag | 3rdparty/protobuf/src/google/protobuf/io/coded_stream.h:861-882 | for any expected tag: when it answers yes, reading the tag would have given it; it may answer no at any time |
| CodedInput.CodedInputStream.ExpectAtEnd | 3rdparty/protobuf/src/google/protobuf/io/coded_stream.h:905-918 | when it answers yes, nothing is left and the state is that of a tag read at the end; it may answer no at any time |
| CodedInput.CodedInputStream.ReadString | 3rdparty/protobuf/src/google/protobuf/wire_format_lite.cc:344-351 | reads a length below 2^31 and that many bytes, and fails exactly when they are not there |
| CodedInput.SkipField | 3rdparty/protobuf/src/google/protobuf/wire_format.cc:81-145 | adds exactly the field that stands after the tag, or fails |
| CodedInput.SkipMessage | 3rdparty/protobuf/src/google/protobuf/wire_format.cc:147-166 | adds exactly the scanned fields and stops where and why the scan does |
| CodedOutput.EncodedDigit | 3rdparty/protobuf/src/google/protobuf/io/coded_stream.cc:682-691 | the bytes of a varint are its base 128 digits, all but the last one marked |
| CodedOutput.WriteVarint32ToArray | 3rdparty/protobuf/src/google/protobuf/io/coded_stream.cc:642-670 | the nested comparisons write the varint in place and nothing else |
| CodedOutput.WriteTagToArray | 3rdparty/protobuf/src/google/protobuf/io/coded_stream.h:998-1010 | one-byte and two-byte tags written directly are the same bytes as any varint |
| CodedOutput.WriteVarint64ToArray | 3rdparty/protobuf/src/google/protobuf/io/coded_stream.cc:699-769 | the size tree over three 32-bit parts and the marked digits write the varint in place and nothing else |
| CodedOutput.WriteVarintSlowly | 3rdparty/protobuf/src/google/protobuf/io/coded_stream.cc:779-791 | the seven-bits-at-a-time loop writes the same bytes |
| CodedOutput.CodedOutputStream.WriteVarint64 | 3rdparty/protobuf/src/google/protobuf/io/coded_stream.cc:771-792 | fast and slow path append the same bytes |
| CodedOutput.SerializeUnknownFieldsToArray | 3rdparty/protobuf/src/google/protobuf/wire_format.cc:206-245 | writes the fields' bytes in place and nothing else |
| CodedOutput.CodedOutputStream.SerializeUnknownFields | 3rdparty/protobuf/src/google/protobuf/wire_format.cc:168-204 | appends the same bytes to the stream |
| SearchRequests.SearchRequest.MutableQuery | src/artm_tests/rpcz_canary_service.pb.h:270-276 | the field counts as set and keeps its contents, in a string of the message's own |
| SearchRequests.SearchRequest.SetQuery | src/artm_tests/rpcz_canary_service.pb.h:249-255 | sets the query and nothing else, never writing to the shared empty string |
| SearchRequests.SearchRequest.ClearQuery | src/artm_tests/rpcz_canary_service.pb.h:240-245 | unsets the query and nothing else |
| SearchRequests.SearchRequest.ReleaseQuery | src/artm_tests/rpcz_canary_service.pb.h:277-286 | hands over the string with its contents, keeps no pointer to it, and unsets the query |
| SearchRequests.SearchRequest.SetAllocatedQuery | src/artm_tests/rpcz_canary_service.pb.h:287-298 | takes over a string of the caller's, other than the message's own, or unsets the query |
| SearchRequests.SearchRequest.SetPageNumber | src/artm_tests/rpcz_canary_service.pb.h:317-320 | sets the page number and nothing else |
| SearchRequests.SearchRequest.ClearPageNumber | src/artm_tests/rpcz_canary_service.pb.h:310-313 | unsets the page number and restores its default |
| SearchRequests.SearchRequest.Clear | src/artm_tests/rpcz_canary_service.pb.cc:184-195 | although it skips fields when no bit is set, the message is like a new one, because a clear bit implies a default value |
| SearchRequests.SearchRequest.MergeFrom | src/artm_tests/rpcz_canary_service.pb.cc:339-350 | the merged value, with the source unchanged and no string shared |
| SearchRequests.SearchRequest.CopyFrom | src/artm_tests/rpcz_canary_service.pb.cc:358-362 | a copy of the source, also when source and target are the same object |
| SearchRequests.SearchRequest.Swap | src/artm_tests/rpcz_canary_service.pb.cc:370-378 | the two messages trade values and strings |
| SearchRequests.SearchRequest.IsInitialized | src/artm_tests/rpcz_canary_service.pb.cc:364-368 | true exactly when the required query is set |
| SearchRequests.SearchRequest.ByteSize | src/artm_tests/rpcz_canary_service.pb.cc:297-325 | the computed and cached size is the number of bytes of the serialisation |
| SearchRequests.SearchRequest.SerializeWithCachedSizes | src/artm_tests/rpcz_canary_service.pb.cc:251-271 | appends the serialisation to the stream |
| SearchRequests.SearchRequest.SerializeWithCachedSizesToArray | src/artm_tests/rpcz_canary_service.pb.cc:273-295 | writes the same bytes into the array and changes nothing else in it |
| SearchRequests.SearchRequest.MergePartialFromCodedStream | src/artm_tests/rpcz_canary_service.pb.cc:197-249 | success flag, message, rest of the input, last tag and legitimate-end flag are those of reading field after field, however often the predictions are given up |
| SearchRequests.SearchRequest.SerializePartialToArray | 3rdparty/protobuf/src/google/protobuf/message_lite.cc:304-313 | fails exactly when the bytes do not fit, changing nothing; else writes them and changes nothing behind them; the size check never fails |
| SearchRequests.SearchRequest.ParseFromArray | 3rdparty/protobuf/src/google/protobuf/message_lite.cc:119-145 | succeeds exactly when the data is read to its end and the query is set, and then replaces the message |
| SearchRequests.PassOn | 3rdparty/protobuf/src/google/protobuf/message_lite.cc:119-313 | one message written to an array and read into another arrives with the same value if and only if it fits, its query is set, and its unknown fields are recoverable and unknown |
| SearchResponses.SearchResponse.SetResults | src/artm_tests/rpcz_canary_service.pb.h:339-341 | replaces one result and nothing else |
| SearchResponses.SearchResponse.AddResults | src/artm_tests/rpcz_canary_service.pb.h:352-354 | appends one result and changes nothing else |
| SearchResponses.SearchResponse.Clear | src/artm_tests/rpcz_canary_service.pb.cc:444-448 | the empty message |
| SearchResponses.SearchResponse.MergeFrom | src/artm_tests/rpcz_canary_service.pb.cc:559-563 | results and unknown fields appended, source unchanged |
| SearchResponses.SearchResponse.CopyFrom | src/artm_tests/rpcz_canary_service.pb.cc:571-575 | a copy of the source, also when source and target are the same object |
| SearchResponses.SearchResponse.Swap | src/artm_tests/rpcz_canary_service.pb.cc:582-589 | the two messages trade values |
| SearchResponses.SearchResponse.ByteSize | src/artm_tests/rpcz_canary_service.pb.cc:526-545 | the computed and cached size is the number of bytes of the serialisation |
| SearchResponses.SearchResponse.SerializeWithCachedSizes | src/artm_tests/rpcz_canary_service.pb.cc:491-506 | appends the serialisation to the stream |
| SearchResponses.SearchResponse.SerializeWithCachedSizesToArray | src/artm_tests/rpcz_canary_service.pb.cc:508-524 | writes the same bytes into the array and changes nothing else in it |
| SearchResponses.SearchResponse.MergePartialFromCodedStream | src/artm_tests/rpcz_canary_service.pb.cc:450-489 | the outcome of reading field after field, however often the predictions are given up |
| SearchResponses.SearchResponse.SerializePartialToArray | 3rdparty/protobuf/src/google/protobuf/message_lite.cc:304-313 | fails exactly when the bytes do not fit, changing nothing; else writes them and changes nothing behind them; the size check never fails |
| SearchResponses.SearchResponse.ParseFromArray | 3rdparty/protobuf/src/google/protobuf/message_lite.cc:119-145 | succeeds exactly when the data is read to its end, and then replaces the message |
| SearchResponses.PassOn | 3rdparty/protobuf/src/google/protobuf/message_lite.cc:119-313 | one message written to an array and read into another arrives with the same value if and only if it fits and its unknown fields are recoverable and pass for no result |

## Left out

- The regular expressions that recognise namespace and class heads, access labels, inline assembly, directives and macro names: a line is modelled by the heads, label, parenthesis count and tokens they find on it.
- The inline assembly state and the line numbers of blocks in the branch erasure comparison: a directive line can advance the former, and erasing lines changes the latter. The object and value models carry both.
- The lookahead for a class's last line, its indentation, and the texts and style checks of the begin-of-block and end-of-block hooks: which blocks get their end checked, and in what order, is modelled.
- Lines that spell no block-structured text, such as those of an unmatched closing brace, in the theorems about scopes. The tracker itself is modelled on every sequence of lines.
- FinalReport.FileFollowsScopes: compares blocks up to inline assembly state and line number, as branch erasure does, and takes the text from the first branches.
- Files whose conditional groups are not closed, in the branch erasure theorem. The tracker itself is modelled on every sequence of lines.
- White space beyond ASCII where lines are stripped or spaces skipped, and lines that contain line breaks.
- `math.log` in the severity: the level is the exact integer logarithm, without floating point.
- The loop over macro names and the literal test at the end of the CHECK check, both regular expressions, and its message.
- Alphabetical order of includes, classification of headers, error counts and output formats.
- Concatenation and round trip are stated for what a parse keeps; the content of a message after a failed parse, and the stream position after a failed read, are unspecified.
- Cutting the input into buffers, byte limits, aliasing and refilling: a stream is one byte string, and the effect of buffer boundaries on the predictions is an unrestricted choice.
- The unrolled fast paths of the varint readers; the fast paths of the writers are modelled.
- 32-bit overflow of total sizes, and output that runs out of space.
- `RepeatedPtrField` and its reuse of cleared strings: the results of a response are a sequence of byte strings, so the pointers from `mutable_results` and `add_results` are not modelled.
- Sharing of storage inside unknown field sets: their fields are values, and merging copies them.
- UTF-8 checks, descriptors, reflection, default instances, deletion of strings, and the macros around the cached size.
- The topic model library itself, its C and C++ interfaces and the other generated messages.
