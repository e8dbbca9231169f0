# Verified models of five SILC components

This project models, in Dafny, the parts of the SILC toolkit whose correctness rests on algorithms
rather than on plumbing, and proves what they are for.

* **Regular expressions** (`Regex*.dfy`): the one-pass compiler that shifts code it has already emitted,
  the backtracking matcher that rewrites its own program while running, the first-character analysis, and
  forward search. Expressions have a meaning of their own (`RegexAst.Matches`). A pattern reads as an
  expression (`RegexSyntax.ParsePattern`), which is checked against an independent printer, against rules for
  operators where they stand, and against set notation and quoted text; the compiler emits exactly the layout
  of that expression; the layout means what the expression means; the machine reports matches only, and finds
  the preferred one if there is one wherever rewriting its program is harmless; the matching loop is that
  machine; search finds the first place at which matching succeeds.
* **Unicode normalisation** (`Utf8*.dfy`, `Nfkc*.dfy`): the UTF-8 codec, decomposition in two passes, canonical
  ordering in place and by segments, Hangul arithmetic, and composition in place, each with laws that do not
  mention its loop. Combining classes, decompositions and compositions are tables the theorems are stated for,
  with the facts they need.
* **BER** (`Ber*.dfy`, `Asn1SequenceOf.dfy`): encoder and decoder, the forms the decoder accepts, and the decoder of
  SEQUENCE OF and SET OF.
* **Stringprep** (`Stringprep*.dfy`): the mapping step, the profile driver and the loop that retries with
  larger buffers, on top of the normalisation above, and what a profile promises of prepared strings.
* **The ID cache** (`IdCache.dfy`): three tables over shared entries, with IDs overwritten in place and entries
  moved between caches.

Each C function with loops or state is a method proved against a specification function or predicate; the
theorems are lemmas about those. Allocation is taken to succeed throughout. Back-references decode as no
instruction at all, so the matcher theorems are about expressions without them (`RegexAst.Supported`), and about
programs whose displacements fit in sixteen bits (`RegexAst.Small`).

Four places where the code does something other than its comments suggest, and what is proved instead:

* The run-time rewrite of star jumps looks through zero-width tests. For patterns that test the text position
  after a loop the matcher can miss a match: `RegexUnsafe.UnsafeMisses` is one, and `RegexUnsafe.WhenMissed` says
  exactly when a loop over single characters and the tests after it lose one. For any program, it is proved
  harmless if all rewritable loops have a safe exit (`RegexCorrect.LoopsSafe`), which holds among others of all
  expressions made of characters, sets, `.`, groups, `|`, `*`, `+`, `?`, `$`, with position tests at most at
  the very start (`RegexEngine.SafeExpressions`). That a reported match is one, that an answer does not depend on
  earlier attempts, and that search agrees with trying each position in turn need no such condition.
* Composition joins a starter with a later one across marks (`NfkcMeaning.AcrossMark`), and takes the two ends of
  the range of trailing consonants for trailing consonants (`NfkcMeaning.FalseTrail`). Exactly when no such join
  is made on the way is the result canonically equivalent (`NfkcMeaning.ComposeMeaning`).
* An update through a cache that does not hold the entry files it there if it had no key of that kind
  (`IdCache.UpdateThroughOther`); `IdCache.Cache.Update` says exactly when.
* The decoder of SEQUENCE OF reports success on an object that is neither SEQUENCE nor SET:
  `Asn1SequenceOf.OtherObject`.

## Model

| member | source | states |
|---|---|---|
| RegexCode.DispRoundTrip | lib/contrib/regexpr.c:315-320 | the two displacement bytes of a jump, read back through a short, give the displacement exactly when it fits in sixteen bits |
| RegexAst.SetByteBit | lib/contrib/regexpr.c:1049-1056 | a character is in a set exactly when its bit of the 32-byte map, tested as the matcher tests it, is set |
| RegexAst.BitmapAdd | lib/contrib/regexpr.c:332-332 | setting the bit of a character turns the map of a set into the map of the set with that character |
| RegexAst.BitmapNot | lib/contrib/regexpr.c:662-666 | inverting the 32 bytes gives the map of the complement |
| RegexCompile.Compiler.constructor | lib/contrib/regexpr.c:414-423 | a fresh compiler agrees with a parser that has read nothing |
| RegexCompile.Compiler.Alloc | lib/contrib/regexpr.c:291-300 | growing the buffer keeps the code emitted so far |
| RegexCompile.Compiler.Shift | lib/contrib/regexpr.c:325-326 | the shifting loop moves the code from a position on up by three bytes and keeps what is before it |
| RegexCompile.Compiler.InsertJump | lib/contrib/regexpr.c:322-330 | inserting a jump yields the code before, the jump, and the code after, unchanged otherwise |
| RegexCompile.Compiler.ToLevel | lib/contrib/regexpr.c:448-462 | changing the precedence level leaves the buffer, the level starts and the pending jumps in agreement with the parser, whose current operand or alternatives are settled |
| RegexCompile.Compiler.Lower | lib/contrib/regexpr.c:455-462 | going down to a level fills in all pending jumps of the current group if it is below the level of alternatives, and none otherwise; no jump of an enclosing group is touched |
| RegexCompile.Compiler.FillLast | lib/contrib/regexpr.c:458-461 | one pending jump is filled in and leads to the end of the code emitted so far |
| RegexCompile.Compiler.AddAtom | lib/contrib/regexpr.c:467-482 | an ordinary operand is appended and becomes what a postfix operator would apply to |
| RegexCompile.Compiler.AddLow | lib/contrib/regexpr.c:486-512 | `^` and `$` are appended at their own precedence level |
| RegexCompile.Compiler.AddPostfix | lib/contrib/regexpr.c:513-543 | `?`, `*` and `+` wrap the whole current operand by shifting it, and do nothing after nothing |
| RegexCompile.Compiler.AddOr | lib/contrib/regexpr.c:544-555 | the bar ends an alternative with a failure jump before it and a pending jump after it, unless 100 are pending |
| RegexCompile.Compiler.AddOpen | lib/contrib/regexpr.c:556-571 | a group begins with a register while there are registers, unless it is nested too deeply |
| RegexCompile.Compiler.AddClose | lib/contrib/regexpr.c:572-586 | a group ends, its alternatives settled, its register the one it began with; a parenthesis with no partner is an error |
| RegexCompile.Compiler.AddSet | lib/contrib/regexpr.c:608-668 | a set compiles to the map of exactly the characters its notation reads as, complemented or not |
| RegexCompile.Compiler.AddMembers | lib/contrib/regexpr.c:630-661 | ranges, a leading bracket and a trailing dash are read into the map as the notation says |
| RegexCompile.Compiler.AddOp | lib/contrib/regexpr.c:463-717 | each operator does to the code what the token it reads as does to the parse, with the same errors |
| RegexCompile.Compiler.Finish | lib/contrib/regexpr.c:719-725 | at the end everything pending is settled, no jump is left pending, Cend follows, and an open group is an error |
| RegexCompile.CompilePattern | lib/contrib/regexpr.c:269-754 | the emitted program is the layout of the expression the pattern reads as, or the error is the one reading gives |
| RegexLayout.PatchedOk | lib/contrib/regexpr.c:455-462 | the code with all alternatives of a group filled in is the layout of those alternatives as one expression |
| RegexLayout.OperandOk | lib/contrib/regexpr.c:513-543 | replacing the current operand keeps everything recorded about the rest of the code |
| RegexLayout.OrOk | lib/contrib/regexpr.c:544-555 | shifting an alternative moves no pending jump recorded before it |
| RegexLayout.EnterOk | lib/contrib/regexpr.c:556-571 | entering a group keeps agreement of code, level starts, pending jumps and registers |
| RegexLayout.LeaveOk | lib/contrib/regexpr.c:572-586 | leaving a group makes it the operand of the enclosing level and restores that level |
| RegexNotation.ReadsTokens | lib/contrib/regexpr.c:445-586 | the tokens of an expression leave the parser with an operand, a sequence or alternatives that match what the expression matches: postfix binds tighter than sequence, sequence tighter than the bar |
| RegexSpelling.LexToken | lib/contrib/regexpr.c:169-243 | under every syntax the spelling of a token reads back as that token |
| RegexSpelling.ReadSet | lib/contrib/regexpr.c:608-668 | every set of characters has a notation, and it reads back as that set |
| RegexSpelling.ReadsBack | lib/contrib/regexpr.c:426-725 | for every expression and syntax, the pattern that spells it reads as an expression that matches exactly the same; it is accepted if it has fewer than 100 parentheses and at most 100 bars |
| RegexReading.ReadsOn | lib/contrib/regexpr.c:426-718 | on the text of any tokens in any order, parsing is applying each token as it reads where it stands: a postfix operator at a beginning, `^` elsewhere, and `$` before anything but the bar, a closing parenthesis and the end are ordinary characters, or errors if the syntax says so |
| RegexReading.LineReads | lib/contrib/regexpr.c:486-534 | under every syntax, expressions, bare `^` and `$` and operators without an operand, one after the other, read as an expression that matches the expressions one after the other, with `^` a test at the beginning and `$` at the end only, and an operator a character at the beginning and nothing after a bare `^` or `$`; otherwise the error is that of operators exactly if one is out of place and the syntax forbids that, or that of nesting |
| RegexLines.Anchors | lib/contrib/regexpr.c:486-512 | the pattern of any expression with `$` after it, or `^` before it, matches the expression and then the end of a line, or its beginning first |
| RegexLines.LooseAlternatives | lib/contrib/regexpr.c:226-243 | where anchors bind more tightly than the bar, lines separated by bars read as alternatives, each with `^` and `$` at its own beginning and end |
| RegexLines.TightAlternatives | lib/contrib/regexpr.c:226-243 | where the bar binds more tightly, `^` before and `$` after alternatives apply to all of them |
| RegexFaults.FirstFault | lib/contrib/regexpr.c:426-754 | the text of any tokens is refused for their first fault, found by counting: an operator out of place, more than 100 pending bars or 99 open groups, a parenthesis with no partner; and accepted if they have none |
| RegexFaults.Unmatched | lib/contrib/regexpr.c:572-720 | a pattern whose parentheses do not match is refused, and the error of parentheses is given for no other; it is that error if operators may stand anywhere and there is not too much nesting |
| RegexTexts.SetNotation | lib/contrib/regexpr.c:608-668 | a bracketed set of characters and ranges, with or without a leading caret and a trailing dash, matches exactly one character: one of them, or none of them |
| RegexTexts.RangeNotation | lib/contrib/regexpr.c:641-647 | `[a-z]` matches exactly the characters from a to z |
| RegexTexts.MatchesItself | lib/contrib/regexpr.c:169-207 | any text, a backslash put before each character that is special under the syntax, is a pattern that matches this text and nothing else |
| RegexTexts.Unfinished | lib/contrib/regexpr.c:283-289 | a lone backslash, or an opening bracket with no closing one, after any expression is refused as ending prematurely, and a reference to register 0 as a bad register |
| RegexRegisters.InOrderOfOpening | lib/contrib/regexpr.c:556-566 | in every pattern that is accepted, the groups have the registers 1 to 9 in the order of their opening parentheses, and further groups none |
| RegexMeaning.MatchAccepted | lib/contrib/regexpr.c:992-1345 | code laid out anywhere accepts every match of its expression |
| RegexMeaning.AcceptedMatches | lib/contrib/regexpr.c:992-1345 | an accepting run through the layout of an expression passes a match of it first |
| RegexMeaning.ProgramMeaning | lib/contrib/regexpr.c:427-725 | compiling preserves meaning: the program can reach Cend at a text position if and only if the expression matches up to there |
| RegexMeaning.AcceptsStep | lib/contrib/regexpr.c:993-1345 | acceptance is one step of the code followed by acceptance |
| RegexWellFormed.ProgramWellFormed | lib/contrib/regexpr.c:315-330 | in every compiled program below 32768 bytes each jump lands on an instruction boundary, each star jump targets the failure jump that exits just after it, each dummy failure jump precedes a failure jump, and no pending jump survives |
| RegexBackRefs.EveryProgram | lib/contrib/regexpr.c:315-330 | the same for every expression, each back-reference being an instruction with a boundary just after it |
| RegexWellFormed.AllRespect | lib/contrib/regexpr.c:526-543 | a loop body is entered only from inside it or by the dummy failure jump of its own loop |
| RegexWellFormed.UnfoldAtom | lib/contrib/regexpr.c:467-482 | the instruction emitted for an operand accepts exactly the characters the operand reads |
| RegexPlaces.WordBytes | lib/contrib/regexpr.c:160-165 | the word characters are the letters and digits |
| RegexPlaces.Mirrored | lib/contrib/regexpr.c:1038-1048 | a test holds at a place exactly if its mirror image holds there in the text backwards: beginnings of lines, words and the text for ends, word boundaries for themselves |
| RegexPlaces.Boundaries | lib/contrib/regexpr.c:1305-1324 | every place is a word boundary or not one; the boundaries are the beginnings and ends of words and both ends of the text |
| RegexPlaces.WholeLine | lib/contrib/regexpr.c:1038-1048 | `.*` between the beginning and the end of a line matches exactly the lines |
| RegexPlaces.WholeWord | lib/contrib/regexpr.c:1281-1304 | word characters between the beginning and the end of a word match exactly the words |
| RegexPlaces.WholeText | lib/contrib/regexpr.c:1273-1280 | what is between the beginning and the end of the text matches the whole text only |
| RegexLoops.MakeNormalJump | lib/contrib/regexpr.c:1218-1222 | rewriting a star jump to a plain jump keeps the program a variant of the compiled one |
| RegexLoops.MakeUpdateJump | lib/contrib/regexpr.c:1223-1229 | so does rewriting it to an updating jump, which leads just after the failure jump of its loop |
| RegexLoops.EntersAtHead | lib/contrib/regexpr.c:1100-1216 | control enters the body of a rewritable loop at its head only |
| RegexRuns.UpdateSound | lib/contrib/regexpr.c:1124-1216 | the run-time test on the program as rewritten so far answers yes only where it would on the compiled one |
| RegexRuns.StepInv | lib/contrib/regexpr.c:993-1345 | every step keeps the invariant on code, text position and failure stack |
| RegexRuns.InitialInv | lib/contrib/regexpr.c:976-979 | the invariant holds when matching starts |
| RegexRuns.UpdateJumpInv | lib/contrib/regexpr.c:1174-1234 | wherever an updating jump can run, the failure stack is not empty, its top frame resumes just after that loop, and moving that frame keeps the invariant |
| RegexOwners.StepOwned | lib/contrib/regexpr.c:993-1345 | every step keeps this: in the body of each rewritable loop the topmost failure point was pushed by that loop's own failure jump, or by the dummy one of its `+` |
| RegexOwners.MovesItsOwn | lib/contrib/regexpr.c:1223-1234 | the failure point an updating jump moves was pushed by the loop it closes |
| RegexOwners.EveryState | lib/contrib/regexpr.c:976-1368 | every state that matching reaches from its start, on a program rewritten to any degree, satisfies the invariant, and an updating jump there would move a failure point of its own loop |
| RegexCorrect.StepOffers | lib/contrib/regexpr.c:993-1368 | what is on offer after a step was on offer before; and if all rewritable loops have a safe exit, something is still on offer if anything was |
| RegexCorrect.DropSafe | lib/contrib/regexpr.c:1131-1133 | if the failure point an updating jump moves could still have led to a match, and the loop has a safe exit, then so can the moved one, and without consuming anything |
| RegexCorrect.RunSound | lib/contrib/regexpr.c:997-1037 | a reported match was on offer when the run started |
| RegexCorrect.RunComplete | lib/contrib/regexpr.c:1349-1362 | for programs with safe loops: a run that reports no match had none on offer |
| RegexPlain.SameAnswer | lib/contrib/regexpr.c:1100-1239 | for programs with safe loops: the rewriting machine, on a program with any jumps rewritten already, gives the same answer as the machine that makes plain jumps only, when neither overflows |
| RegexRank.StepLowers | lib/contrib/regexpr.c:993-1272 | every step lowers the measure: levels of the stack first, then the code still ahead |
| RegexRank.Halts | lib/contrib/regexpr.c:993-1368 | from every reachable state, on every text, the matcher halts |
| RegexMatch.Grow | lib/contrib/regexpr.c:1246-1251 | the move from 128 to 4100 failure points keeps every frame |
| RegexMatch.PushFrame | lib/contrib/regexpr.c:1242-1272 | a failure point is pushed unless 4100 are pending |
| RegexMatch.Pop | lib/contrib/regexpr.c:1349-1359 | failure resumes the topmost failure point that carries a text position |
| RegexMatch.StarTurn | lib/contrib/regexpr.c:1100-1239 | a star jump rewrites itself in place and moves the failure point exactly as the machine does |
| RegexMatch.ReMatch | lib/contrib/regexpr.c:911-1368 | the matching loop over buffer, text and stack terminates with the machine's answer and leaves the buffer as the machine rewrites it |
| RegexEngine.RunCorrect | lib/contrib/regexpr.c:992-1368 | whatever a run answers is so: n characters from pos are in the language; or, for programs with safe loops, no prefix at pos is |
| RegexChoice.StepKeepsChoice | lib/contrib/regexpr.c:993-1368 | no step, with its rewriting and its moved failure points, changes which match comes first in the order in which the alternatives are tried, for programs with safe loops |
| RegexPreference.EndsMatch | lib/contrib/regexpr.c:513-571 | the ends of matches in order of preference, earlier alternatives and further rounds of a loop first, are exactly the ends of all matches, if no loop goes around without reading |
| RegexPreference.FirstPreference | lib/contrib/regexpr.c:1349-1359 | for programs with safe loops that never go around without reading: the match reported is the first in the order of preference, and none is reported only if there is none, whatever earlier runs have rewritten |
| RegexEngine.SafeExpressions | lib/contrib/regexpr.c:1136-1153 | expressions that test the text position nowhere but at their very start have no loop whose failure point is moved wrongly |
| RegexUnsafe.WhenMissed | lib/contrib/regexpr.c:1100-1216 | for a loop, `*` or `+`, over one-character operands followed by any tests of the position: there is a text on which the matcher answers -1 although the expression matches, if and only if the loop is rewritten and what it reads can take it from where all the tests hold to where some do not; the condition is on four characters and can be checked beforehand |
| RegexUnsafe.WhenTestMissed | lib/contrib/regexpr.c:1100-1216 | for `*` and one test: which characters the loop must not read |
| RegexUnsafe.WhenOneMissed | lib/contrib/regexpr.c:1100-1216 | for one character c and one test: with `*`, a match can be missed exactly for `^` unless c is a newline, for the start of the text, for the start of a word if c is a word character, for the end of one if it is not, and for both word-boundary tests; with `+`, exactly for the test for no word boundary |
| RegexUnsafe.LoopAnswer | lib/contrib/regexpr.c:1100-1234 | what the matcher answers for such an expression on any text: the loop goes as far as it can and the tests are made there only |
| RegexUnsafe.UnsafeMisses | lib/contrib/regexpr.c:1100-1216 | `a*\b` on "ab": the matcher answers -1 although the empty prefix matches |
| RegexEngine.OverflowMeansFull | lib/contrib/regexpr.c:1242-1245 | -2 is answered only by a run in which 4100 failure points are pending at once |
| RegexEngine.OverflowExactly | lib/contrib/regexpr.c:1242-1245 | a step gives up exactly if it has to push a failure point while 4100 are pending |
| RegexAnswer.SameTest | lib/contrib/regexpr.c:1124-1216 | at a star jump not yet rewritten, the run-time test answers on the program as rewritten so far exactly what it answers on the compiled one |
| RegexAnswer.AnswerNow | lib/contrib/regexpr.c:911-1368 | matching at a position ends in the same way on the program as compiled and as any earlier attempts have left it |
| RegexAnswer.AnswerMeaning | lib/contrib/regexpr.c:911-1368 | matching at a position ends in exactly one way; a match it reports is one, and for programs with safe loops there is none if it reports none |
| RegexFastmap.FastmapAux | lib/contrib/regexpr.c:769-864 | the depth-first walk over cyclic code terminates and records exactly the contributions of the positions seen |
| RegexFastmap.DoCompileFastmap | lib/contrib/regexpr.c:866-887 | fastmap and can_be_null say exactly which characters, end or end of line can be reached without consuming |
| RegexFastmap.FastmapSound | lib/contrib/regexpr.c:769-887 | if some run from p matches at a text position then can_be_null is 1, or the character there is in the map, or it is the end of the text and can_be_null is 2; on the program as rewritten so far |
| RegexFastmap.FastmapSoundFresh | lib/contrib/regexpr.c:769-887 | the same from every position of a program not rewritten |
| RegexUnsafe.TailUnsound | lib/contrib/regexpr.c:769-887 | from the updating jump of a rewritten loop that is not so: the program can be left at the end of the text, of which can_be_null says nothing |
| RegexFastmap.MarkReader | lib/contrib/regexpr.c:795-827 | a consuming instruction marks exactly the characters it accepts |
| RegexFastmap.TestUpdate | lib/contrib/regexpr.c:1120-1216 | the run-time test at a star jump answers exactly whether the loop body is straight-line code that surely consumes, with no character in common with what can follow the loop |
| RegexSearch.PatternBuffer.CompileFastmap | lib/contrib/regexpr.c:889-906 | the fastmap, can_be_null and the anchor are computed once and are sound for the expression |
| RegexSearch.PatternBuffer.Match | lib/contrib/regexpr.c:1374-1381 | the answer is the one the program as compiled gives at pos, whatever earlier calls have made of it: n >= 0 is a match of n characters, -2 means the stack overflowed, and -1 means, for programs with safe loops, that there is no match; if moreover no loop goes around without reading, the match is the preferred one; the buffer stays a compiled form of the expression |
| RegexSearch.PatternBuffer.Skip | lib/contrib/regexpr.c:1444-1447 | skipping by the fastmap passes over no position at which there is a match |
| RegexSearch.PatternBuffer.Search | lib/contrib/regexpr.c:1398-1494 | for every program, forward search with fastmap, anchor and early return answers the least position in range at which re_match succeeds, -1 if it succeeds at none, -2 if it overflows at one and succeeds at none before; for programs with safe loops that is the least position with a match, or none has one |
| RegexSearch.NonePassed | lib/contrib/regexpr.c:1444-1494 | where the expression does not match re_match does not succeed, and for programs with safe loops it fails nowhere else |
| RegexSearch.MapIsSound | lib/contrib/regexpr.c:889-906 | every match starts with a character the fastmap allows, or where can_be_null allows none |
| RegexSearch.AnchorIsSound | lib/contrib/regexpr.c:898-904 | an anchored pattern matches at line starts, or at the start of the text, only |
| RegexPattern.FindFirst | lib/contrib/regexpr.c:269-1495 | compiling a pattern string and searching a text answers the least position at which re_match succeeds, or -1, or -2; what it finds is a match of what the pattern reads as, and for programs with safe loops the first one |
| Utf8.TopFits | lib/contrib/nfkc.c:265-301 | what is left for the first byte fits beside its marker bits |
| Utf8.PutChar | lib/contrib/nfkc.c:261-309 | the encoder writes exactly its pre-computed length and nothing else |
| Utf8.Value | lib/contrib/nfkc.c:129-139 | the bytes of a character give it back, and its first byte gives its width |
| Utf8.GetChar | lib/contrib/nfkc.c:235-247 | the checking decoder gives the value of the character, or -1 for a bad first byte or a missing continuation byte |
| Utf8.CharOfText | lib/contrib/nfkc.c:149-168 | at each character of encoded text the checking decoder, the fast decoder and the table of widths agree |
| Utf8.FastChar | lib/contrib/nfkc.c:361-404 | the fast decoder gives the value of a character with a proper first byte |
| Utf8.CountChars | lib/contrib/nfkc.c:185-220 | the counting loop counts the characters |
| Utf8.ToUcs4 | lib/contrib/nfkc.c:328-414 | decoding an encoded text gives its code points and a terminator |
| Utf8.ToUtf8 | lib/contrib/nfkc.c:438-486 | encoding gives the encoding of the code points before the terminator in a buffer of just that size, or the index of the first that cannot be encoded |
| Utf8.RoundTrip | lib/contrib/nfkc.c:327-486 | every sequence of non-zero code points below 0x80000000 comes back from encoding and decoding |
| Utf8.EncodingsDiffer | lib/contrib/nfkc.c:438-486 | different texts have different encodings |
| Utf8Forms.EncodingShortest | lib/contrib/nfkc.c:261-309 | the encoding of a code point is the one form of the table in RFC 2279 section 2 that holds it in the fewest bytes; ASCII characters are encoded as themselves |
| Utf8Forms.NoneShorter | lib/contrib/nfkc.c:265-301 | fewer bytes than the encoding has do not hold the code point |
| Utf8Forms.DecodesForms | lib/contrib/nfkc.c:235-247 | the checking decoder answers the code point of any form of that table that stands there, longer than need be or not, and -1 if none does |
| NfkcOrder.OrderSorts | lib/contrib/nfkc.c:532-566 | ordering sorts the marks between starters by class and keeps the order of marks of the same class |
| NfkcOrder.OrderStays | lib/contrib/nfkc.c:532-566 | ordering is a permutation in which starters keep their positions |
| NfkcOrder.OneOrder | lib/contrib/nfkc.c:532-566 | only one ordered string can be reached by exchanging marks of different classes |
| NfkcOrder.SameOrder | lib/contrib/nfkc.c:532-566 | strings that differ only by such exchanges are ordered alike |
| NfkcOrder.OrderUnique | lib/contrib/nfkc.c:532-566 | an ordered string reached by such exchanges is the ordering |
| NfkcOrder.Percolate | lib/contrib/nfkc.c:549-558 | the inner loop inserts a mark before the marks of higher class |
| NfkcOrder.Pass | lib/contrib/nfkc.c:541-564 | one pass orders the whole string, and reports no exchange if it was ordered |
| NfkcOrder.CanonicalOrdering | lib/contrib/nfkc.c:532-566 | the loop on a non-empty part of the buffer terminates with that part ordered and the rest untouched |
| NfkcDecompose.FindDecomposition | lib/contrib/nfkc.c:609-648 | binary search finds the row of the character, falling back to the canonical mapping, or none |
| NfkcDecompose.DecomposeHangul | lib/contrib/nfkc.c:573-605 | a syllable becomes its two or three jamo; without a buffer they are only counted |
| NfkcDecompose.Count | lib/contrib/nfkc.c:751-775 | the counting pass counts what the filling pass writes |
| NfkcDecompose.Fill | lib/contrib/nfkc.c:777-833 | the filling pass, ordering segment by segment, leaves the decomposition of the whole text in canonical order, in a buffer of the counted size |
| NfkcDecompose.FilledOrdered | lib/contrib/nfkc.c:814-833 | ordering the current segment when the part before it is in order puts all written so far in order |
| NfkcDecompose.EquivalentTexts | lib/contrib/nfkc.c:777-833 | texts whose decompositions differ by exchanges of marks of different classes give the same buffer |
| NfkcDecompose.DecomposeAgain | lib/contrib/nfkc.c:777-833 | decomposing a second time changes nothing if no expansion holds what would be decomposed further |
| NfkcReference.RowDecomposes | lib/contrib/nfkc.c:609-648 | a character decomposes to the compatibility mapping of its row, if that is wanted and there is one, or else the canonical one, or else to itself; without a row to itself |
| NfkcReference.SyllableDecomposes | lib/contrib/nfkc.c:573-605 | the syllable of the l-th leading consonant, v-th vowel and t-th trailing consonant decomposes to these |
| NfkcCompose.JamoCompose | lib/contrib/nfkc.c:652-673 | the jamo of a syllable compose to the syllable |
| NfkcCompose.ComposePass | lib/contrib/nfkc.c:837-870 | the composing loop, removing characters in place, computes the composition |
| NfkcReference.TwoCompose | lib/contrib/nfkc.c:847-850 | two characters that the table composes, and Hangul arithmetic does not, compose to what the table says, unless they are marks of the same class |
| NfkcReference.StaysComposed | lib/contrib/nfkc.c:837-870 | composition leaves a text as it is if and only if no character composes with the last starter before it while the one just before it is a starter or of another class |
| NfkcReference.ComposeReads | lib/contrib/nfkc.c:837-870 | on a text in canonical order whose joins are lawful, composition is that of one reading of the text from left to right with the last starter and the marks kept since, in which a character is blocked by a kept one of its class just before it |
| NfkcReference.NormalParts | lib/contrib/nfkc.c:739-875 | the decomposed normal form is the ordered text of all decompositions, and the composed one the composition of that |
| NfkcReference.TwoNormal | lib/contrib/nfkc.c:739-875 | a starter and a mark that compose become one character in the composed forms and stay in the decomposed ones |
| NfkcReference.OneNormal | lib/contrib/nfkc.c:739-875 | a character with only a compatibility mapping to one character becomes that in the compatibility forms and stays in the canonical ones |
| NfkcCompose.HangulFixed | lib/contrib/nfkc.c:837-870 | every string of precomposed syllables is its own normal form |
| NfkcCompose.NormalizeWc | lib/contrib/nfkc.c:739-875 | the buffer holds the normal form and a terminator |
| NfkcCompose.NormalizeUtf8 | lib/contrib/nfkc.c:914-923 | the result is the encoding of the normal form; for precomposed syllables it is the input |
| NfkcMeaning.CombineKept | lib/contrib/nfkc.c:652-736 | a composed character decomposes to what it was composed of, but for the two ends of the trailing range |
| NfkcMeaning.ComposeMeaning | lib/contrib/nfkc.c:837-870 | composing a decomposed and ordered text gives a canonically equivalent one if and only if every join the loop makes is lawful: of neighbours or of a mark, and of no false trailing consonant; for tables that decompose the character after the last syllable to at most two |
| NfkcMeaning.NeverUp | lib/contrib/nfkc.c:837-870 | no join makes the decomposed text longer, or as long with more pairs of a mark and a later starter, and an unlawful one leaves it below what it was, whatever follows |
| NfkcMeaning.NormalAgain | lib/contrib/nfkc.c:739-875 | normalizing a second time changes nothing, if the joins made the first time were lawful and the tables decompose the result as the composition table presumes |
| NfkcMeaning.CrossKept | lib/contrib/nfkc.c:532-566 | exchanging marks of different classes changes no number of such pairs |
| NfkcMeaning.FalseTrail | lib/contrib/nfkc.c:665-670 | a text of leading consonant, vowel and the character before the trailing consonants that composes to a syllable without it |
| NfkcMeaning.AcrossMark | lib/contrib/nfkc.c:847-860 | a text of leading consonant, mark and vowel that composes to an inequivalent one |
| Ber.DigitAt | lib/silcasn1/silcber.c:56-66 | a digit is found by shifting |
| Ber.EncodedLen | lib/silcasn1/silcber.c:242-269 | the computed length is that of the encoding, modulo 2 to the power of 32 |
| Ber.PutTag | lib/silcasn1/silcber.c:45-67 | the identifier octets carry class, encoding and a short or multi-octet tag |
| Ber.PutLength | lib/silcasn1/silcber.c:69-94 | the length octets are in short or long form |
| Ber.Encode | lib/silcasn1/silcber.c:30-105 | the encoder writes exactly the encoding, or nothing if the buffer is shorter than it |
| Ber.Decode | lib/silcasn1/silcber.c:117-236 | the decoder computes the object at the front of the buffer or finds it malformed |
| Ber.TagReads | lib/silcasn1/silcber.c:138-163 | a multi-octet tag reads back |
| Ber.LengthReads | lib/silcasn1/silcber.c:192-203 | a multi-octet length reads back |
| Ber.RoundTrip | lib/silcasn1/silcber.c:117-236 | decoding a definite-length encoding followed by anything gives the same class, encoding bit, tag and contents, header and contents lengths adding up to the encoding |
| Ber.SplitsOneWay | lib/silcasn1/silcber.c:30-236 | an encoding followed by anything splits in one way only |
| Ber.Indefinite | lib/silcasn1/silcber.c:204-220 | on a buffer that is exactly an indefinite-length encoding, decoding gives back the contents if and only if they have even length and no two zero octets at an even offset |
| BerForms.Accepts | lib/silcasn1/silcber.c:117-236 | the decoder accepts a buffer if and only if it begins with an object in one of the forms of section 8.1 of X.690 that fits in the buffer, shortest or not, and answers that object, tag and length taken modulo 2 to the power of 32 |
| BerForms.Stable | lib/silcasn1/silcber.c:117-236 | an object of definite length is decoded the same whatever follows it |
| BerForms.Truncated | lib/silcasn1/silcber.c:117-236 | no proper prefix of a definite-length encoding is accepted |
| BerForms.TagShortest | lib/silcasn1/silcber.c:45-67 | no form of a tag has fewer octets than the encoder writes |
| BerForms.LengthShortest | lib/silcasn1/silcber.c:69-94 | no form of a length has fewer octets than the encoder writes |
| Asn1SequenceOf.DecodeSequenceOf | lib/silcasn1/silcasn1_decode.c:95-155 | the splitting loop returns the elements and the success that splitting amounts to |
| Asn1SequenceOf.SplitContents | lib/silcasn1/silcasn1_decode.c:108-152 | on definite-length elements the loop returns the longest prefix of raw elements of the expected types |
| Asn1SequenceOf.Conservation | lib/silcasn1/silcasn1_decode.c:95-155 | on exactly one SEQUENCE or SET of definite-length elements, decoding succeeds, returns that prefix in order, and put together it is the contents up to the first other element |
| Asn1SequenceOf.OtherObject | lib/silcasn1/silcasn1_decode.c:96-105 | an object of another tag is reported as decoded, with no elements |
| Asn1SequenceOf.Broken | lib/silcasn1/silcasn1_decode.c:108-152 | contents that end, after expected elements, in something that is no object fail, with the elements before it |
| Asn1SequenceOf.CutShort | lib/silcasn1/silcasn1_decode.c:95-155 | so do contents that end inside an element; a SEQUENCE or SET that is itself cut short anywhere fails with no elements |
| Stringprep.FindString | lib/contrib/stringprep.c:54-71 | the first character that is in the table is found, with its row |
| Stringprep.ApplyTable | lib/contrib/stringprep.c:74-99 | the rescan loop terminates; it fails exactly if on the way the string would not fit; otherwise it yields the left-to-right substitution; the buffer at and past the capacity is untouched |
| Stringprep.SubstitutedOutside | lib/contrib/stringprep.c:82-96 | what a table none of whose outputs is in it has produced is not in it |
| Stringprep.Bidi | lib/contrib/stringprep.c:214-262 | the check of directions fails with the reason the tables give |
| Stringprep.NormalizeInto | lib/contrib/stringprep.c:151-179 | normalization replaces the string if the result leaves room |
| Stringprep.DoStep | lib/contrib/stringprep.c:148-268 | a step of the profile does to the string, or fails for the reason, that its kind and the flags say |
| Stringprep.Prepare | lib/contrib/stringprep.c:138-273 | the driver computes the steps in order and does not touch the buffer at or past the capacity |
| Stringprep.Roomier | lib/contrib/stringprep.c:138-273 | any result but that of too small a buffer is the same for every larger capacity |
| Stringprep.EnoughFits | lib/contrib/stringprep.c:138-273 | there is a capacity from which on the buffer is not too small |
| Stringprep.SameAnswer | lib/contrib/stringprep.c:369-388 | whatever capacity gives an answer gives the answer that room enough gives |
| Stringprep.Retry | lib/contrib/stringprep.c:369-388 | the retry loop terminates and its answer does not depend on how often it retried |
| Stringprep.StringPrep | lib/contrib/stringprep.c:359-411 | the string is replaced by the prepared one if that fits, and kept otherwise |
| StringprepMeaning.Becomes | lib/contrib/stringprep.c:26-52 | a character is in a table exactly if some row before any row of zeros has it; it then becomes what the first such row maps it to, and otherwise stays |
| StringprepMeaning.Piecewise | lib/contrib/stringprep.c:73-99 | a string is mapped character by character |
| StringprepMeaning.BidiMeaning | lib/contrib/stringprep.c:214-262 | the check of directions passes exactly the strings that meet the requirements of section 6 of RFC 3454, for a profile with the three kinds of table: none prohibited, not both directions, and right-to-left characters at both ends if there are any |
| StringprepMeaning.PreparedPasses | lib/contrib/stringprep.c:138-273 | a prepared string passes every step after which no step changes it: it holds no prohibited character, no unassigned one if those are ruled out, none a clean table would map, and its directions are in order |
| StringprepMeaning.ChecksOnly | lib/contrib/stringprep.c:138-273 | a profile of checks prepares exactly the strings that pass all of them, and leaves these as they are |
| StringprepMeaning.ProhibitsOnly | lib/contrib/stringprep.c:181-186 | a profile of tables of prohibited characters fails, as containing one, exactly on the strings that contain one |
| StringprepMeaning.MapsThenChecks | lib/contrib/stringprep.c:199-206 | a profile that maps and then checks prepares the mapped string, or the string itself if flags in common with the step switch it off |
| StringprepMeaning.NormalizesThenChecks | lib/contrib/stringprep.c:151-179 | a profile that normalizes and then checks prepares the composed compatibility form; a caller who asks for no normalization is refused, and so is a string that cannot be encoded |
| StringprepMeaning.MapRoom | lib/contrib/stringprep.c:87-88 | mapping that changes anything needs a buffer larger than the mapped string, and no larger one than the string needs on the way |
| StringprepMeaning.RoomForFirst | lib/contrib/stringprep.c:151-206 | a first step of mapping or normalizing fails for want of room exactly if the string would not fit on the way, or the normal form would fill the buffer |
| IdCache.Cache.Add | lib/silcapputil/silcidcache.c:121-174 | an entry is added and filed under all it has, unless it has nothing or its full ID is there already, when nothing changes; caches stay valid and apart |
| IdCache.Cache.Del | lib/silcapputil/silcidcache.c:178-202 | deleting answers TRUE exactly for an entry of this cache, which is then filed nowhere |
| IdCache.Cache.DelById | lib/silcapputil/silcidcache.c:206-218 | an entry whose ID compares equal in the table is deleted, if there is one |
| IdCache.Cache.DelByContext | lib/silcapputil/silcidcache.c:222-234 | an entry with the context is deleted, if there is one |
| IdCache.Cache.UpdateId | lib/silcapputil/silcidcache.c:245-264 | the ID of an entry of this cache is overwritten in place, or set, and the entry filed anew under it; for any other entry what is answered and what becomes of the tables |
| IdCache.Cache.UpdateName | lib/silcapputil/silcidcache.c:266-276 | the name of an entry of this cache is replaced and the entry filed anew under it; for any other entry what is answered and what becomes of the tables |
| IdCache.Cache.Update | lib/silcapputil/silcidcache.c:238-279 | updating an entry of this or of the other cache keeps every entry filed under exactly its current keys if and only if it is not an entry of the other cache that had no ID, or no name, of the kind to be set; it is refused exactly if it is one that had; full IDs stay unique if the new one is unused |
| IdCache.UpdateThroughOther | lib/silcapputil/silcidcache.c:238-279 | an entry with only a name, updated with an ID through the other cache: TRUE is answered and the tables are wrong |
| IdCache.Cache.Move | lib/silcapputil/silcidcache.c:300-360 | a move transfers the entry between the tables of two caches, or files it anew in the same one if it has no ID; FALSE changes nothing; it succeeds whenever the entry is there, its key is no other entry's and its full ID is not in the other cache |
| IdCache.Run | lib/silcapputil/silcidcache.c:121-360 | a run of additions, deletions, updates and moves on two caches, each call with an entry of either: until an update files an entry of the other cache, every live entry is in exactly one cache, filed under exactly its current keys, and after such an update that is not so; full IDs are unique as long as each update gives an ID that no other entry of its cache has at the time, as one never given before is |
| IdCache.Cache.FindByIdOne | lib/silcapputil/silcidcache.c:405-414 | finding by full ID gives an entry that has it, or none if there is none |
| IdCache.Cache.FindById | lib/silcapputil/silcidcache.c:384-401 | finding by ID gives exactly the entries whose ID compares equal in the table: for client IDs those with the same hash, for others those with the same ID |
| IdCache.Cache.FindByContext | lib/silcapputil/silcidcache.c:418-425 | finding by context gives an entry that has it, or none if there is none |
| IdCache.Cache.FindByNameOne | lib/silcapputil/silcidcache.c:450-456 | finding by name gives an entry that has it, or none if there is none |

## Left out

- Registers and back-references: group positions are not restored on backtracking, so they have no clean meaning; group boundaries are instructions that do nothing here, and `\1` to `\9` compile to well-formed programs (RegexBackRefs.EveryProgram) but do not match.
- Translate tables, ANSI and hexadecimal escapes, and the Emacs opcodes of the regular-expression engine.
- Matching over two strings, and backward search: the boundary cases differ from the meaning on one string.
- Searching without a fastmap: the model always has one.
- RegexEngine.RunCorrect: that -1 means no match is claimed for programs with safe loops only, because of the patterns of RegexUnsafe.WhenMissed; that a match found is a match is claimed for all.
- RegexPlain.SameAnswer: likewise for programs with safe loops. A condition both necessary and sufficient is given for one loop over single characters and the tests after it (RegexUnsafe.WhenMissed), not for the other programs whose loops are not safe.
- RegexFastmap.FastmapSound: on a program some of whose jumps have been rewritten it is not claimed from positions inside the body of a loop after its first consuming instruction, where the matcher never asks and where it fails (RegexUnsafe.TailUnsound).
- RegexPattern.FindFirst: patterns with back-references, and programs of 32768 bytes or more.
- RegexLines.TightAlternatives: where the bar binds more tightly than anchors, anchors between alternatives, which cut the pattern in two, are covered by RegexReading.ReadsOn only.
- RegexPreference.FirstPreference: loops that can go around without reading, around which the matcher goes until its stack is full.
- NfkcReference.ComposeReads: texts in which the loop makes an unlawful join, and tables with composites that are no starters; NfkcReference.StaysComposed and NfkcReference.TwoCompose are stated for all.
- Utf8.FastChar: what the fast decoder makes of bytes that are not UTF-8.
- The contents of the Unicode tables: theorems name the facts they use.
- A maximum length for the text to normalise, and expansions that are empty.
- Ber.Encode: lengths that add up to 2 to the power of 32 or more, for which the computed length wraps; and encoding with no data given.
- Ber.Decode: calls that do not ask for the data.
- The argument-list-driven decoder around the SEQUENCE OF loop, and where its results are allocated.
- Stringprep.ApplyTable: tables some of whose outputs are in the table, for which the loop need not end.
- Stringprep.StringPrep: input that is not UTF-8.
- IdCache.Cache.Add: an ID in memory that is in use in another cache; likewise for IdCache.Cache.Update where the entry has none yet.
- Hash functions and chains, destructors, and the memory of deleted entries in the ID cache; the lists that finding by name and listing everything return.
- Buffers as objects with head and tail, logging, and failures of allocation.
