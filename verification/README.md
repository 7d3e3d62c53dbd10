# A verified model of a small C library

The library is a freestanding libc for a 32-bit ARM system: no other library is behind it, so its
regular expressions, its heap, its integer and floating-point helpers, its calendar and its text and
stream functions are all written out in C. This project models the parts of it with the most logic in
Dafny and proves what they are for. Code that works by assignment is modelled by classes and methods with
loops, each proved against a specification; what the specification promises is proved as lemmas.

## What is modelled

**Regular expressions** (`RegexSemantics`, `RegexRecords`, `RegexGrammar`, `RegexVerdict`, `RegexCompile`,
`RegexTexts`, `RegexBrackets`, `EreSyntax`, `EreText`, `EreRoundTrip`, `BreSyntax`, `BreText`, `BreRoundTrip`,
`RegexNfa`, `RegexCaptures`, `RegexExec`, `RegexChain` and their helpers). `Matches` is
the meaning of an expression: concatenation is composition, alternation union, star the reflexive-transitive
closure, anchors guarded identities. `regcomp` reads a pattern into an array of nodes by recursive descent;
`regexec` compiles the array to a Thompson automaton and runs all threads at once, stamping each instruction
with the step it was last entered in. The chain proved is: a pattern is accepted exactly when its text spells an
expression, and compiles to the tree of that expression (`EreText.AcceptedIsSpelled`, `BreText.BasicIsSpelled`);
which error the others end with is said by one pass over the text (`RegexVerdict.VerdictRight`); the tree has the
meaning of the expression (`EreSyntax.ExprMeaning`, `BreRoundTrip.BasicMeaning`); the instructions laid down for a tree
have a path from position i to position j exactly when the tree matches there (`RegexNfa.BuiltCorrect`); the simulation
answers 0 exactly when some span matches, and reports the leftmost-longest one with the groups that a match there
records (`RegexExec.Regexec`), which `RegexRecords` says of the tree alone; both calls together therefore find, in a
text, exactly what the pattern spells, and for each group what is between its parentheses
(`RegexChain.SearchExtended`, `RegexChain.SearchBasic`). Termination on empty loops, and that no thread is ever dropped,
are part of it.

**The heap** (`HeapChain`, `HeapCalls`, `HeapOutcome`, `Heap`). Block headers linked through memory, first fit, split,
merge, and pages from `mmap`, in 32-bit arithmetic. `HeapChain` and `HeapCalls` say what the calls do to
the sequence of blocks and what every run keeps: blocks are aligned, disjoint, and tile the mapped bytes
exactly. `HeapOutcome` says when each call succeeds and with which block, on sizes and blocks alone. `Heap` is
the code over the linked headers, proved to do just that to the sequence, and to leave the payload of every
other live block alone; `realloc` carries the contents over on all its paths.

**Arithmetic** (`Words`, `Division`, `SoftFloat`, `Numerals`, `WrittenNumbers`). Bit-serial division, division by ten
with shifts, conversions between 64-bit integers and doubles on the bits of the double, number printing, and
number parsing with clamping. A word is a number below 2^64; shifts, masks and negation are written out
modulo 2^64.

**Calendar and zones** (`Calendar`, `TimeZone`, `IsoWeek`). The loops of `gmtime` against a calendar counted
year by year, the closed formula of `mktime` against the same calendar, the two-pass zone correction, and
ISO 8601 weeks. Division in C truncates toward zero and is modelled as such (`CDiv`, `CMod`).

**Text and streams** (`CStrings`, `Fnmatch`, `FnmatchBrackets`, `Utf8`, `Multibyte`, `Stdio`). `fnmatch` against
the ways to cut a string into pieces that fit the tokens of the pattern, and its bracket expressions, written out,
against the lists they are; the restartable UTF-8 codec against sections 3 and 4 of RFC 3629; the buffered write
side of stdio against the sequence of bytes written.

Where the code and its promise differ, the code is kept, and a lemma says exactly when the promise holds:

- `Calendar.ClosedFormExact`: the day formula of `mktime` is right exactly from year 1 on, or when the year
  before is a leap year; `Calendar.YearZeroIsOff` is the first year it fails for, and `TimeZone.YearZeroTime` a
  date that `mktime` takes for the next day.
- `EreRoundTrip.ReadsBack`: an extended expression is accepted exactly when it has no unmatched right parenthesis,
  which section 9.4.3 of POSIX.1-2017 Base Definitions makes an ordinary character; `EreRoundTrip.ParenRefused` is
  one.
- `BreRoundTrip.BasicReadsBack`: a basic expression is taken for what it stands for exactly when it is
  `ReadRight`: no star behind the initial caret, no repeated first star, and no ordinary caret behind an ordinary
  parenthesis behind an escaped backslash, but where the bound `\{0\}` drops what is misread anyway
  (`BreRoundTrip.CaretReading` says of each caret how it is read). `StarBehindCaret`, `StarBehindStar`,
  `BoundBehindStar` and `CaretBehindBackslash` are inputs for each.
- `FnmatchBrackets.MembershipRight`: a character is a member of a bracket expression of `fnmatch` as section 9.3.5
  has it exactly when it is not `Misread`. Only ranges with an end written as a collating symbol, and a first one
  that starts with `-` or `]`, misread any (`FnmatchBrackets.PlainRight`): their start, a `-` and their end are taken
  for single characters, or the symbol at their end for its `[`. `FnmatchBrackets.PeriodMissed` is one.
- `FnmatchBrackets.SlashRule`: where slashes separate, a pattern is read as section 2.13.3 of POSIX.1-2017 Shell and
  Utilities has it exactly when no bracket expression of it holds a slash, for then its `[` would be an ordinary
  character; `FnmatchBrackets.SlashMissed` is one.
- `Stdio.PutSurvivesAll`: `fwrite` gets over every run of harmless answers exactly when the data is shorter than
  the buffer and what is free in it together; beyond that an interruption of the write past the buffer is an
  error, while a flush tries again.
- `Numerals.EndIsStandard`: the end pointer is the one of C99 exactly when the text is not `0x` without a
  hexadecimal digit behind it; `Numerals.EmptyHexTaken` is one.
- `Multibyte.MbNextIsStandard`, and a clause of `Multibyte.Wcsrtombs`: the source pointer is left as section
  7.24.6.4 of C99 has it exactly when no character was converted before an error.
- `TimeZone.SettledExact`: `mktime` narrows to a 32-bit `time_t` at each step without a check. In a zone it settles
  on the time of its two passes exactly when 32 bits hold that time and the lookup with the narrowed first guess
  finds the same offset; `TimeZone.TooLateAhead` is a time that 32 bits hold and that is missed. Without a zone it
  is exact exactly when 32 bits hold the seconds (`TimeZone.SettledUtc`, `TimeZone.TooLate`).

Two readings that break no rule are stated as well: a bar with nothing behind it is dropped
(`EreText.SpellsExpr`, `EreRoundTrip.TrailingBarDropped`; section 9.4.3 leaves it undefined), and an
`fnmatch` bracket that nothing closes is an ordinary character (`Fnmatch.UnclosedIsLiteral`). A repeat count too
large for an `int` overflows in `regcomp`; when every count in the pattern fits, no such overflow comes about
(`RegexCounts.PatternDefined`).

Parameters stand for what the code cannot see: the answers of `mmap` and of `write`, the loaded zone, which
characters a bracket expression of a regular expression admits.

## Model

| member | source | states |
|---|---|---|
| RegexSemantics.MatchSpan | src/c/regex/regexec.c:83-132 | a match never ends before it starts nor outside the text |
| RegexSemantics.CaseIgnored | src/c/regex/regexec.c:452-459 | with REG_ICASE a character matches itself and the other case of its letter, and nothing else |
| RegexRecords.RecordsMatch | src/c/regex/regexec.c:112-129 | whatever records group positions along a tree is a match of the tree |
| RegexRecords.MatchRecords | src/c/regex/regexec.c:112-129 | and every match records some |
| RegexRecords.RecordsAreMatches | src/c/regex/regexec.c:112-129 | every pair recorded is what was there before, or a match of the body of a group of that number, within the match |
| RegexRecords.CertainRecorded | src/c/regex/regexec.c:112-129 | the pair of a group under no alternative and no star is set by every match |
| RegexNfa.BuiltShape | src/c/regex/regexec.c:83-132 | the code of a tree is entered inside its own stretch of instructions, or is just the exit, and is left only to the exit |
| RegexNfa.BuiltSound | src/c/regex/regexec.c:83-132 | every path through the code of a tree to its exit is a match of the tree |
| RegexNfa.BuiltComplete | src/c/regex/regexec.c:83-132 | every match of a tree is a path through its code, nullable star bodies and anchors included |
| RegexNfa.BuiltCorrect | src/c/regex/regexec.c:83-132 | a path from the entry at i to the exit at j exists exactly when the tree matches from i to j |
| RegexNfa.RunCross | src/c/regex/regexec.c:83-132 | a run through a closed piece of code to somewhere outside splits at its exit |
| RegexNfa.ProgramCorrect | src/c/regex/regexec.c:356-357 | in a whole program I_MATCH is reached at j from the start at i exactly when the expression matches from i to j |
| RegexExec.ExecCtx.NewInst | src/c/regex/regexec.c:61-81 | an instruction is appended and its number returned |
| RegexExec.ExecCtx.BuildNfa | src/c/regex/regexec.c:83-132 | the code of the tree at a node is appended behind what was there, which stays as it was, and its entry returned |
| RegexExec.NeverFull | src/c/regex/regexec.c:225-247 | a list of distinct instructions has room for another one, so no thread is dropped |
| RegexExec.DistinctBound | src/c/regex/regexec.c:366-371 | distinct instructions are at most as many as there are |
| RegexExec.ExecCtx.RecordMatch | src/c/regex/regexec.c:249-263 | length and spans of the best match are replaced, from the captures, exactly when the new match is longer |
| RegexExec.ExecCtx.AddThread | src/c/regex/regexec.c:238-314 | the closure of an instruction: everything reachable without consuming is stamped, consumers are listed once each, captures are restored, and it ends on every program because each call stamps one more instruction |
| RegexExec.ExecCtx.FollowSave | src/c/regex/regexec.c:271-278 | the closure behind a capture, with the capture put back afterwards |
| RegexExec.ExecCtx.ClosedIsComplete | src/c/regex/regexec.c:238-314 | when the closure is done every instruction a run can be at is stamped |
| RegexExec.ExecCtx.ClosedIsExact | src/c/regex/regexec.c:238-314 | the stamped instructions are exactly those some run from the start position can be at |
| RegexExec.ExecCtx.Advance | src/c/regex/regexec.c:418-470 | one character further: the next list holds exactly the consumers reachable there |
| RegexExec.ExecCtx.FollowThread | src/c/regex/regexec.c:426-464 | one thread of a pass: if it can consume the character, the closure behind it is in the next list and the best length is up to date |
| RegexExec.ExecCtx.NothingLater | src/c/regex/regexec.c:412-414 | with nobody waiting for the next character no match ends later, so the loop may stop |
| RegexExec.ExecCtx.NextStart | src/c/regex/regexec.c:401-408 | a fresh generation for the stamps, which start over before the counter overflows |
| RegexExec.ExecCtx.Simulate | src/c/regex/regexec.c:412-476 | the loop over the text ends with the best length settled and one step spent per character |
| RegexExec.ExecCtx.BestIsLongest | src/c/regex/regexec.c:249-263 | the best length found belongs to a match, and none from the same start is longer |
| RegexExec.ExecCtx.BestSpans | src/c/regex/regexec.c:249-263 | the spans of the best match are those that a match of that length records |
| RegexExec.ExecCtx.MatchFrom | src/c/regex/regexec.c:391-476 | from one start position: the length of the longest match, or -1 when there is none |
| RegexExec.Report | src/c/regex/regexec.c:478-487 | the spans are copied to the caller, those beyond the groups of the pattern unset |
| RegexExec.Prepare | src/c/regex/regexec.c:346-363 | a program ready to run: I_MATCH and the code of the expression, no stamp set |
| RegexExec.Search | src/c/regex/regexec.c:388-492 | the first start position with a match wins; the groups reported are what a match there records |
| RegexExec.Regexec | src/c/regex/regexec.c:336-493 | 0 exactly when some span matches; the reported span has the least start and for it the greatest end; the groups are what a match there records, and those beyond the pattern are unset; nothing else of the caller's array is written |
| RegexExec.GroupsReported | src/c/regex/regexec.c:478-487 | each group reported is unset, or inside the match and where its body matches; one under no alternative and no star is set |
| RegexExec.CopyReported | src/c/regex/regexec.c:478-487 | copying the spans of the best match reports them |
| RegexCaptures.CodeSound | src/c/regex/regexec.c:83-132 | every instruction of the code of an expression without back references is fit to run, its captures within the groups |
| RegexCaptures.TraceCross | src/c/regex/regexec.c:238-314 | a run that records splits, positions included, where it leaves a closed piece of code |
| RegexCaptures.TraceIsRun | src/c/regex/regexec.c:238-314 | without what it records it is a run |
| RegexCaptures.TraceSnoc | src/c/regex/regexec.c:271-278 | one more step of a run records what its instruction says |
| RegexCaptures.TraceRecords | src/c/regex/regexec.c:112-129 | what a run through the code of an expression records is what the tree records |
| RegexCompile.Ctx.Emit | src/c/regex/regcomp.c:17-40 | a node is appended at the end of the array and its number becomes the result |
| RegexCompile.Ctx.CopyAst | src/c/regex/regcomp.c:42-56 | a copy with new nodes of its own and the same tree is appended |
| RegexCompile.Ctx.ParseBracket | src/c/regex/regcomp.c:81-134 | a bracket expression is read to its end, or the error the grammar gives |
| RegexCompile.Ctx.ParseBounds | src/c/regex/regcomp.c:136-188 | the two counts and the position behind them, or the error the grammar gives; a count too large for an int ends the model in OVERFLOW |
| RegexCounts.PatternDefined | src/c/regex/regcomp.c:141-160 | if no run of digits spells more than an int holds, compiling never overflows one |
| RegexCompile.Ctx.ApplyBounds | src/c/regex/regcomp.c:190-234 | the tree of the bounded repetition, built from copies |
| RegexBounds.BoundsMeaning | src/c/regex/regcomp.c:190-234 | a bounded repetition matches exactly the union of the powers between the bounds, all from the lower one on without an upper one |
| RegexBounds.PlusMeaning | src/c/regex/regcomp.c:448-453 | a plus matches exactly the powers from one on |
| RegexBounds.CopiesMeaning | src/c/regex/regcomp.c:195-203 | n copies in a row match the n-th power |
| RegexBounds.PowerAdd | src/c/regex/regcomp.c:190-234 | powers compose |
| RegexCompile.Ctx.EmitPlus | src/c/regex/regcomp.c:448-453 | a plus is the piece followed by the closure of a copy |
| RegexCompile.Ctx.ParseBreAtom | src/c/regex/regcomp.c:289-324 | one basic atom is read as the grammar says, anchors by their surroundings |
| RegexCompile.Ctx.ParseBreEscape | src/c/regex/regcomp.c:239-287 | an escaped atom: group, back reference, ordinary character or error |
| RegexCompile.Ctx.ParseBrePiece | src/c/regex/regcomp.c:326-354 | a basic atom with its repetition |
| RegexCompile.Ctx.CompileBre | src/c/regex/regcomp.c:356-373 | a basic expression is read up to its end, never past the terminator |
| RegexCompile.Ctx.ParseEreAtom | src/c/regex/regcomp.c:375-433 | one extended atom is read as the grammar says |
| RegexCompile.Ctx.ParseErePiece | src/c/regex/regcomp.c:435-467 | an extended atom with its repetition |
| RegexCompile.Ctx.ParseEreBranch | src/c/regex/regcomp.c:469-486 | one alternative is read up to a bar, a closing parenthesis or the end |
| RegexCompile.Ctx.CompileEre | src/c/regex/regcomp.c:488-508 | an extended expression is read up to its end, never past the terminator |
| RegexCompile.Regcomp | src/c/regex/regcomp.c:510-560 | the error the text is due (RegexVerdict.Verdict), or 0 and a forest whose children come before their parents with the tree of the grammar, group numbers in 1..re_nsub, fit for regexec with at most one instruction more than nodes |
| RegexVerdict.VerdictRight | src/c/regex/regcomp.c:239-560 | one pass over the text, with the groups open and whether there is something to repeat, says of every pattern whether it is accepted and which error it ends with: a group not closed or not opened, nothing to repeat, a bad bound, a bad class, a bad reference, a trailing backslash, too many groups open |
| RegexVerdict.ExprVerdict | src/c/regex/regcomp.c:488-508 | reading an extended expression ends where that pass is, or with its error |
| RegexVerdict.RunVerdict | src/c/regex/regcomp.c:356-373 | so does reading a basic one |
| RegexTexts.NumberAt | src/c/regex/regcomp.c:141-160 | the digits at a position are the number spelled there |
| RegexTexts.BoundRead | src/c/regex/regcomp.c:136-188 | a bound is read exactly when the text spells one, up to what closes it, with counts up to 255 in order |
| RegexTexts.BoundFails | src/c/regex/regcomp.c:136-188 | otherwise the error is REG_BADBR, unless a count is too large for an int |
| RegexBrackets.MembersListed | src/c/regex/regcomp.c:88-124 | the scan of a bracket expression ends at the first bracket behind a list of members |
| RegexBrackets.MembersFail | src/c/regex/regcomp.c:88-124 | it fails exactly where such a list meets the end of the pattern, a class that is not closed, or one that does not exist, with the error for that |
| RegexBrackets.BracketListed | src/c/regex/regcomp.c:81-134 | so for a whole bracket expression, whose list begins behind its caret, and whose first bracket is a member |
| RegexTexts.BracketRead | src/c/regex/regcomp.c:81-134 | a bracket expression is read where it stands exactly when it is one alone |
| RegexTexts.BracketIs | src/c/regex/regcomp.c:81-134 | what is read as one is the text between its brackets |
| RegexShape.PatternFit | src/c/regex/regcomp.c:239-508 | whatever is accepted has its groups closed, numbered within re_nsub, and higher inside others, and no back references when extended |
| EreSyntax.PrimaryMeaning | src/c/regex/regcomp.c:375-433 | the tree of a primary means what the primary means |
| EreSyntax.PieceMeaning | src/c/regex/regcomp.c:435-467 | the tree of a repeated primary matches as many repetitions as the piece admits |
| EreSyntax.BranchMeaning | src/c/regex/regcomp.c:469-486 | the tree of a branch matches its pieces in a row |
| EreSyntax.ExprMeaning | src/c/regex/regcomp.c:488-508 | the tree of an expression matches whatever one of its alternatives does |
| EreText.ReadPiece | src/c/regex/regcomp.c:435-467 | a text that spells a piece is read as that piece |
| EreText.ReadBranch | src/c/regex/regcomp.c:469-486 | one that spells a branch as that branch |
| EreText.ReadExpr | src/c/regex/regcomp.c:488-508 | one that spells an expression as that expression |
| EreText.StopsInExpr | src/c/regex/regcomp.c:488-508 | reading one with an unmatched right parenthesis ends at the first of these |
| EreText.ExprSpelled | src/c/regex/regcomp.c:375-508 | conversely, whatever an expression is read from spells one with that tree |
| EreText.AcceptedIsSpelled | src/c/regex/regcomp.c:375-533 | regcomp accepts exactly the patterns that spell an extended expression with at most 256 nested parentheses, and makes of each the tree of that expression |
| EreText.UnmatchedRefused | src/c/regex/regcomp.c:522-523 | a pattern that spells one with an unmatched right parenthesis ends in REG_EPAREN |
| EreRoundTrip.ExprSpells | src/c/regex/regcomp.c:375-508 | every expression, written out, spells itself |
| EreRoundTrip.ReadsBack | src/c/regex/regcomp.c:510-533 | every extended expression with at most 256 nested parentheses, bracket expressions included, written out, is read completely and yields its tree, or ends in REG_EPAREN, exactly when it has an unmatched right parenthesis |
| EreRoundTrip.CompiledMeaning | src/c/regex/regcomp.c:510-533 | what is compiled from the text of an extended expression, if it is accepted, matches exactly what the expression means |
| EreRoundTrip.ParenRefused | src/c/regex/regcomp.c:522-523 | an input with an unmatched right parenthesis |
| EreRoundTrip.TrailingBarDropped | src/c/regex/regcomp.c:488-508 | behind any expression a bar with nothing behind it is read as if it were not there; behind an empty last alternative it is another one |
| EreRoundTrip.LongerMeans | src/c/regex/regcomp.c:488-508 | which means the same |
| EreRoundTrip.BarBeforeParenDropped | src/c/regex/regcomp.c:488-508 | so is one before the parenthesis that closes a group |
| BreSyntax.SameTreeIff | src/c/regex/regcomp.c:289-373 | an expression the code accepts has the tree of what it stands for exactly when no star, repetition or caret in it is misread |
| BreSyntax.IntendedGood | src/c/regex/regcomp.c:289-373 | what a basic expression stands for is a well-formed branch |
| BreSyntax.ReadGood | src/c/regex/regcomp.c:289-373 | so is what the code takes it for |
| BreText.ReadRun | src/c/regex/regcomp.c:289-373 | a text that spells a basic expression is read as that expression |
| BreText.RunSpelled | src/c/regex/regcomp.c:289-373 | whatever a basic expression is read from spells one with that tree |
| BreText.BasicIsSpelled | src/c/regex/regcomp.c:239-533 | regcomp accepts exactly the patterns that spell a basic expression with at most 256 nested groups, needless backslashes, back references and what the standard leaves undefined included, and makes of each the tree of that expression |
| BreRoundTrip.StandsBehind | src/c/regex/regcomp.c:294-299 | the two characters the code looks back at tell the place of an item apart exactly |
| BreRoundTrip.ReadBasicUnit | src/c/regex/regcomp.c:289-324 | a written-out unit is read as its place says: carets, dollars and anchors, groups and bracket expressions |
| BreRoundTrip.ReadTimes | src/c/regex/regcomp.c:326-354 | its repetition is read back |
| BreRoundTrip.ReadRun | src/c/regex/regcomp.c:356-373 | a written-out run of items is read as BreSyntax.Read says, or refused with REG_BADRPT exactly when it holds an ordinary star with a bound |
| BreRoundTrip.BasicOutcome | src/c/regex/regcomp.c:510-526 | the answer of regcomp to every written-out basic expression with at most 256 nested groups |
| BreRoundTrip.BasicReadsBack | src/c/regex/regcomp.c:510-526 | it is accepted, read completely, and yields the tree of what it stands for by section 9.3 of POSIX.1-2017 Base Definitions, exactly when it is ReadRight |
| BreRoundTrip.BasicMeaning | src/c/regex/regcomp.c:510-526 | what is compiled from the text of a basic expression that is ReadRight matches exactly what the expression means |
| BreRoundTrip.CaretReading | src/c/regex/regcomp.c:293-303 | a bare caret, wherever it stands, is read as an ordinary character exactly when it is not behind an ordinary parenthesis behind an escaped backslash |
| BreRoundTrip.CaretBehindBackslash | src/c/regex/regcomp.c:293-299 | an input for that: an escaped backslash, a parenthesis and a caret |
| BreRoundTrip.StarBehindCaret | src/c/regex/regcomp.c:342-344 | an input on which a star repeats the initial anchor |
| BreRoundTrip.StarBehindStar | src/c/regex/regcomp.c:330-334 | an input on which a repeated first star becomes two |
| BreRoundTrip.BoundBehindStar | src/c/regex/regcomp.c:330-334 | an input on which a bound behind a first star is refused |
| RegexChain.AnswerMeans | src/c/regex/regexec.c:336-493 | what regexec promises of a tree holds of every expression that means the same |
| RegexChain.ExprCaptures | src/c/regex/regcomp.c:396-419 | a group number g in the tree of an expression is what is between its g-th parentheses |
| RegexChain.CapturedMeans | src/c/regex/regexec.c:249-263 | where its body matches, what is between them means the text |
| RegexChain.ExprIsCertain | src/c/regex/regexec.c:112-129 | parentheses under no alternative and no repetition that may be none are a group that every match passes |
| RegexChain.GroupsMean | src/c/regex/regexec.c:478-487 | so their group is set, and every group is unset or where what is between its parentheses means the text |
| RegexChain.AnswerSays | src/c/regex/regexec.c:336-493 | both together, for every expression that has the tree |
| RegexChain.SearchExtended | src/c/regex/regexec.c:336-493 | every pattern compiled as an extended expression is refused with the error that is due, or spells an expression; running it answers 0 exactly when that expression means some stretch of the text, reports the leftmost-longest one, and the groups a match there records, each unset or where what is between its parentheses means the text, and set if every match passes it |
| RegexChain.SearchBasic | src/c/regex/regexec.c:336-493 | so it is with every pattern without back references compiled as a basic expression, in terms of what the code takes it for; if the pattern writes out an expression, it is refused exactly when a bound stands behind an ordinary star, and if that is ReadRight it is found in terms of what it stands for |
| RegexChain.WrittenOutcome | src/c/regex/regcomp.c:510-526 | what regcomp makes of a basic expression written out, which has no back references |
| HeapChain.SplitInv | src/c/stdlib/malloc.h:58-74 | splitting keeps blocks aligned, disjoint and tiling the mapped bytes |
| HeapChain.MergeInv | src/c/stdlib/malloc.h:76-85 | merging neighbours keeps blocks aligned, disjoint and tiling the mapped bytes |
| HeapChain.CoalesceInv | src/c/stdlib/malloc.h:76-99 | coalescing keeps blocks aligned, disjoint and tiling the mapped bytes |
| HeapChain.AppendInv | src/c/stdlib/malloc.h:101-132 | a new region as a block at the end keeps blocks aligned, disjoint and tiling the mapped bytes |
| HeapChain.InvReplace | src/c/stdlib/malloc.h:58-99 | replacing a stretch of blocks by one over the same bytes keeps all of that |
| HeapCalls.MallocEffect | src/c/stdlib/malloc.c:6-47 | malloc fails without effect or adds exactly one live block, large enough, aligned, and apart from all that were live; heap_base stays |
| HeapCalls.FreeEffect | src/c/stdlib/free.c:3-27 | exactly the freed block stops being live; any other pointer the callers may pass has no effect |
| HeapCalls.ReallocEffect | src/c/stdlib/realloc.c:3-75 | realloc fails without effect or replaces exactly its block, among the live ones, by one that is large enough and apart from the others |
| HeapCalls.StepKeeps | src/c/stdlib/malloc.c:6-47 | every legal call keeps the heap in order and heap_base where it is |
| HeapCalls.RunKeeps | src/c/stdlib/malloc.c:6-47 | so does every sequence of calls each of which is legal when its turn comes |
| HeapCalls.RunFromEmpty | src/c/stdlib/malloc.c:3-47 | from the empty heap, headers and payloads together are always exactly the bytes obtained from mmap |
| HeapOutcome.PayloadIs | src/c/stdlib/malloc.h:13-14 | the size is rounded up to a multiple of 16 |
| HeapOutcome.PagesAre | src/c/stdlib/malloc.h:106-116 | fresh memory comes in whole pages for the payload and a header, and in none exactly when these pass 2^32 |
| HeapOutcome.MallocOutcome | src/c/stdlib/malloc.c:6-47 | malloc fails exactly for a size of 0 or above SIZE_MAX - 32, or when no free block holds the rounded size and the whole pages pass 2^32 or mmap failed; otherwise it returns the first free block that is large enough, without obtaining memory, or fresh pages |
| HeapOutcome.MallocTight | src/c/stdlib/malloc.h:58-74 | the block has less than a header and 16 bytes more than it needs |
| HeapOutcome.FreeOutcome | src/c/stdlib/malloc.h:76-99 | a freed block and the free blocks it touches become one free block |
| HeapOutcome.ReallocOutcome | src/c/stdlib/realloc.c:3-75 | realloc fails exactly when the size is refused, or the block is too small, also with a free one behind it that it touches, and malloc fails; otherwise it stays in place exactly when one of these is large enough |
| HeapOutcome.ReallocEnds | src/c/stdlib/realloc.c:8-22 | without a block it is malloc, and with size 0 it is free |
| Heap.LinkSplit | src/c/stdlib/malloc.h:58-74 | the stores of a split keep the list linked both ways, with one block more at its place |
| Heap.LinkMerge | src/c/stdlib/malloc.h:76-99 | the stores of a merge keep the list linked both ways, with one block less |
| Heap.LinkAppend | src/c/stdlib/malloc.h:122-131 | appending keeps the list linked both ways |
| Heap.PayloadClear | src/c/stdlib/malloc.h:23-31 | no header lies in the payload of a block |
| Heap.Allocator.SplitBlock | src/c/stdlib/malloc.h:58-74 | split_block does to the sequence of blocks what SplitAt says, and writes headers only |
| Heap.Allocator.Coalesce | src/c/stdlib/malloc.h:76-99 | coalesce absorbs the free neighbours, and writes headers only |
| Heap.Allocator.RequestSpace | src/c/stdlib/malloc.h:101-132 | a new block at the end from whole fresh pages, or nothing changed, overflow included |
| Heap.Allocator.Obtain | src/c/stdlib/malloc.c:19-46 | the first free block that fits, or fresh memory |
| Heap.Allocator.Malloc | src/c/stdlib/malloc.c:6-47 | malloc has the effect AfterMalloc describes and leaves the payload of every live block alone |
| Heap.Allocator.Free | src/c/stdlib/free.c:3-27 | free has the effect AfterFree describes and changes no payload |
| Heap.Allocator.Resize | src/c/stdlib/realloc.c:36-61 | shrinking in place or growing into the free block behind, contents kept, or nothing changed |
| Heap.Allocator.Move | src/c/stdlib/realloc.c:65-74 | a new block with the old contents, and the old block freed |
| Heap.Allocator.Realloc | src/c/stdlib/realloc.c:3-75 | realloc has the effect AfterRealloc describes; the first min(old size, new size) bytes of the result are the old contents, and no other live block changes |
| Heap.MoveKeeps | src/c/stdlib/realloc.c:65-74 | copying and freeing deliver the contents and spare the other blocks |
| Words.ShrIs | src/runtime/c/__udivdi3.c:12-18 | a right shift divides by the power of two, rounding down |
| Division.RemainderFits | src/runtime/c/__udivdi3.c:12-13 | the shifted remainder never overflows, however large the divisor |
| Division.SerialStep | src/runtime/c/__udivdi3.c:12-18 | one round of the bit-serial loop keeps quotient and remainder right for the bits read so far |
| Division.UDivDi3 | src/runtime/c/__udivdi3.c:4-20 | the quotient for every 64-bit dividend and nonzero divisor, 0 for divisor 0 |
| Division.UModDi3 | src/runtime/c/__umoddi3.c:4-18 | the remainder: smaller than the divisor, and what is left is a multiple of it |
| Division.TruncatesOnce | src/runtime/c/__divdi3.c:4-26 | quotient and remainder toward zero are unique |
| Division.DivDi3 | src/runtime/c/__divdi3.c:4-26 | the signed quotient truncates toward zero, with LLONG_MIN / -1 and division by zero as the code has them |
| Division.ModDi3 | src/runtime/c/__moddi3.c:4-24 | the signed remainder belongs to a quotient toward zero, LLONG_MIN % -1 included |
| Division.Consistent | src/runtime/c/__moddi3.c:4-24 | signed quotient and remainder multiply back to the dividend |
| Division.DivMod10 | src/runtime/asm/ubsan.c:58-72 | exactly the quotient and digit of division by ten, for every 32-bit word, and no sum on the way exceeds one |
| SoftFloat.Clz64 | src/runtime/c/__floatdidf.c:5-33 | the shift that brings the leading one to bit 63 |
| SoftFloat.Gap | src/runtime/c/__floatdidf.c:49-67 | no double lies strictly between neighbouring multiples of the unit of a binade |
| SoftFloat.Rounded | src/runtime/c/__floatdidf.c:50-64 | the guard, sticky and low-bit test picks the nearest double, the even one in a tie |
| SoftFloat.Carry | src/runtime/c/__floatdidf.c:58-63 | a carry out of the significand is exactly the next exponent |
| SoftFloat.Round | src/runtime/c/__floatdidf.c:45-69 | exponent and fraction of the nearest double of every positive 64-bit number, ties to even |
| SoftFloat.FloatDiDf | src/runtime/c/__floatdidf.c:35-74 | no finite double is nearer to the integer than the result, and in a tie the result is even; zero is +0, and the sign is that of the integer |
| SoftFloat.FloatUnDiDf | src/runtime/c/__floatundidf.c:34-69 | the same for unsigned integers |
| SoftFloat.WholePart | src/runtime/c/__fixdfdi.c:28-37 | the shifted significand is the integer part of the double |
| SoftFloat.FixDfDi | src/runtime/c/__fixdfdi.c:5-45 | truncation toward zero inside the range, the nearer bound outside it and for infinities, 0 for a NaN |
| SoftFloat.FixUnsDfDi | src/runtime/c/__fixunsdfdi.c:5-35 | the same for unsigned integers, 0 for what is not positive |
| SoftFloat.SmallRepresentable | src/runtime/c/__floatdidf.c:65-67 | every integer with a significand of at most 53 bits is a double |
| SoftFloat.RoundTrip | src/runtime/c/__fixdfdi.c:5-45 | converting an exactly representable integer to a double and back gives it back |
| Numerals.NumeralValue | src/c/stdio/vfprintf.c:88-102 | the numeral of a number spells the number |
| Numerals.ItoaBase | src/c/stdio/vfprintf.c:88-102 | the digits of a number, least significant first, and how many |
| Numerals.Reverse | src/c/stdio/vfprintf.c:78-86 | the first characters are reversed in place and no other changes |
| Numerals.Print | src/c/stdio/vfprintf.c:585-586 | both together leave the usual numeral in the buffer |
| Numerals.Cut | src/c/stdlib/strtoull.c:46-47 | the test before the multiplication is whether the next value would be above the limit |
| Numerals.Accumulate | src/c/stdlib/strtoull.c:35-53 | the exact value of any number of digits, or that it is above the limit; the accumulator never wraps |
| Numerals.ScanHead | src/c/stdlib/strtoull.c:13-30 | blanks, sign, prefix and base |
| Numerals.ParseUnsigned | src/c/stdlib/strtoull.c:6-66 | in every base an int can ask for: the exact value, negated modulo 2^64 after a minus sign, or ULLONG_MAX with ERANGE; the end pointer |
| Numerals.ParseSigned | src/c/stdlib/strtoll.c:7-65 | in every base an int can ask for: the exact value, or the nearer bound with ERANGE; the end pointer |
| Numerals.EndIsStandard | src/c/stdlib/strtoull.c:24-63 | the end pointer is behind the longest stretch of the form section 7.20.1.4 of C99 expects, in base 0 and 2 to 36, exactly when the text is no empty hexadecimal numeral |
| Numerals.EmptyHexTaken | src/c/stdlib/strtoull.c:24-63 | an input that is one |
| Numerals.RoundTrip | src/c/stdlib/strtoull.c:6-66 | parsing a printed number gives the number and uses all its text, in every base from 2 to 16 |
| WrittenNumbers.OnlyDigits | src/c/stdlib/strtoull.c:36-42 | the ten digits and the letters of both cases are digits, in this order, and nothing else |
| WrittenNumbers.WrittenParsed | src/c/stdlib/strtoll.c:11-64 | every number written with blanks, a sign or none, a prefix or none and its digits, in every base, is read to its end; strtoll gives it with its sign or the nearer bound with ERANGE, strtoull the number, its negative modulo 2^64, or ULLONG_MAX with ERANGE |
| WrittenNumbers.NumeralParsed | src/c/stdlib/strtoull.c:10-64 | so the usual numeral of a number, with any zeros before it, is read as that number |
| Calendar.DateUnique | src/c/time/gmtime.c:46-69 | a day has one date |
| Calendar.FindYear | src/c/time/gmtime.c:46-58 | the year loop, both ways, ends in the year the day lies in |
| Calendar.FindMonth | src/c/time/gmtime.c:63-71 | the month loop ends in the month the day lies in |
| Calendar.BreakDown | src/c/time/localtime.c:42-82 | all fields of the broken-down time are those of the moment |
| Calendar.Gmtime | src/c/time/gmtime.c:18-78 | the fields are date, time of day, weekday and day of the year of every number of seconds |
| Calendar.TableRight | src/c/time/mktime.c:17-18 | the month table, with the leap day behind February, is the calendar's |
| Calendar.ClosedFormExact | src/c/time/mktime.c:39-42 | the closed formula counts the days before a year exactly when the year is at least 1 or the year before is a leap year, and is one too many otherwise |
| Calendar.YearZeroIsOff | src/c/time/mktime.c:39-42 | year 0 is counted one day too long |
| TimeZone.YearZeroTime | src/c/time/mktime.c:39-55 | a day of year 0 whose seconds mktime gives as those of the day after |
| Calendar.NormalMonthRight | src/c/time/mktime.c:31-37 | every month number stands for its year and month by floor division; entry 12 of the table is reached exactly by negative multiples of 12 |
| Calendar.FieldDaysRight | src/c/time/mktime.c:28-50 | for every month number the day count is the right one exactly under that condition on the year counted from |
| Calendar.LocalSeconds | src/c/time/mktime.c:28-55 | the code computes that count and the seconds |
| Calendar.FieldsCarry | src/c/time/mktime.c:28-55 | 60 seconds carry into a minute, 60 minutes into an hour, 24 hours into a day, and 12 months into a year where the formula is right |
| Calendar.SecondsRoundTrip | src/c/time/mktime.c:28-55 | without a zone, the seconds of the fields gmtime gave are the time again |
| TimeZone.TzLookup | src/c/time/parser.c:235-285 | binary search finds the type that the last transition up to the time starts, in the arrays of the zone, or the first standard type before all of them; it fails only on a type number out of range |
| TimeZone.TypeInForce | src/c/time/parser.c:264-285 | the type found is the one that the last transition up to the time starts, in the arrays of the zone; before all of them the first standard type, or type 0 |
| TimeZone.OffsetInForce | src/c/time/parser.c:264-285 | so is the offset |
| TimeZone.OffsetSteady | src/c/time/parser.c:235-285 | between transitions the offset does not change |
| TimeZone.Localtime | src/c/time/localtime.c:19-88 | the fields of the local clock under the type in force in the arrays of the zone, of UTC without a zone or with an unusable type, the sum narrowed to 32 bits |
| TimeZone.TwoPassRight | src/c/time/mktime.c:61-75 | with at most one transition near, the two passes find a time that shows the local clock whenever there is one, and the only one if there is one |
| TimeZone.Mktime | src/c/time/mktime.c:20-85 | the time settled on step by step in 32 bits, failing lookups included, and its local fields |
| TimeZone.SettledExact | src/c/time/mktime.c:52-75 | in a usable zone, for all local seconds, that is the time of the two passes exactly when 32 bits hold it and the lookup with the narrowed first guess finds the same offset |
| TimeZone.SettledInside | src/c/time/mktime.c:52-75 | where 32 bits hold the local seconds and the first guess, exactly when they hold the time |
| TimeZone.TooLateAhead | src/c/time/mktime.c:52-75 | a zone and a local clock whose time 32 bits hold and mktime misses |
| TimeZone.SettledUtc | src/c/time/mktime.c:52-66 | without a zone it is the seconds counted in UTC exactly when 32 bits hold them |
| TimeZone.LocalRoundTrip | src/c/time/mktime.c:20-85 | mktime of the fields localtime gave finds a time with the same local clock, the same one if no other has it, as far from both ends of time_t as the largest offset |
| IsoWeek.NextYearsWeek | src/c/time/strftime.c:533-541 | the Thursday lies in the next year exactly for the December days the code singles out |
| IsoWeek.Iso8601WkNum | src/c/time/strftime.c:498-543 | the week number of the Thursday of the Monday-based week; the recursion goes one level at most |
| IsoWeek.IsoYear | src/c/time/strftime.c:260-268 | the year of that Thursday |
| IsoWeek.WeekInRange | src/c/time/strftime.c:498-543 | a week number is between 1 and 53 |
| Fnmatch.Scan | src/c/fnmatch/fnmatch.c:101-139 | the scan of a bracket expression decides membership, ranges and classes included |
| Fnmatch.StarStar | src/c/fnmatch/fnmatch.c:160-161 | several stars in a row are one |
| Fnmatch.MatchStar | src/c/fnmatch/fnmatch.c:179-188 | a star takes nothing or one more character it may take |
| Fnmatch.MatchIsSplitting | src/c/fnmatch/fnmatch.c:40-206 | a match is a way to cut the string into one fitting piece per token |
| Fnmatch.PlainMatchesItself | src/c/fnmatch/fnmatch.c:192-200 | a pattern without special characters matches itself only; with FNM_NOESCAPE a backslash is not special |
| Fnmatch.WrittenRead | src/c/fnmatch/fnmatch.c:46-200 | without it, characters behind backslashes, stars and question marks are read back as what they are |
| Fnmatch.UnclosedIsLiteral | src/c/fnmatch/fnmatch.c:88-92 | a bracket is an ordinary character exactly when no closing bracket stands where a member could start |
| FnmatchBrackets.ElementRead | src/c/fnmatch/fnmatch.c:108-137 | a written-out character, symbol, range or class is read as the members it is taken for, up to the next |
| FnmatchBrackets.ListRead | src/c/fnmatch/fnmatch.c:101-137 | a written-out list is read to its end and admits what one of its elements is taken for |
| FnmatchBrackets.BracketRead | src/c/fnmatch/fnmatch.c:60-145 | a written-out bracket expression is read to its end, and admits exactly what its elements are taken for |
| FnmatchBrackets.ClassNamed | src/c/fnmatch/fnmatch.c:5-31 | each class name stands for the characters of its ctype class |
| CStrings.UpperListed | src/c/ctype/isupper.c:3-5 | upper-case letters are the 26 of the alphabet |
| CStrings.PunctListed | src/c/ctype/ispunct.c:3-5 | punctuation is the 32 characters section 7.3.1 of POSIX.1-2017 Base Definitions lists |
| CStrings.OthersMade | src/c/ctype/isgraph.c:3-5 | the other classes are made up of these as that section says |
| FnmatchBrackets.MembershipRight | src/c/fnmatch/fnmatch.c:101-145 | that is what section 9.3.5 makes of it, exactly for the characters that no range misses or adds |
| FnmatchBrackets.PlainRight | src/c/fnmatch/fnmatch.c:101-145 | without ranges that start the list with a hyphen or bracket or have a symbol for an end, none is misread |
| FnmatchBrackets.PeriodMissed | src/c/fnmatch/fnmatch.c:101-137 | a bracket expression and a character of its range that it does not match |
| FnmatchBrackets.SlashRule | src/c/fnmatch/fnmatch.c:60-95 | a pattern has the tokens section 2.13.3 gives it exactly when no bracket expression of it holds a slash, or slashes do not separate |
| FnmatchBrackets.SlashMissed | src/c/fnmatch/fnmatch.c:94-95 | a pattern that should match itself and matches nothing |
| Fnmatch.TryEach | src/c/fnmatch/fnmatch.c:179-189 | trying every length for a star finds a match exactly when there is one |
| Fnmatch.FnmatchInternal | src/c/fnmatch/fnmatch.c:40-206 | 0 exactly when the rest of the string splits along the rest of the pattern, under every combination of the flags |
| Fnmatch.Fnmatch | src/c/fnmatch/fnmatch.c:208-210 | 0 exactly when the string splits along the tokens of the pattern |
| Utf8.AcceptsWellFormed | src/c/wchar/mbrtowc.c:16-85 | the decoder accepts exactly the characters of section 4 of RFC 3629 |
| Utf8.EncodedRun | src/c/wchar/wcrtomb.c:5-36 | the encoding of every scalar value is read back as that value, whatever follows |
| Utf8.AcceptedIsEncoding | src/c/wchar/mbrtowc.c:53-85 | whatever is accepted is the encoding of the value returned |
| Utf8.RunConcat | src/c/wchar/mbrtowc.c:38-51 | reading two stretches one after the other is reading them together |
| Utf8.Chunk | src/c/wchar/mbrtowc.c:20-51 | an encoding cut anywhere leaves the state waiting after each piece and is complete after the last |
| Utf8.TextRoundTrip | src/c/wchar/mbsrtowcs.c:4-35 | decoding the encoding of a string gives the string back |
| Multibyte.MbState.Mbrtowc | src/c/wchar/mbrtowc.c:5-86 | result, character and remaining state are those of feeding the bytes one by one |
| Multibyte.Wcrtomb | src/c/wchar/wcrtomb.c:5-36 | the encoding is stored and its length returned, or -1 for what is no scalar value and nothing stored |
| Multibyte.Mbsrtowcs | src/c/wchar/mbsrtowcs.c:4-35 | the characters of the text up to its end, the limit or the first error, and where the source pointer is left |
| Multibyte.MbNextIsStandard | src/c/wchar/mbsrtowcs.c:12-34 | the source pointer is left as section 7.24.6.4 of C99 has it exactly when no character was converted before an error |
| Multibyte.Wcsrtombs | src/c/wchar/wcsrtombs.c:3-38 | as many whole characters as fit, or -1 at one that cannot be encoded, and where the source pointer is left |
| Stdio.File.Drain | src/c/stdio/stdio.c:97-113 | the buffer is written out over short and interrupted writes, or part of it and an error; which of the two is decided by the answers alone |
| Stdio.File.Flush | src/c/stdio/stdio.c:89-120 | all pending bytes reach the file, or EOF with the error flag and the buffer as it was |
| Stdio.File.StartWriting | src/c/stdio/fwrite.c:20-32 | turning a stream to writing loses nothing |
| Stdio.File.Fputc | src/c/stdio/fputc.c:4-60 | one byte more is written, or EOF with the error flag; behind a newline a line-buffered stream has nothing pending |
| Stdio.File.Fputs | src/c/stdio/fputs.c:5-82 | the string more is written, or EOF with the error flag; no line that was ended is pending on a line-buffered stream |
| Stdio.File.PutDirect | src/c/stdio/fwrite.c:55-64 | a write past the buffer succeeds exactly when the first answer takes something, so an interruption is an error |
| Stdio.File.WriteOut | src/c/stdio/fwrite.c:34-66 | all data is written, or the error flag is set and fewer bytes are reported; for every run of answers, which of the two |
| Stdio.File.Fwrite | src/c/stdio/fwrite.c:5-70 | all objects are written or the error flag is set; for every run of answers, which of the two |
| Stdio.FlushSurvives | src/c/stdio/stdio.c:97-113 | a flush gets over every run of harmless answers, interruptions included |
| Stdio.PutSurvives | src/c/stdio/fwrite.c:34-66 | so does fwrite when nothing is interrupted, or when what is left behind a flush fits the buffer |
| Stdio.PutSurvivesAll | src/c/stdio/fwrite.c:55-64 | fwrite gets over every run of harmless answers exactly when the data is shorter than the buffer and what is free in it |
| Stdio.Perform | src/c/stdio/fwrite.c:5-70 | one call: its bytes are written or the error flag is set; harmless answers are enough when nothing is interrupted or the data of an fwrite is that short |
| Stdio.Session | src/c/stdio/stdio.c:89-120 | over any sequence of calls without an error, what the file got and what is buffered are together all the bytes written, in order; harmless answers are enough when nothing is interrupted or each fwrite is shorter than the buffer |

## Left out

- RegexCompile.Regcomp: does not model a failing allocation (REG_ESPACE for memory); the nesting limit that gives the same code is modelled.
- RegexCompile.Ctx.ParseBounds: where a repeat count overflows an int the model stops with OVERFLOW; what the code goes on to do is undefined in C.
- RegexExec.Regexec: does not cover back references; threads are told apart by instruction only, so captures a back reference needs can be lost. Which of several matches of the reported span supplies the groups is not specified.
- RegexExec.ExecCtx.NextStart: the step counter is an unbounded integer; RegexExec.ExecCtx.MatchFrom shows it stays within the limit of the code plus the text length plus one.
- BreRoundTrip.BasicMeaning: back references are not part of the written-out syntax, and an anchor is never repeated there, for which the standard defines nothing; BreText covers both, as what regcomp reads them as.
- FnmatchBrackets.BracketRead: a range that has one end written as a collating symbol and a hyphen for its upper end, or a bracket in such a symbol behind a bare start, is not part of the written-out syntax, nor is a symbol of several characters.
- Which characters a bracket expression of a regular expression admits is a parameter of the subject; reading one, with its classes, ranges and errors, is modelled.
- The capacity doubling of the node and instruction arrays, and the fields of a thread that only back references use.
- Maximal merging of free blocks: two adjacent free blocks can remain after a shrinking realloc, so no claim of it is made.
- Heap.Allocator.Malloc: the spin lock is omitted, so the calls are sequential.
- Heap.Allocator.Free: pointers the allocator never returned, and blocks freed again after they were merged away, are outside its precondition; a repeated free of a block still in the list is covered and has no effect.
- Heap.Allocator.CopyBytes: memcpy is one simultaneous assignment of memory.
- SoftFloat.FixDfDi: the two guards of the code against a result of 2^63 or more are never taken and are an assertion here.
- TimeZone.Mktime: the year is given as it comes out of tm_year + 1900, whose overflow is not modelled; loading the zone file and the abbreviations are left out. What a failing second lookup leaves unset is a parameter.
- TimeZone.Localtime: the sum of time and offset wraps at 32 bits, where C leaves its overflow undefined.
- TimeZone.TzLookup: times before the first transition take the first standard type, as in the code; section 3.2 of RFC 8536 asks for type 0.
- Multibyte.MbState.Mbrtowc: a null state pointer stands for an object the library keeps; which object is used is up to the caller here. A first byte from 0xF5 on is refused in the first half of the model, where the code stores it and refuses it in the second.
- Fnmatch.MemberAt: strcoll is the byte comparison of this library, and classes are those of the C locale.
- The rest of strftime, strptime and zone loading: formatting and input.
- Stdio.Session: update modes, unbuffered streams, locks and recovery after a failed flush are left out. The answers of write are a finite script, after which everything is taken, so that a flush ends.
- Stdio.File.Fputs: the string is given as its bytes; strlen is not modelled.
- Stdio.File.Fwrite: the product of size and count is the length of the data, which fits an address space; its overflow is not modelled.
- Numerals.Print: only the digit loop and the reversal of vfprintf; no padding or precision, and no floating-point output, which rests on host rounding.
- The 32-bit twins of the division routines, the rest of ctype, sorting, searching, string and wide-string loops: they would only add easy members.
- System call wrappers, process and terminal control, directories, passwords, glob and wordexp: input and output.
