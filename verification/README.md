# Models of COAST's hard parts

This project models, in Dafny, the parts of the COAST server framework whose correctness is not
visible from any single function, and proves what they promise:

* the **regular-expression engine** (`coast/regex`): a one-pass compiler that patches relative jumps in
  a node array, and a backtracking interpreter that updates capture registers and back-reference stacks;
* the **concurrency protocols** of `coast/mtfoundation` and `coast/wdbase`: read-write lock,
  leader/follower pool, recursive mutex, thread life cycle, worker pool and the round-robin choice of
  acceptors;
* the **wire formats**: gzip header (section 2.3 of RFC 1952), chunked transfer coding (section 3.6 of
  RFC 2068), and the integer printing of the CUTE test framework.

## How it is built

Regular expressions. `ReParse` says what a pattern denotes (an expression tree that remembers its
spelling), `ReCode` which code belongs to a tree, `ReMatch` what running code does (`Run`) and, separately,
what ordered backtracking over the tree finds (`Ends`, a list of all ways to match in the order in which
they are tried, back-references included). `ReLang` says a third time, without order or state, which
stretches of text an expression matches, and `ReWays` says without backtracking which of all ways to match
is taken: the one preferred choice by choice, with the groups passed along it. `ReMeaning` reads the meaning
of a pattern off its spelling and shows that the expression made of it has that meaning; `ReReadBack` shows
that the parser reads what is spelled back. The class `RECompiler` is the imperative compiler, proved against
parser and code layout; the class `RE` is the engine, proved against `Run`, and its searches against the
tree. `RePatterns` joins the parts into theorems from pattern text to match.

A pattern may contain everything the source language has except the non-greedy operators. Two conditions
appear as hypotheses. Programs have at most 32768 nodes, because jumps are narrowed to 16 bits (`ShortExact`).
And no body of a loop can be empty. The compiler sees to that by its nullability analysis, with one gap:
literals are compared as C strings, so a literal that begins with NUL, as in `\0`, is reported as
non-nullable and consumes nothing. `CanBeEmpty` is the analysis with that gap closed; it coincides with the
compiler's for all patterns without such literals (`CleanAdvances`, `MostAreSane`). `ReDiverge` shows what
happens otherwise: the pattern `\0*` compiles and matching it never ends, and `X*` and `X+` over bodies
without anchors, word boundaries and back-references end exactly if X cannot be empty in the corrected
sense. With anchors and word boundaries it depends on the place, as in `(\0$)*`, and on what follows;
`ReLoops` gives the exact condition for every body without back-references. NUL-leading literals outside
loops are covered by all theorems.

Protocols. Each protocol is a state machine with one step per critical section (for the mutex: one per
access to shared data), any number of threads, and wake-ups that nobody asked for. `Safe` is the invariant,
`StepKeepsSafe` shows that every step keeps it and `EveryRunSafe` that it holds after every run. Beside the
state machine a class holds the C++ fields, and each of its methods is proved to perform one step (the
methods of the mutex: the listed sequence of steps) and to keep the invariant. In the worker pool a worker
counts as free before its state mutex is given up, so a caller that sees room may have to ask the same
worker again; the model has these moments as steps of their own.

Formats. Writers and readers are methods with loops, proved against functions; the round trips and the
behaviour on truncated input are lemmas about those functions. The decoder for the chunked coding is
written from the grammar of the RFC and shares nothing with the encoder but the notation of numbers.

Behaviour of the code that a reader might not expect is kept: a back-reference is compared with the oldest
recorded position of its group; an escaped closure character at the very end of a pattern splits the literal
before it; a gzip header whose checksum bytes are cut off is accepted; `Subst` drops a character after an
empty match; readers outside the pool's guarded section can see a count that lags behind. A failing `Assert`
of the source only logs, so the model goes on there as the code does.

## Model

| member | source | states |
|---|---|---|
| `RECompilers.RECompiler.InsertNode` | coast/regex/RECompiler.cpp:73-84 | the node is inserted and all code behind it shifted by one, unchanged |
| `RECompilers.RECompiler.SetNextOfEnd` | coast/regex/RECompiler.cpp:85-97 | exactly the offset of the open end of the chain is set |
| `RECompilers.RECompiler.CopyProgram` | coast/regex/RECompiler.cpp:706-715 | the copy is the stretch of code asked for |
| `RECompilers.RECompiler.AppendProgram` | coast/regex/RECompiler.cpp:717-728 | the code is appended and its entry returned |
| `RECompilers.RECompiler.GenerateQuestion` | coast/regex/RECompiler.cpp:746-755 | the fragment X at the end of the program becomes the fragment of `X?` |
| `RECompilers.RECompiler.GenerateStar` | coast/regex/RECompiler.cpp:756-766 | the fragment X becomes the fragment of `X*` |
| `RECompilers.RECompiler.GeneratePlus` | coast/regex/RECompiler.cpp:767-776 | the fragment X becomes the fragment of `X+` |
| `RECompilers.RECompiler.RepeatTerminal` | coast/regex/RECompiler.cpp:778-789 | copies of X are appended and chained: the code of X repeated in a row |
| `RECompilers.RECompiler.GenerateQuestions` | coast/regex/RECompiler.cpp:730-745 | the fragment X becomes the fragment of several `X?` in a row |
| `RECompilers.RECompiler.ReadBracket` | coast/regex/RECompiler.cpp:136-177 | reads `{n}`, `{n,}`, `{n,m}` as the grammar says and rejects everything else |
| `RECompilers.RECompiler.ReadEscape` | coast/regex/RECompiler.cpp:186-293 | classifies every escape sequence and advances to its end |
| `RECompilers.RECompiler.Atom` | coast/regex/RECompiler.cpp:503-603 | collects the literals that belong together, leaving the last one to a closure operator behind it |
| `RECompilers.RECompiler.Terminal` | coast/regex/RECompiler.cpp:605-704 | appends the code of the terminal the parser finds, and reports its nullability |
| `RECompilers.RECompiler.Repeat` | coast/regex/RECompiler.cpp:841-879 | the code of X becomes that of `X{n}`, `X{n,}` or `X{n,m}` |
| `RECompilers.RECompiler.Closure` | coast/regex/RECompiler.cpp:800-889 | appends the code of a terminal with its closure; rejects nullable operands |
| `RECompilers.RECompiler.Branches` | coast/regex/RECompiler.cpp:918-945 | appends a branch node and the concatenation of the pieces behind it |
| `RECompilers.RECompiler.Expr` | coast/regex/RECompiler.cpp:947-1013 | appends the code of all alternatives, ends hooked to the closing node, groups numbered by opening parenthesis |
| `RECompilers.RECompiler.Compile` | coast/regex/RECompiler.cpp:1014-1057 | the program is the code laid out for the parsed tree, empty exactly if the pattern does not parse; the prefix is the first atom if nothing else can start a match |
| `ReFragment.EmitFragment` | coast/regex/RECompiler.cpp:730-789 | the code of every accepted tree is a fragment: one open node, the last, reached by the chain from the entry; every other jump stays inside |
| `ReFragment.ProgramClosed` | coast/regex/RECompiler.cpp:947-1013 | in a whole program every jump but that of the end node leads to a node of the program |
| `ReParseProps.ParseSound` | coast/regex/RECompiler.cpp:503-1013 | a parsed tree spells the pattern exactly, closures bind to single characters, classes or groups, groups are numbered 1, 2, ... by opening parenthesis, no closure operand is nullable, and the reported nullability is that of the tree |
| `ReParseProps.ScanAtomSpells` | coast/regex/RECompiler.cpp:503-603 | an atom spells the text it consumes, and only a one-character atom stands before a closure operator |
| `ReMeaning.MeaningExact` | coast/regex/RECompiler.cpp:503-1013 | for every pattern that parses: each literal, operator and number in its tree stands for what it spells, and the expression matches exactly the stretches that the spelling means |
| `ReMeaning.PieceRepeats` | coast/regex/RECompiler.cpp:800-889 | a terminal with a closure operator matches exactly as many repetitions as the operator's spelling allows: one without an operator, 0 or 1 for `?`, any for `*`, at least 1 for `+`, the decimal numbers written for braces |
| `ReMeaning.BracketDenotes` | coast/regex/RECompiler.cpp:136-177 | the bounds read from `{n}`, `{n,}` and `{n,m}` are the decimal numbers written there, 1 for a first number left out |
| `ReMeaning.EscapeDenotes` | coast/regex/RECompiler.cpp:186-293 | an escape read as a character stands for the one it spells: by hexadecimal or octal number, by letter, or for itself |
| `ReReadBack.ParseReads` | coast/regex/RECompiler.cpp:503-1057 | parsing the spelling of a readable tree succeeds and gives the tree back; trees may have groups, alternatives, classes, anchors, back-references to closed groups, all closure operators, and literals spelled plainly or by escapes |
| `ReSim.EndsForward` | coast/regex/RECompiler.cpp:605-704 | matching moves forward, and what cannot be empty consumes at least one character in every match |
| `ReSim.AltEndsForward` | coast/regex/RECompiler.cpp:947-975 | the same for alternatives |
| `ReSim.CleanAdvances` | coast/regex/RECompiler.cpp:605-704 | the compiler's nullability analysis is sound for every expression whose literals do not begin with NUL: it is the corrected one, and closure operands it lets pass make every loop advance |
| `ReSim.ShortExact` | coast/regex/RE.cpp:120-120 | an offset survives the narrowing to `short` exactly if it fits into 16 bits |
| `ReSim.Simulates` | coast/regex/RE.cpp:102-313 | code placed anywhere in a program runs as ordered backtracking over its tree followed by whatever the continuation does, not ending included |
| `ReSim.SimulatesStar` | coast/regex/RECompiler.cpp:756-766 | the loop code of `X*` performs greedy iteration and terminates, because each round consumes text |
| `ReSim.SimulatesPlus` | coast/regex/RECompiler.cpp:767-776 | the same for `X+` |
| `ReSim.SimulatesGroup` | coast/regex/RE.cpp:156-179 | the code of a group records where each way to match it begins and ends |
| `ReSim.SimulatesAlts` | coast/regex/RE.cpp:274-293 | branch nodes try the alternatives in order |
| `ReSim.CompiledProgramCorrect` | coast/regex/RE.cpp:102-313 | for every accepted expression whose loops advance, and every text, flags and position, running the emitted program terminates, never leaves the program and finds what ordered backtracking finds first, back-references included |
| `ReDiverge.NeverFails` | coast/regex/RE.cpp:240-257 | an expression without anchors and back-references that can be empty matches everywhere |
| `ReDiverge.StarEndsExactly` | coast/regex/RE.cpp:294-300 | for every accepted X without anchors, word boundaries and back-references, wherever it stands and on every text, `X*` followed by code that ends comes to an end exactly if X cannot be empty; for the bodies excluded here see `ReLoops.StarEndsWhen` |
| `ReDiverge.PlusEndsExactly` | coast/regex/RE.cpp:294-300 | the same for `X+`; for other bodies see `ReLoops.PlusEndsWhen` |
| `ReDiverge.ProgramEndsExactly` | coast/regex/RE.cpp:294-300 | for the same bodies, the program of `X*` ends at every position of every text exactly if X cannot be empty; for other bodies see `ReLoops.ProgramEndsWhen` |
| `ReLoops.SamePlaces` | coast/regex/RE.cpp:102-313 | without back-references, where an expression can end, and in which order, depends on the place alone and not on the groups recorded |
| `ReLoops.AdvancingNeverStuck` | coast/regex/RECompiler.cpp:800-889 | a loop over a body that cannot be empty never comes to a round without progress |
| `ReLoops.StarEndsWhen` | coast/regex/RECompiler.cpp:756-766 | for every accepted X without back-references whose own loops advance, anchors and word boundaries included: `X*` comes to an end exactly if trying its rounds in order reaches no round without progress before the continuation succeeds, and then it performs greedy iteration |
| `ReLoops.PlusEndsWhen` | coast/regex/RECompiler.cpp:767-776 | `X+` comes to an end exactly if that holds of the loop behind each of its first rounds that is tried, and then it finds what greedy iteration finds |
| `ReLoops.ProgramEndsWhen` | coast/regex/RE.cpp:274-300 | the program of `X*` ends at a position exactly if its loop reaches no round without progress there |
| `ReLoops.StuckOnlyAtEnd` | coast/regex/RE.cpp:240-257 | a body for which it depends on the place: `(\0$)*` on "a" gets stuck at the end and not at the beginning |
| `ReMatch.YieldsOnce` | coast/regex/RE.cpp:102-313 | a run has one result |
| `ReWays.MatchPreferred` | coast/regex/RE.cpp:102-313 | for every expression, back-references included: a match attempt fails exactly if no way leads through it, and otherwise takes the way preferred to all others, where an earlier alternative, taking an option and another round of a loop come first and the leftmost difference decides |
| `ReWays.BeforeOneWay` | coast/regex/RE.cpp:274-293 | of two ways at most one is preferred, and none to itself, so the way taken is unique |
| `ReWays.WayRecorded` | coast/regex/RE.cpp:156-179 | the back-reference stacks of a group hold exactly the positions where it was entered and left along the way, in order |
| `ReWays.SpanMatches` | coast/regex/RE.cpp:156-179 | without back-references, whenever a group was passed its alternatives match the text between the two positions |
| `ReGroups.ParsedSelfFree` | coast/regex/RECompiler.cpp:947-1013 | no group of a parsed pattern contains one of its own number |
| `ReGroups.RegistersExact` | coast/regex/RE.cpp:156-179 | after a match a group has registers exactly if it was passed on the preferred way, and they are those of the last time |
| `ReGroups.RegistersMatch` | coast/regex/RE.cpp:156-179 | without back-references the alternatives of a group match the text between its registers |
| `ReGroups.BackRefExact` | coast/regex/RE.cpp:180-209 | a back-reference goes on exactly if its group was left before and the text from here on equals, as a C string, what lay between the oldest positions recorded; it consumes exactly that length |
| `ReRegisters.RunExtends` | coast/regex/RE.cpp:156-179 | on any program, a successful run only pushes on the back-reference stacks |
| `ReRegisters.PopUndoesPush` | coast/regex/RE.cpp:156-179 | popping after a failed match restores the stacks |
| `ReRegisters.FilledStep` | coast/regex/RE.cpp:158-161 | setting a register on the way out, if still unset, leaves each group the last position it recorded |
| `ReEngine.RE.constructor` | coast/regex/RE.cpp:22-28 | the engine holds the program of the parsed pattern, or none |
| `ReEngine.RE.MatchNodes` | coast/regex/RE.cpp:102-313 | computes what the program yields; a failed call leaves registers and stacks exactly as it found them, a successful one leaves those of the match; the exits for corrupt programs and invalid opcodes are never taken |
| `ReEngine.RE.MatchOpen` | coast/regex/RE.cpp:156-167 | the opening node: push, try, set the start register or pop |
| `ReEngine.RE.MatchClose` | coast/regex/RE.cpp:168-179 | the closing node: push, try, set the end register or pop |
| `ReEngine.RE.MatchBranches` | coast/regex/RE.cpp:280-292 | tries the alternatives one after the other |
| `ReEngine.RE.MatchAt` | coast/regex/RE.cpp:315-338 | succeeds exactly if the position is not negative and the expression matches there, with the registers of the first way to match, and none otherwise |
| `ReEngine.RE.ContainedIn` | coast/regex/RE.cpp:340-384 | finds the leftmost match from the position on, from the start if it is negative, and leaves its registers, whether or not a prefix is used |
| `ReEngine.RE.PrefixScan` | coast/regex/RE.cpp:366-383 | the search that skips positions without the prefix has the contract of the plain scan |
| `ReEngine.RE.PlainScan` | coast/regex/RE.cpp:357-365 | the plain scan finds the leftmost match |
| `ReEngine.RE.Split` | coast/regex/RE.cpp:386-410 | terminates for every pattern and returns the stretches before the matches and the non-empty rest |
| `ReEngine.RE.Subst` | coast/regex/RE.cpp:411-434 | writes the stretches with the replacement between them, for all matches or the first, dropping the character stepped over after an empty match |
| `ReEngine.RE.GetMatch` | coast/regex/RE.cpp:72-80 | after a search, group 0 is the leftmost match; every other group is the text it matched the last time it was passed on the preferred way, from its start register to its end register, inside the match; groups without registers are empty |
| `ReEngine.RE.FoundInside` | coast/regex/RE.cpp:340-384 | after a successful search the registers of every group lie inside the leftmost match |
| `ReEngine.RE.GroupPassed` | coast/regex/RE.cpp:340-384 | after a successful search the registers of a group are the positions of the last time it was passed on the preferred way |
| `ReSearch.LeftmostIs` | coast/regex/RE.cpp:357-365 | the leftmost match is a match, and there is none before it |
| `ReSearch.PrefixNecessary` | coast/regex/RECompiler.cpp:1033-1044 | every match of a compiled pattern begins with the extracted prefix, up to case if case is ignored |
| `ReSearch.PrefixExact` | coast/regex/RECompiler.cpp:1033-1044 | the prefix is the literal that an expression without alternatives begins with, and there is none otherwise |
| `ReSearch.RegistersInside` | coast/regex/RE.cpp:315-338 | after a match a group has both registers or none, and match start <= start <= end <= match end |
| `ReSearch.CutsSpell` | coast/regex/RE.cpp:386-410 | the pieces interleaved with the matches skipped spell the text, for every pattern |
| `ReSearch.CutsAreExact` | coast/regex/RE.cpp:386-410 | every cut is made at the leftmost match from its position on, and cutting stops only at the limit, at the end or where no match is left |
| `ReSearch.CutsMove` | coast/regex/RE.cpp:397-399 | a pattern that cannot be empty is never found empty at the search position; otherwise exactly one character is stepped over |
| `ReSearch.WrittenLength` | coast/regex/RE.cpp:411-434 | substitution loses one character for every empty match at the search position and nothing else |
| `ReSearch.SubstExact` | coast/regex/RE.cpp:411-434 | substitution is the text with each match replaced exactly if no match was empty at the search position, in particular for patterns that cannot be empty |
| `ReSearch.SubstLosesCharacter` | coast/regex/RE.cpp:421-423 | an input on which it is not: the empty pattern on "a" |
| `ReLang.LeafExact` | coast/regex/RE.cpp:210-273 | each one-node terminal matches exactly the stretches its meaning says, literals read up to their first NUL |
| `ReLang.EndsMatch` | coast/regex/RE.cpp:102-313 | everything backtracking finds is a match |
| `ReLang.MatchEnds` | coast/regex/RE.cpp:102-313 | backtracking finds every match |
| `ReLang.WantedExact` | coast/regex/RE.cpp:102-313 | a match attempt fails exactly if no stretch from the position on matches |
| `ReLang.RangeExact` | coast/regex/RECompiler.cpp:841-879 | the unfolded `X{n}`, `X{n,}` and `X{n,m}` match exactly the allowed numbers of repetitions of X |
| `RePatterns.PatternCorrect` | coast/regex/RECompiler.cpp:1014-1057 | from pattern text to match: for every pattern that compiles and whose loops advance, compiling and running finds what backtracking over the parsed tree finds first, and always terminates |
| `RePatterns.MostAreSane` | coast/regex/RECompiler.cpp:503-603 | loops advance in every pattern of which no literal begins with NUL, in particular if neither a character nor an escape denotes NUL |
| `RePatterns.PatternExact` | coast/regex/RE.cpp:102-313 | without back-references it fails exactly if nothing matches there |
| `RePatterns.SearchExact` | coast/regex/RE.cpp:340-384 | a search finds something exactly if some stretch matches, and then where the first such stretch begins |
| `RePatterns.AtomWhole` | coast/regex/RE.cpp:241-242 | a literal is compared whole exactly if it contains no NUL |
| `RePatterns.AtomConsumes` | coast/regex/RE.cpp:240-257 | a literal, always reported as non-nullable, matches without consuming anything exactly if it begins with NUL, and then everywhere |
| `RePatterns.NulStarDiverges` | coast/regex/RE.cpp:240-300 | the pattern `\0*` compiles, and matching it ends on no text and at no position |
| `ReWildcard.SimplePatternToFullRegularExpression` | coast/regex/RE.cpp:40-71 | the translation, character by character |
| `ReWildcard.ScanWildcard` | coast/regex/RECompiler.cpp:503-603 | on a translated wildcard an atom takes a run of ordinary characters, possibly cut short by the look-ahead |
| `ReWildcard.TranslationExact` | coast/regex/RE.cpp:40-71 | the translation of every NUL-free wildcard compiles, and matches a stretch exactly if the wildcard does: `*` any text without newline (any text at all if newlines count), every other character itself |
| `ReWildcard.WildcardExact` | coast/regex/RE.cpp:40-71 | the same for the compiled program: it fails exactly if no stretch matches the wildcard |
| `RwLocks.StepKeepsSafe` | coast/mtfoundation/SystemAPI.cpp:464-642 | every critical section keeps: a writer excludes everybody, counters equal holders and waiters, readers sleep only behind a writer, a free lock with sleeping writers has an awake waiter, a destroyed lock is unused |
| `RwLocks.EveryRunSafe` | coast/mtfoundation/SystemAPI.cpp:464-642 | all of that after every run of any threads |
| `RwLocks.WaiterGetsFreeLock` | coast/mtfoundation/SystemAPI.cpp:464-642 | a free lock that is waited for has an awake waiter, and the next step of any awake waiter takes it |
| `RwLocks.TryExact` | coast/mtfoundation/SystemAPI.cpp:498-610 | the non-blocking attempts take the lock exactly if nobody is in the way, and otherwise change nothing, counters included |
| `RwLocks.LockExact` | coast/mtfoundation/SystemAPI.cpp:464-586 | a call for the lock takes it exactly if nobody is in the way, and is otherwise registered as a sleeper; no other thread is affected |
| `RwLocks.ResumeExact` | coast/mtfoundation/SystemAPI.cpp:478-586 | so does a waiter that has been woken |
| `RwLocks.UnlockExact` | coast/mtfoundation/SystemAPI.cpp:521-642 | unlocking gives the lock up: a reader is gone and the other holders stay, the signalled writer being woken exactly if nobody holds the lock then; after a writer nobody holds it, every sleeping reader is awake, and if none waits the signalled writer |
| `RwLocks.OthersExact` | coast/mtfoundation/SystemAPI.cpp:405-444 | an attempt to destroy the lock affects no thread, and a wake-up that nobody asked for only the one woken |
| `RwLocks.DestroySafe` | coast/mtfoundation/SystemAPI.cpp:405-444 | destruction takes effect exactly if nobody holds or awaits the lock |
| `RwLocks.RwLock.ReadLock` | coast/mtfoundation/SystemAPI.cpp:464-492 | takes the lock exactly if no writer holds it, and goes to sleep otherwise |
| `RwLocks.RwLock.ReadResume` | coast/mtfoundation/SystemAPI.cpp:478-492 | a woken reader tests again, and gets the lock unless a writer is active |
| `RwLocks.RwLock.ReadTryLock` | coast/mtfoundation/SystemAPI.cpp:498-516 | succeeds or reports busy |
| `RwLocks.RwLock.ReadUnlock` | coast/mtfoundation/SystemAPI.cpp:521-538 | the reader is gone, the other holders stay, and the last reader wakes a sleeping writer |
| `RwLocks.RwLock.WriteLock` | coast/mtfoundation/SystemAPI.cpp:558-586 | takes the lock exactly if nobody holds it, and goes to sleep otherwise |
| `RwLocks.RwLock.WriteResume` | coast/mtfoundation/SystemAPI.cpp:572-586 | a woken writer tests again, and gets the lock if it is free |
| `RwLocks.RwLock.WriteTryLock` | coast/mtfoundation/SystemAPI.cpp:592-610 | succeeds or reports busy |
| `RwLocks.RwLock.WriteUnlock` | coast/mtfoundation/SystemAPI.cpp:615-642 | the writer is gone and nobody holds the lock; all sleeping readers are awake, or else a sleeping writer |
| `RwLocks.RwLock.Destroy` | coast/mtfoundation/SystemAPI.cpp:405-444 | succeeds exactly if nobody holds or awaits the lock |
| `LeaderFollower.StepKeepsSafe` | coast/mtfoundation/LeaderFollowerPool.cpp:52-113 | every critical section keeps: at most one leader, the slot names exactly the leader, a free slot with sleeping followers has an awake follower, nobody leaves before termination is requested |
| `LeaderFollower.EveryRunSafe` | coast/mtfoundation/LeaderFollowerPool.cpp:52-113 | all of that after every run, with blocking and termination |
| `LeaderFollower.ArrivalExact` | coast/mtfoundation/LeaderFollowerPool.cpp:64-94 | before termination, whoever enters, wakes up or comes back after processing leads exactly if promotion is not blocked and nobody leads, and sleeps otherwise; nobody else is affected |
| `LeaderFollower.DepartureExact` | coast/mtfoundation/LeaderFollowerPool.cpp:64-113 | after a request to terminate, whoever arrives leaves for good, and nobody else is affected |
| `LeaderFollower.SignalExact` | coast/mtfoundation/LeaderFollowerPool.cpp:96-113 | a promotion moves the leader on to processing and wakes exactly the sleeper the signal reaches, and so does the end of a block, but for the leader |
| `LeaderFollower.OthersExact` | coast/mtfoundation/LeaderFollowerPool.cpp:52-62 | a request to terminate wakes exactly the sleepers, a block no thread and keeps the leader |
| `LeaderFollower.UnblockRestores` | coast/wdbase/LFListenerPool.cpp:71-88 | unblocking restores a leader exactly if it is still leading |
| `LeaderFollower.PromoterIsLeader` | coast/mtfoundation/LeaderFollowerPool.cpp:96-112 | before termination, the consistency check of a promotion never fails |
| `LeaderFollower.BlockedStays` | coast/wdbase/LFListenerPool.cpp:71-77 | until it is undone, blocking works: whatever the threads do, nobody becomes leader |
| `LeaderFollower.NestedBlock` | coast/wdbase/LFListenerPool.cpp:71-88 | nested blocking breaks the protocol: after two blocks and two unblocks nobody becomes leader; a third unblock frees the slot exactly if there was a promotion in between |
| `LeaderFollower.LeaderFollowerPool.Enter` | coast/mtfoundation/LeaderFollowerPool.cpp:64-82 | entering the pool: lead exactly if the slot is free, sleep if not, leave after termination |
| `LeaderFollower.LeaderFollowerPool.Resume` | coast/mtfoundation/LeaderFollowerPool.cpp:72-85 | after a wait: lead exactly if the slot is free, sleep again if not, leave after termination |
| `LeaderFollower.LeaderFollowerPool.Return` | coast/mtfoundation/LeaderFollowerPool.cpp:85-94 | after processing, while the pool runs: back in the pool, leading exactly if the slot is free and asleep if not; leave after termination |
| `LeaderFollower.LeaderFollowerPool.PromoteNewLeader` | coast/mtfoundation/LeaderFollowerPool.cpp:96-113 | keeps the invariant; after the leader's promotion nobody leads, the slot is free or will be when unblocked, and if followers sleep one has been woken |
| `LeaderFollower.PromotionFrees` | coast/mtfoundation/LeaderFollowerPool.cpp:182-222 | the leader's promotion frees the slot and wakes a sleeper |
| `LeaderFollower.LeaderFollowerPool.BlockRequests` | coast/wdbase/LFListenerPool.cpp:71-77 | saves the leader and blocks the slot |
| `LeaderFollower.LeaderFollowerPool.UnblockRequests` | coast/wdbase/LFListenerPool.cpp:80-88 | restores the saved leader and signals |
| `LeaderFollower.LeaderFollowerPool.RequestTermination` | coast/mtfoundation/LeaderFollowerPool.cpp:52-62 | blocks the slot for good and wakes everybody |
| `Acceptors.HandleSet.WaitForEvents` | coast/mtfoundation/LeaderFollowerPool.cpp:277-296 | returns the first ready acceptor behind the one used last, going round, and remembers it |
| `Acceptors.HandleSet.RegisterHandle` | coast/mtfoundation/LeaderFollowerPool.cpp:303-309 | appends an acceptor with a usable descriptor |
| `Acceptors.FirstReadyIs` | coast/mtfoundation/LeaderFollowerPool.cpp:279-295 | the choice is ready and no nearer acceptor is |
| `Acceptors.ChosenExact` | coast/mtfoundation/LeaderFollowerPool.cpp:277-296 | a poll returns an acceptor exactly if it is the nearest ready one, and none exactly if none is ready |
| `Acceptors.Fair` | coast/mtfoundation/LeaderFollowerPool.cpp:278-296 | with N acceptors, one that is ready at every poll is returned in any N polls in a row |
| `Acceptors.BoundIsExact` | coast/mtfoundation/LeaderFollowerPool.cpp:278-296 | N - 1 polls do not suffice |
| `RecursiveMutex.StepKeepsSafe` | coast/mtfoundation/Threads.cpp:1017-1156 | every access to shared data keeps: the owner field is -1 or the native owner, each stored count is locks minus unlocks, and who owns what in which phase |
| `RecursiveMutex.EveryRunSafe` | coast/mtfoundation/Threads.cpp:1017-1156 | all of that after every run of any set of threads |
| `RecursiveMutex.OneHolder` | coast/mtfoundation/Threads.cpp:1017-1071 | at most one thread holds the lock |
| `RecursiveMutex.RecursionDetected` | coast/mtfoundation/Threads.cpp:1073-1138 | reading the owner without protection tells a thread correctly whether it holds the lock; if not, a blocking caller goes on to wait and only a trying one is back |
| `RecursiveMutex.UnlockExact` | coast/mtfoundation/Threads.cpp:1041-1071 | unlocking by a non-owner changes nothing; by the owner it undoes one lock and gives the mutex up exactly if it was the last |
| `RecursiveMutex.LockReturns` | coast/mtfoundation/Threads.cpp:1017-1040 | `Lock` called at depth d returns only with the mutex, whatever the other threads do: at depth d + 1, as native owner and as owner named in the mutex |
| `RecursiveMutex.UnlockReturns` | coast/mtfoundation/Threads.cpp:1041-1071 | when `Unlock` by the holder has returned, one lock less is held and the thread owns the mutex exactly if others are left |
| `RecursiveMutex.HandedOver` | coast/mtfoundation/Threads.cpp:1022-1022 | waiting for the native mutex ends with owning it |
| `RecursiveMutex.CallsEnd` | coast/mtfoundation/Threads.cpp:1017-1156 | every step inside a call brings the call nearer to its end |
| `RecursiveMutex.NeverStuck` | coast/mtfoundation/Threads.cpp:1017-1156 | a thread can always go on, unless it waits for the native mutex and that is taken |
| `RecursiveMutex.WaitRestores` | coast/mtfoundation/Threads.cpp:1140-1156 | a condition wait at any depth releases the mutex completely while it sleeps, and restores exactly that depth, whatever other threads do |
| `RecursiveMutex.Mutex.SetCount` | coast/mtfoundation/Threads.cpp:981-1005 | stores a positive count, removes any other |
| `RecursiveMutex.Mutex.TryLock` | coast/mtfoundation/Threads.cpp:1073-1138 | succeeds exactly if the mutex is free or already held, and then adds one to the depth |
| `RecursiveMutex.Mutex.Unlock` | coast/mtfoundation/Threads.cpp:1041-1071 | undoes one lock of the holder, and nothing for anybody else |
| `ThreadLife.ThreadState.SetState` | coast/mtfoundation/Threads.cpp:416-459 | a refusal changes nothing, a request to terminate always takes effect unless it comes too late and ends an uncreated thread at once, the state otherwise moves on one by one, and only the thread itself or re-use sets it back |
| `ThreadLife.StepKeepsSafe` | coast/mtfoundation/Threads.cpp:204-285 | every step of starter, new thread and terminators keeps the life cycle coherent: unless termination was requested the state tells exactly how far both threads are and the new thread does not end without `Run`, and a request is not forgotten |
| `ThreadLife.EveryRunSafe` | coast/mtfoundation/Threads.cpp:204-285 | so it is after every interleaving |
| `ThreadLife.EntryExact` | coast/mtfoundation/Threads.cpp:637-683 | `Run` is entered only from eStarted to eRunning, for the first time, and never after a termination request took effect |
| `ThreadLife.EntersRun` | coast/mtfoundation/Threads.cpp:637-683 | a new thread that gets there before a request does enter `Run` |
| `ThreadLife.EveryStepCounts` | coast/mtfoundation/Threads.cpp:204-285 | starter and new thread each come to their end in a bounded number of their own steps, and once the start is over the new thread can always go on |
| `ThreadLife.RequestExact` | coast/mtfoundation/Threads.cpp:628-635 | a request takes effect exactly if the state is below eTerminationRequested, ends a thread not yet created at once, and changes nothing else |
| `ThreadLife.TerminateExact` | coast/mtfoundation/Threads.cpp:628-635 | `Terminate` returns true exactly in eTerminated, which holds once the new thread has gone |
| `ThreadLife.AskedInTime` | coast/mtfoundation/Threads.cpp:637-683 | a request that takes effect before `Run` prevents it for good |
| `ThreadLife.TerminatedForGood` | coast/mtfoundation/Threads.cpp:628-683 | once `Terminate` has returned true, `Run` is not executing and never will be in that life |
| `ThreadLife.EveryLife` | coast/mtfoundation/Threads.cpp:204-285 | the three statements about every run from the start and every point of it |
| `WorkerPool.WPMStatHandler.DoHandleStatEvt` | coast/mtfoundation/WPMStatHandler.cpp:30-61 | after handling the report of any step, the count is again the number of workers counted as working, within pool size and maximum, and the maximum has not shrunk |
| `WorkerPool.StepKeepsSafe` | coast/mtfoundation/Threads.cpp:507-536 | every step of workers, of those who look at them and of the caller in its guarded section keeps: the count is the number of workers counted as working; a worker is counted exactly while it works, but for one whose state mutex is held by a report under way; a chosen worker stays free, and during a search some worker is free |
| `WorkerPool.EveryRunCounts` | coast/mtfoundation/ThreadPools.cpp:528-552 | in every run the count stays between 0 and the pool size and is the reports handled in minus those handled out, the maximum recorded is its running maximum, finished requests are counted, and without a report under way the count is the number of working workers |
| `WorkerPool.WorkerExact` | coast/mtfoundation/Threads.cpp:507-536 | a step concerns at most one worker; that is set to work or ready at once, and whoever holds its state mutex goes on to give it up, the report being handled on the way |
| `WorkerPool.CallerExact` | coast/mtfoundation/ThreadPools.ipp:14-31 | the caller searches, takes exactly a free worker that is not held, always succeeds in setting it to work, reports that and leaves |
| `WorkerPool.RoomMeansFree` | coast/mtfoundation/ThreadPools.cpp:620-634 | unless a caller is just reporting, in particular during a search, the count is below the pool size exactly if some worker is ready with its last request counted out |
| `WorkerPool.ReadyMeansFree` | coast/mtfoundation/Threads.cpp:556-573 | the workers that answer ready are exactly the free ones whose state mutex nobody holds |
| `WorkerPool.FreeStays` | coast/mtfoundation/ThreadPools.ipp:14-31 | a free worker stays free whatever the workers and those who look do, since only the caller in the section gives work |
| `WorkerPool.EverySearch` | coast/mtfoundation/ThreadPools.cpp:635-652 | in every run some worker is free throughout a search, the search asks the workers in cyclic order from its start, and what it chooses is free and stays so until it is set to work |
| `WorkerPool.RoundEndsExactly` | coast/mtfoundation/ThreadPools.cpp:643-650 | from any point of a search on, with the workers running meanwhile, it ends within the next pool-size probes exactly if some free worker's state mutex is not held when that worker is asked |
| `WorkerPool.FindNextRunnable` | coast/mtfoundation/ThreadPools.cpp:635-652 | entered when there is room, the cyclic scan from any hint ends at the first worker that answers, which is free; and in the first round exactly if some free worker's state mutex is not held when it is asked |
| `WorkerPool.FirstRoundCanFail` | coast/mtfoundation/ThreadPools.cpp:380-387 | a run in which one round does not suffice: the only worker is counted out but still holds its state mutex, and a caller that sees room asks it in vain |
| `WorkerPool.CountLags` | coast/mtfoundation/ThreadPools.cpp:554-561 | a reader outside the section can see a count below the number of working workers |
| `Gzip.Write` | coast/compress/ZipStream.cpp:90-121 | the bytes of the header and the checksum stored in it |
| `Gzip.ReadHeader` | coast/compress/ZipStream.cpp:123-181 | the header read from any input, with all ways to end early |
| `Gzip.ReadBytes` | coast/compress/ZipStream.cpp:146-152 | a name or comment up to its NUL, or to the end of the input |
| `Gzip.RoundTrip` | coast/compress/ZipStream.cpp:90-181 | for every header with XLEN equal to the length of the extra field and NUL-free name and comment, reading what was written gives it back, valid, under any checksum function and whatever follows; fields without a flag keep their old value |
| `Gzip.CutShort` | coast/compress/ZipStream.cpp:123-181 | a proper prefix is accepted exactly if there is a header checksum and only its bytes are missing; so without that flag every proper prefix is rejected |
| `Gzip.AcceptsExactly` | coast/compress/ZipStream.cpp:123-181 | a reader accepts exactly the inputs that begin with a header as it is written, magic numbers and checksum included, or that end inside the checksum of one |
| `Gzip.LayoutExact` | coast/compress/ZipStream.h:16-60 | the bytes are those of section 2.3 of RFC 1952: magic numbers, flag bits, order of the optional fields, byte order |
| `Chunked.HTTPChunkedStreamBuf.Sync` | coast/wdbase/HTTPChunkedOStream.cpp:39-60 | sends the put area as one chunk, nothing if it is empty or the stream closed |
| `Chunked.HTTPChunkedStreamBuf.Put` | coast/wdbase/HTTPChunkedOStream.cpp:72-79 | no byte is lost while the stream is open and the chunk size is positive, and a chunk is sent exactly if the put area is full |
| `Chunked.HTTPChunkedStreamBuf.Close` | coast/wdbase/HTTPChunkedOStream.cpp:27-37 | after closing, decoding the output gives exactly the bytes put, no chunk exceeds the chunk size and only the last has size 0; with chunk size 0 everything put is lost |
| `Chunked.RoundTrip` | coast/wdbase/HTTPChunkedOStream.cpp:39-60 | decoding coded chunks gives their data and sizes, whatever follows |
| `Chunked.BytesExact` | coast/wdbase/HTTPChunkedOStream.cpp:27-60 | sizes in lower-case hexadecimal without leading zero, line ends around the data, and a last chunk of size 0 |
| `Numerals.DigitsExact` | cute/cute_to_string.h:237-257 | the digits of a number denote it, without leading zero |
| `Printing.MinEndsInEight` | cute/cute_to_string.h:232-243 | the smallest value of a type of k bytes ends in 8, so the bumped digit never passes 9 |
| `Printing.MarksExact` | cute/cute_to_string.h:220-225 | no mark up to the size of `int`, one L at the size of `long`, two beyond |
| `Printing.ToStringSigned` | cute/cute_to_string.h:226-247 | the decimal text of every signed value of every width, the smallest included, with the marks for long types |
| `Printing.Hexit` | cute/cute_to_string.h:248-257 | the hexadecimal text |
| `Printing.ToStringUnsigned` | cute/cute_to_string.h:258-264 | the hexadecimal text with prefix and marks |
| `Printing.SignedReadsBack` | cute/cute_to_string.h:226-247 | every signed value reads back as itself |
| `Printing.UnsignedReadsBack` | cute/cute_to_string.h:248-264 | every unsigned value survives the hexadecimal form |

## Left out

- Non-greedy operators (`??`, `*?`, `+?`): their jumps are patched twice and do not form fragments; the parser model marks such patterns and gives them no program.
- RECompilers.RECompiler.Closure: returns -2 for a non-greedy operator, for which the source emits code.
- RECompilers.RECompiler.Compile: gives a pattern with a non-greedy operator no program, for the same reason.
- ReEngine.RE.constructor: holds no program for such a pattern.
- Loops that may run a round without progress and have back-references in their body, or another such loop inside it: what a round does there depends on the groups recorded, or the inner loop may not end; `ReLoops` covers all others.
- ReReadBack.ParseReads: says nothing about spellings whose reading depends on what follows, such as octal numbers of fewer than three digits, nor about patterns that end in an escaped closure character or have a terminal beginning with NUL; such patterns may parse as well.
- Character classes: what `[...]` denotes and where it ends, and the members of `\w`, `\s`, `\d`, are parameters; the class parser and the bit sets are not modelled.
- More than 31 groups: the set of closed groups is a set here and a 32-bit mask in the source.
- Numbers too large for `long` in `{n,m}`, and texts longer than `int` in `Split` and `Subst`.
- Error message texts, tracing, and the `Grep` functions, which only call the search on a collection.
- Failing system calls, thread cancellation and real time; a time-out is a wake-up that nobody asked for.
- Which thread holds a read-write lock: a `Tid` stands for one hold of the lock, so a thread that takes several read locks counts as several.
- Use of a read-write lock that races with its destruction: the validity test and the critical section are one step here.
- Threads that leave the leader/follower pool individually while it is running.
- The checks at the beginning of `Thread::Start` and the re-use of a terminated object: a life begins with the request to start.
- Thread restarts that overlap an unfinished start, the state hooks, and the variant compiled with `POOL_STARTEDHOOK`.
- `Mutex::Lock` and the condition wait as whole methods: they block, so they appear as steps only.
- WorkerPool.FindNextRunnable: starts behind the wait for room, and some probe is answered; if a free worker's state mutex were held whenever it is asked, the source's scan would go on for ever.
- The timer of the pool statistics, and the pool's start and shutdown.
- Stream flags: the chunk size is written with the default flags of a stream; `showbase` or `uppercase` set on the wrapped stream is not modelled.
- Compression itself: deflate, inflate, their buffers and the trailer are calls into zlib.
- Reading the modification time of a gzip header, which depends on the size of `long`.
- Sockets, pages, sessions, configuration and the module system: input and output, or thin layers.
