# Verified models of the shell's engines

The shell is built from small, dense engines: flags, cursors and in-place edits that each have a much
simpler meaning. The modules here model those engines in the form the C code has (loops over arrays,
classes whose methods update globals) and prove them against the simple meaning; what the
documentation promises is then proved of that meaning.

| file | models | meaning it is proved against |
|---|---|---|
| `SetMode.dfy` | symbolic mode commands and their in-place optimizer | the effect of a command list on a mode |
| `PatMatch.dfy`, `Trim.dfy` | the glob matcher and the four trim forms | the recursive match relation; shortest and longest cut |
| `FieldSplit.dfy`, `ReadCmd.dfy` | the two field splitters | the grammar of fields and delimiters |
| `Quote.dfy` | the quoting printer, the quote states of the tokenizer, quote removal | the identity on strings |
| `ArithNumber.dfy`, `ArithLex.dfy`, `ArithGrammar.dfy`, `ArithEval.dfy` | arithmetic expansion, from bytes to the variable store | a layered grammar with lazy evaluation of its trees |
| `EvalSem.dfy`, `EvalFacts.dfy`, `Eval.dfy` | the evaluator with `evalskip`, `skipcount`, `loopnest`, `EV_TESTED`, `EV_EXIT` | a structured semantics with outcomes instead of flags |
| `Redir.dfy` | redirections that can be undone | a stack of whole descriptor tables |
| `Pipe.dfy` | the wiring of pipelines | one table per command |
| `CmdHash.dfy` | the command table | a search without any table |
| `Vars.dfy` | variables, local variables and who owns their memory | what each name showed before it was made local |
| `EvalLaws.dfy`, `ConstructLaws.dfy`, `PatLaws.dfy`, `TrimLaws.dfy`, `FieldLaws.dfy`, `ReadLaws.dfy`, `QuoteLaws.dfy`, `QuoteTexts.dfy`, `ArithLaws.dfy`, `ArithTexts.dfy`, `RedirLaws.dfy`, `HashLaws.dfy`, `VarLaws.dfy`, `SetModeLaws.dfy` | laws of those meanings themselves | what the documentation promises, in bytes, values and states |
| `Ascii.dfy`, `Wrappers.dfy` | | letters, digits and names; options |
| `StackAlloc.dfy` | the stack allocator and its growing string | blocks that stay where they are, a string that keeps its bytes |

Each meaning is a definition of its own, so the `...Laws` and `...Texts` modules say what it means in
terms of inputs and results alone: what `continue 2` leaves to do, which bytes `[!a-c]` matches, which value
`5-3` has, what `read -r` keeps.

What the operating system, `isprint`, simple commands and expansions do enters as parameters: a
descriptor table with a size limit, a function from names to `stat` results, a `Host` record whose
functions run a simple command, expand words or redirect. Everything is in the C locale, one byte a
character, and `mode_t` is the set of its bits.

Seven simple claims turn out to be false of the code. Each has a lemma or method with an input that shows it,
and the exact condition under which the code does meet it.

- *Every return restores the loop count.* `command eval` (or dot) that catches an error raised inside a loop
  leaves that loop counted, so a later `break` outside all loops is taken for a pending one
  (`EvalFacts.CaughtErrorLeavesLoopCounted`). The count is restored if and only if `command` catches no error
  that comes up deeper than it stands, which is an event of the run (`EvalFacts.LoopCountRestored`). It never
  does if no loop can be reached there, through functions too (`EvalFacts.TidyCatchesNothing`).
- *Nothing under a tested position is ended by `set -e`.* The commands of a foreground pipeline and of a file
  read by dot are evaluated without `EV_TESTED` wherever they stand (`EvalFacts.PipelineForgetsTested`,
  `EvalFacts.DotForgetsTested`). Without dot, `set -e` never ends the process in which the tested position is,
  whatever pipelines and subshells it starts (`EvalFacts.TestedNeverExits`). For all trees, what a process does
  under `set -e` is what it would do if it did not heed the option, cut right after its first fatal check
  (`EvalFacts.ErrexitCuts`); the option changes nothing at all if and only if no process comes to one
  (`EvalFacts.ErrexitChangesNothing`), and a parent notices nothing if and only if what was cut would have
  changed neither the system nor the exit status (`EvalFacts.CutIsUnseen`).
- *A pop restores the descriptors of a push that failed midway.* When the fork for a long here-document fails,
  both ends of its pipe stay open (`Redirections.FailedForkLeaksPipe`). The pop restores everything if and
  only if the redirections do not come to such a fork whose two pipe ends, the lowest free descriptors then,
  are not both among the descriptors redirected so far (`Redirections.PopUndoesPush`, with the condition
  `PipeEscapes` on the table and the redirections).
- *Locals are unset again when a function returns.* `local 1x=5` is accepted, but `unsetvar` then calls
  `setvar`, which rejects the name and raises an error out of `poplocalvars`
  (`Variables.BadLocalNameStaysSet`). One pop fails if and only if the variable was unset before, now has a
  value, and its name is not a name (`Variables.PopOneKeeps`); all of them succeed if and only if no record is
  in that state in its turn (`Variables.Shell.PopLocalVars`), and proper names are restored in any case
  (`Variables.Shell.CallFunction`).
- *Memory may be released in the reverse order of allocation.* If the second of two allocations needed a new
  block, releasing both leaves `stacknxt` in a block that is not the current one
  (`StackAlloc.ReleaseOfTwoBlocks`). The allocator stays sound if and only if every pointer released lies in the
  block that is current then (`StackAlloc.StackAllocator.StUnalloc` for one call,
  `StackAlloc.StackAllocator.Run` for every run).
- *A pattern is read up to its NUL.* In `[a-` the NUL is taken for the end of a range and the scan goes on
  behind it (`PatMatch.OpenRangeOverruns`). A range is read past the end if and only if its `-`, or a CTLESC
  right behind it, is the last byte (`PatMatch.RangeStepsPastEnd`), and of whole patterns only one that ends in
  `-` or a CTLESC can be (`PatMatch.IllFormedEndsOpen`). For all others the matcher decides the match relation
  (`PatMatch.PatMatch`).
- *Every command of a pipeline gets its standard input.* With descriptor 0 closed, the first command of a
  background pipeline gets `/dev/null` and then closes it as if it were its own pipe
  (`Pipelines.FirstCommandLosesInput`; exactly then, `Pipelines.WiredUnlessInputLost`).

`dafny verify dfyconfig.toml` checks the project.

## Model

| member | source | states |
|---|---|---|
| `SetMode.GetMode` | src/compat/setmode.c:79-145 | the loop over the compiled commands computes the list's effect on the mode |
| `SetMode.GetModeStep` | src/compat/setmode.c:79-145 | each command, including the three copy commands with their spread over u, g and o, changes the mode as its meaning says |
| `SetMode.AbsorbKeepsMeaning` | src/compat/setmode.c:431-478 | folding one `+`, `-` or `X` into the pending set, clear and X bits keeps the effect of the run |
| `SetMode.CompressKeepsMeaning` | src/compat/setmode.c:431-478 | for every command list and every mode the compressed list has the same effect |
| `SetMode.CompressIsCanonicalAndIdempotent` | src/compat/setmode.c:431-478 | each run becomes at most one `-`, one `+` and one `X`, in this order and with disjoint bits; a second pass changes nothing |
| `SetMode.CompressMode` | src/compat/setmode.c:431-478 | the in-place pass leaves the compressed list at the front of the array, never writes past where it reads, leaves the rest alone, and getmode gives the same result before and after |
| `SetMode.ReadRun` | src/compat/setmode.c:431-478 | reading a run yields bits whose commands are no more than the commands read |
| `SetMode.WriteRun` | src/compat/setmode.c:431-478 | the run's commands are written behind what was written, and nothing beyond changes |
| `SetMode.CmdBuffer.Reserve` | src/compat/setmode.c:147-160 | growing keeps the commands and leaves room for a command, the second half of `=`, and the end |
| `SetMode.CmdBuffer.AddPerm` | src/compat/setmode.c:340-395 | adds exactly the commands of one permission clause and keeps those before; `=` becomes a clear and a set |
| `SetMode.CmdBuffer.AddCopy` | src/compat/setmode.c:340-395 | adds one copy command with the who bits as flags and the mask |
| `SetMode.AssignMeaning` | src/compat/setmode.c:340-395 | the two commands of `=` clear the who bits (or all standard bits) and set the permission within who (or the umask) |
| `SetModeLaws.PermClause` | src/compat/setmode.c:75-145 | bit by bit: `+` adds the permission within the classes named, or the umask, `-` takes it away, `=` also clears the other bits of the classes, `X` adds it to directories and files with an execute bit |
| `SetModeLaws.CopyClause` | src/compat/setmode.c:75-145 | bit by bit: copying one class into others with `=`, `+` or `-` sets, adds or takes away its three permissions in each class named, or within the umask, and changes nothing else |
| `SetMode.AbsoluteMode` | src/compat/setmode.c:196-213 | for an octal mode the commands replace the standard bits and the sticky bit and keep all others |
| `PatMatch.MatchBracket` | src/expand.c:1395-1476 | scanning a bracket expression decides membership of the byte in the parsed items, or reports an unterminated bracket, which then stands for itself |
| `PatMatch.OutcomeStep` | src/expand.c:1395-1476 | each item of a bracket contributes its byte or range to the result of the rest; `]` ends the scan only after an item |
| `PatMatch.StarMatchesSomeSuffix` | src/expand.c:1334-1499 | a `*` matches exactly when the rest of the pattern matches some suffix |
| `PatMatch.StarFreeConsumes` | src/expand.c:1334-1499 | elements without `*` take one byte each |
| `PatMatch.ForgetEarlierStar` | src/expand.c:1334-1499 | when a later `*` is reached, whatever the earlier one could still match the later one can: one backtrack point is enough |
| `PatMatch.StringRanOut` | src/expand.c:1334-1499 | once the string has run out under an element that needs a byte, no longer match of the remembered `*` helps: failing at once is right |
| `PatMatch.PatMatch` | src/expand.c:1334-1499 | for every well-formed pattern and every string the matcher terminates and returns whether the match relation holds |
| `PatMatch.SkipStars` | src/expand.c:1376-1394 | skipping repeated `*` and moving the backtrack point keeps the set of matches still possible |
| `PatMatch.RangeStepsPastEnd` | src/expand.c:1450-1468 | the end of a range is looked for at the NUL or behind it if and only if the `-`, or a CTLESC right behind it, is the last byte |
| `PatMatch.IllFormedEndsOpen` | src/expand.c:1334-1476 | only a pattern whose last byte is a CTLESC or a `-` can be read past its end |
| `PatMatch.OpenRangeOverruns` | src/expand.c:1450-1476 | an input for which the scan goes on behind the terminating NUL |
| `PatLaws.BracketIsASet` | src/expand.c:1395-1476 | `[s]` matches exactly the bytes of s, `[!s]` and `[^s]` all others; a `]` in first place is a member |
| `PatLaws.DashInLastPlace` | src/expand.c:1450-1476 | a dash before the closing bracket is a member |
| `PatLaws.BracketIsARange` | src/expand.c:1450-1476 | `[lo-hi]` matches exactly the bytes from lo to hi |
| `PatLaws.BracketIsAClass` | src/expand.c:1274-1294 | `[[:name:]]` matches the bytes of the class as they are listed for the C locale, and nothing for an unknown name |
| `PatLaws.BracketIsASymbol` | src/expand.c:1297-1325 | a collating symbol or equivalence class of one byte matches that byte |
| `PatLaws.RangeOfSymbols` | src/expand.c:1450-1476 | the ends of a range may be written as such symbols |
| `PatLaws.BadRangeMatchesNothing` | src/expand.c:1454-1459 | an end of a range that is written as a symbol and is none makes a pattern that matches nothing |
| `PatLaws.OpenBracketIsLiteral` | src/expand.c:1415-1420 | a bracket that is never closed stands for itself |
| `PatLaws.NoClassName` | src/expand.c:1273-1294 | a class name that is empty or has 20 bytes or more begins no class: the brackets end at the first closing bracket, and a second one must follow |
| `PatLaws.OrdinaryBytesMatchThemselves` | src/expand.c:1343-1499 | a string of ordinary bytes matches itself and nothing else |
| `PatLaws.WildBytes` | src/expand.c:1362-1394 | `?` matches exactly the strings of one byte and `*` all |
| `PatLaws.QuotedByteMatchesItself` | src/expand.c:1351-1361 | a quoted byte matches itself and nothing else, also when it is special |
| `PatLaws.AfterQuotedBackslash` | src/expand.c:1351-1361 | a byte behind a quoted backslash is quoted, and a quoted backslash at the end is itself |
| `PatLaws.PatternReadsBack` | src/expand.c:1334-1499 | any list of elements (stars, single bytes, quoted bytes, brackets with any members), written as a pattern, is read as that list |
| `PatLaws.MatchesInParts` | src/expand.c:1334-1499 | two patterns one after the other match exactly the strings that consist of a match of each |
| `Trim.ProbePrefix` | src/expand.c:593-619 | a probe decides whether the prefix matches and the byte cut off by the NUL is back in place |
| `Trim.RecordLeft` | src/expand.c:566-575 | the rest of the value moves to its start, byte by byte in place, and nothing else changes |
| `Trim.FirstPrefix` | src/expand.c:593-604 | `#` finds the shortest prefix that matches, or there is none |
| `Trim.LastPrefix` | src/expand.c:606-618 | `##` finds the longest prefix that matches, or there is none |
| `Trim.LastSuffix` | src/expand.c:620-629 | `%` finds the shortest suffix that matches, or there is none |
| `Trim.FirstSuffix` | src/expand.c:631-639 | `%%` finds the longest non-empty suffix that matches, or there is none |
| `Trim.OnlyEmptySuffix` | src/expand.c:631-648 | not looking at the empty suffix makes no difference |
| `Trim.SubevalvarTrim` | src/expand.c:577-648 | the result is the value without its shortest or longest matching prefix or suffix, the whole value when none matches; the suffix forms leave the shared buffer as it was |
| `TrimLaws.TrimStar` | src/expand.c:577-648 | with `*` the short forms remove nothing and the long forms everything |
| `TrimLaws.TrimLiteral` | src/expand.c:577-648 | a string of ordinary bytes is removed exactly if the value begins, or ends, with it |
| `FieldSplit.MachineSplitsFields` | src/expand.c:186-238 | from any IFS the three-state machine outputs the fields of the grammar: leading white space dropped, a delimiter is white space around one other IFS byte or white space alone, a final delimiter makes no empty field |
| `FieldSplit.RunToCome` | src/expand.c:186-238 | from every state of the machine, what it will output is the word in progress continued and then the fields of the rest |
| `FieldSplit.RunConcat` | src/expand.c:186-238 | splitting two values in turn is splitting their concatenation |
| `FieldSplit.SplitOfJoined` | src/expand.c:186-238 | fields joined by any delimiters of the grammar are split into those fields again |
| `FieldSplit.WordDest.NextWord` | src/expand.c:186-208 | ends, drops or keeps the word in progress as the state says |
| `FieldSplit.WordDest.StputsSplit` | src/expand.c:210-238 | a whole unquoted value runs through the machine |
| `FieldSplit.WordDest.FinishWord` | src/expand.c:252-290 | the last word is kept if it has bytes or a quote mark |
| `FieldSplit.ExpandTwo` | src/expand.c:252-380 | two adjacent unquoted expansions give the fields of their concatenation |
| `FieldLaws.WordEndsAtDelimiter` | src/expand.c:186-238 | a word, which may be empty before a delimiter other than white space, ends at white space of IFS with at most one other byte of IFS in it; the rest is split in the same way |
| `FieldLaws.SpaceAtEnds` | src/expand.c:186-238 | IFS white space in front is dropped, and alone it makes no field |
| `FieldLaws.LastWord` | src/expand.c:186-290 | a last word without bytes of IFS is a field; with an empty IFS nothing is split |
| `FieldLaws.QuotedPart` | src/expand.c:252-290 | quoted bytes are one field whatever IFS is, and an empty quoted part is an empty field |
| `ReadCmd.StepLast` | src/miscbltin.c:240-330 | while the last variable is filled, the positions of the last non-IFS bytes describe the fields the splitter would make |
| `ReadCmd.StepRemainder` | src/miscbltin.c:240-330 | each byte keeps what the last variable must hold: the line behind the first n-1 fields and their delimiters |
| `ReadCmd.InvEnd` | src/miscbltin.c:240-351 | at the end of the line the variables hold the fields, or the first n-1 fields and the untouched rest less trailing IFS white space |
| `ReadCmd.ReadByte` | src/miscbltin.c:240-330 | one turn of the loop updates the five cursors as the machine says |
| `ReadCmd.ReadCmd` | src/miscbltin.c:240-351 | for every IFS, line and number of variables, with and without `-r`, read assigns what field splitting defines and returns whether the delimiter was seen; it consumes the input up to there |
| `ReadLaws.RawLine` | src/miscbltin.c:244-285 | with -r the line is the bytes before the delimiter, backslashes included, all open to splitting |
| `ReadLaws.EscapedLine` | src/miscbltin.c:264-281 | without -r bytes with a backslash before each are read as those bytes, none of them a delimiter |
| `ReadLaws.EscapedValue` | src/miscbltin.c:264-281 | the value of a single variable is then those bytes, whatever IFS is |
| `ReadLaws.LineEndsAtFirstDelimiter` | src/miscbltin.c:244-285 | the line ends at the first delimiter with an even number of backslashes before it (with -r, at the first delimiter), and there is none exactly if the input ends first |
| `ReadLaws.NulsDisappear` | src/miscbltin.c:262-263 | NUL bytes change nothing, wherever they are |
| `ReadLaws.NulIsNoDelimiter` | src/miscbltin.c:262-285 | with an empty -d argument no line ends |
| `ReadLaws.EscapedPair` | src/miscbltin.c:264-281 | a backslash and a newline disappear; any other byte after a backslash, the delimiter included, is itself and ends nothing |
| `ReadLaws.ScanInParts` | src/miscbltin.c:244-285 | the line of two parts is that of the first followed by that of the second |
| `ReadLaws.WordByWord` | src/miscbltin.c:286-330 | while there is another variable, the next one gets the word up to the first delimiter |
| `ReadLaws.NextField` | src/miscbltin.c:286-330 | the same for every delimiter with white space around it, and for empty fields |
| `ReadLaws.LastVariable` | src/miscbltin.c:332-345 | the last variable gets the rest of the line as it is, from its first to its last byte that is no delimiter |
| `ReadLaws.LeadingWhiteSpace` | src/miscbltin.c:286-294 | IFS white space before the first field does not matter |
| `ReadLaws.TrimmedLine` | src/miscbltin.c:286-345 | one variable gets the line without the IFS white space around it |
| `ReadLaws.OneTrailingDelimiter` | src/miscbltin.c:335-343 | one delimiter after the only field is dropped |
| `ReadLaws.TwoTrailingDelimiters` | src/miscbltin.c:335-343 | two delimiters other than white space are kept |
| `Quote.PrintedReadsBack` | src/output.c:166-192 | for every byte string without NUL, tokenizing what outqstr prints gives exactly one word, and quote removal of that word gives the string |
| `Quote.ReadPrinted` | src/parser.c:1696-1774 | the printed form is one word up to the newline, whichever of the three forms was chosen |
| `Quote.ReadByteSeq` | src/parser.c:1491-1637 | the octal escape of a byte is read back as that byte, protected if it is a control byte |
| `Quote.ReadDqBody` | src/parser.c:1491-1637 | the body of a dollar-single-quoted string is read back byte by byte |
| `Quote.ReadSqBody` | src/parser.c:1696-1774 | the body of a single-quoted string is read as itself with control bytes protected |
| `Quote.ReadBare` | src/parser.c:1656-1774 | a string printed bare is read as one unquoted word |
| `Quote.UnescapeProtected` | src/expand.c:1507-1538 | quote removal undoes the protection of control bytes |
| `Quote.PrintedPatternIsLiteral` | src/output.c:166-192 | used as a pattern, the printed word matches the string itself and no other |
| `Quote.Output.OutDqStr` | src/output.c:124-164 | writes the dollar-single-quoted form |
| `Quote.Output.OutQstr` | src/output.c:166-192 | chooses the bare, single-quoted or dollar-single-quoted form and writes it |
| `Quote.ReadToken1` | src/parser.c:1656-1774 | the loop over the quote states, with dollar-single-quotes and with a `$` that starts no substitution and stands for itself, yields the word of the recursive reader |
| `Quote.SkipContinuations` | src/parser.c:2214-2235 | after a `$` all line continuations are passed over and nothing else |
| `QuoteLaws.DoubleQuotesKeepBytes` | src/parser.c:1696-1774 | any bytes but NUL between double quotes, with a backslash before each backslash, backquote, dollar sign and double quote, are one quoted word that is those bytes |
| `QuoteLaws.OtherBackslashesStay` | src/parser.c:1725-1750 | in double quotes a backslash before any other byte stays, and with a newline it disappears |
| `QuoteLaws.DollarStandsForItself` | src/parser.c:2054-2061 | a dollar sign before the closing double quote stands for itself |
| `QuoteTexts.DollarInDoubleQuotes` | src/parser.c:1882-2062 | in double quotes a dollar sign starts a substitution exactly if a letter, a digit or one of ten other bytes follows, continued lines between not counting, and stands for itself otherwise |
| `QuoteLaws.BackslashesKeepBytes` | src/parser.c:1725-1750 | outside quotes every byte but newline with a backslash before it is that byte, and backslash and newline disappear |
| `QuoteLaws.SingleQuotesKeepBytes` | src/parser.c:1696-1774 | single quotes keep every byte but the single quote, backslashes included |
| `QuoteLaws.EscapesStandForBytes` | src/parser.c:1491-1637 | the letter, octal, hexadecimal, control and Unicode escapes of dollar-single-quotes stand for the bytes of section 2.2.4 of IEEE Std 1003.1-2024 (XCU), between any other bytes |
| `QuoteLaws.NulEscapeEndsString` | src/parser.c:1491-1637 | an escape that gives a NUL drops the rest of the quoted string |
| `QuoteLaws.OtherEscapes` | src/parser.c:1491-1637 | any other byte after the backslash is a syntax error, but a newline disappears |
| `QuoteTexts.UnicodeEscapes` | src/parser.c:1564-1608 | four digits after `u` or eight after `U` give the byte of a character below 128, a question mark for any other, and a syntax error for zero and the surrogates |
| `QuoteTexts.FailingEscapes` | src/parser.c:1564-1577 | too few digits are a syntax error |
| `QuoteTexts.FailingControlEscapes` | src/parser.c:1553-1563 | a control escape of a byte that is no letter and none of seven others is a syntax error |
| `QuoteTexts.InputMakesNoMarks` | src/parser.c:1660-1850 | for every input, no byte of a word is mistaken for one of the bytes that direct its expansion |
| `QuoteTexts.WhatRemovalDrops` | src/expand.c:1507-1538 | quote removal drops the two quote marks and one CTLESC before a byte, wherever they are, and nothing else |
| `QuoteTexts.QuotedPatternIsLiteral` | src/parser.c:1696-1774 | any bytes in double or single quotes, used as a pattern, match themselves and nothing else |
| `QuoteTexts.NumberBeforeRedirection` | src/parser.c:1850-1869 | one digit directly before a redirection belongs to it, unless it is quoted; two digits are a word |
| `QuoteTexts.PrintedIsPlain` | src/output.c:124-200 | only newlines and bytes up to DEL that are no control bytes are printed, a string of them without single quotes as it is or in single quotes, and bare only without tilde, equals sign, space or newline |
| `QuoteTexts.PrintablesStandForThemselves` | src/output.c:112-165 | a byte that cannot be printed takes at most four, and printable bytes around it stay as they are |
| `QuoteLaws.OpenQuoteIsAnError` | src/parser.c:1837-1850 | a quote that is never closed is a syntax error |
| `QuoteLaws.PlainWordEnds` | src/parser.c:1696-1774 | a word of plain bytes goes up to the first blank, newline or operator byte and is not quoted |
| `QuoteLaws.BeforeToken` | src/parser.c:1096-1146 | blanks, comments and continued lines before a token do not matter |
| `Quote.RmEscapes` | src/expand.c:1507-1538 | removes escapes and quote marks in place and touches nothing behind the string |
| `Quote.PrintAndReadBack` | src/output.c:112-192 | the four routines one after the other return the string they were given |
| `ArithNumber.DecimalRoundTrip` | src/arith_yylex.c:53-77 | the decimal text of every 64-bit value, the smallest included, fits the result buffer with its NUL and is converted back to the value with nothing left over |
| `ArithNumber.DecimalLength` | src/arith.h:32 | a number below a power of ten has no more digits than the power |
| `ArithNumber.TruncDivInRange` | src/arith_yacc.c:121-160 | quotient and remainder stay in range for all operands but a zero divisor and the smallest value by -1, the two that do_binop singles out |
| `ArithLaws.OnlyDivisionFails` | src/arith_yacc.c:121-160 | of the binary operators only division and remainder fail, by zero and for the smallest value by -1 |
| `ArithLaws.AdditionLaws` | src/arith_yacc.c:135-136 | zero changes nothing, one gives the next value and wraps from the largest to the smallest, and a + (b + 1) is (a + b) + 1 |
| `ArithLaws.SubtractionUndoesAddition` | src/arith_yacc.c:137-138 | (a - b) + b is a for all 64-bit values |
| `ArithLaws.MultiplicationLaws` | src/arith_yacc.c:133-134 | a * 0 is 0 and a * (b + 1) is a * b + a, modulo 2^64 |
| `ArithLaws.DivisionLaws` | src/arith_yacc.c:125-132 | a / b * b + a % b is a, the remainder is smaller than b and has the sign of a |
| `ArithLaws.LeftShiftDoubles` | src/arith_yacc.c:139-140 | a shift by one more is a multiplication by two; the count is taken modulo 64 |
| `ArithLaws.RightShiftIsFloor` | src/arith_yacc.c:141-142 | the right shift is the division by the power of two that rounds down |
| `ArithLaws.ComparisonLaws` | src/arith_yacc.c:143-154 | exactly one of less, equal and greater is 1, in the order of the values, and the others are their negations |
| `ArithLaws.BitwiseLaws` | src/arith_yacc.c:155-160 | each of the 64 bits of and, or and exclusive or is that of the two bits |
| `ArithLaws.UnaryLaws` | src/arith_yacc.c:186-197 | -a + a is 0, +a is a, !a is whether a is 0, and ~a + 1 is -a |
| `ArithLaws.ComplementFlipsBits` | src/arith_yacc.c:195-197 | ~ inverts each of the 64 bits |
| `ArithTexts.HexadecimalReadsBack` | src/arith_yylex.c:53-77 | every number written in hexadecimal, in capitals or not, is read up to the first byte that is no hexadecimal digit, as its 64-bit pattern or, from 2^64 on, as minus one with an error |
| `ArithTexts.OctalReadsBack` | src/arith_yylex.c:53-77 | the same in octal |
| `ArithTexts.DecimalReadsOn` | src/arith_yylex.c:53-77 | a decimal number is read up to the first byte that is no digit; 2^63 gives the smallest and more the largest value, both with an error |
| `ArithTexts.NegativeReadsOn` | src/arith_yylex.c:53-77 | the same for a negative number, down to -2^63 |
| `ArithTexts.DecimalForm` | src/arith_yacc.c:320 | the text of a value is a zero, or digits of which the first is not zero, behind a minus exactly if the value is negative |
| `ArithTexts.ZeroReadsOn` | src/arith_yylex.c:53-77 | a zero before an `x` that no hexadecimal digit follows is a zero |
| `ArithTexts.LexNumber` | src/arith_yylex.c:97-109 | the error is not looked at in an expression: a number too large for 64 bits is the smallest or the largest value |
| `ArithTexts.SpaceBeforeNumber` | src/arith_yylex.c:58-59 | white space before a number does not matter |
| `ArithLex.LongestOperator` | src/arith_yylex.c:143-275 | the operator read is the longest spelling that the text starts with, assignment operators with their +11 codes included; there is none exactly when no spelling starts the text or it starts with `++` or `--` |
| `ArithLex.LexIsNext` | src/arith_yylex.c:79-275 | one call returns the first token of the text's token list and leaves the others |
| `ArithGrammar.ParserIsTheGrammar` | src/arith_yacc.c:166-342 | for every token list: the parser accepts it with tree e if and only if e is an assignment of the layered grammar whose yield is the list; so trees are unique and each of the eight levels associates to the left |
| `ArithGrammar.AssignmentSound` | src/arith_yacc.c:301-322 | what is parsed derives from the grammar and consumes exactly its tokens |
| `ArithGrammar.AssignmentComplete` | src/arith_yacc.c:301-322 | every derivable tree is found, whatever may follow it |
| `ArithGrammar.ClimbComplete` | src/arith_yacc.c:204-243 | precedence climbing from the first operand of a binary tree rebuilds the tree |
| `ArithGrammar.NoAssignmentStart` | src/arith_yacc.c:301-306 | two tokens of lookahead are enough to tell an assignment |
| `ArithEval.Parser.Yylex` | src/arith_yylex.c:79-275 | advances over one token and sets its value |
| `ArithEval.Parser.Primary` | src/arith_yacc.c:166-202 | value, store and remaining tokens are those of the primary parsed; with noeval no variable is read or written and nothing but a syntax error is raised |
| `ArithEval.Parser.Binop2` | src/arith_yacc.c:204-232 | the same for a chain of binary operators of at least the given precedence |
| `ArithEval.Parser.And` | src/arith_yacc.c:245-260 | the same for `&&`, whose right side is parsed with noeval after a zero |
| `ArithEval.Parser.Or` | src/arith_yacc.c:262-277 | the same for the other short circuit |
| `ArithEval.Parser.Cond` | src/arith_yacc.c:279-299 | the same for `?:`, whose unselected branch is parsed with noeval |
| `ArithEval.Parser.Assignment` | src/arith_yacc.c:301-322 | the same for assignments; a compound one reads its left side after its right |
| `ArithEval.Arithmetic` | src/arith_yacc.c:324-342 | an expression succeeds if and only if its tokens derive from the grammar and lazy evaluation of the tree raises no error, with that value and that variable store |
| `ArithEval.ErrorClimbs` | src/arith_yacc.c:204-243 | an error in an operand is an error of every tree the climber builds around it |
| `ArithEval.AssignedValueReadsBack` | src/arith_yacc.c:93-109 | what was assigned is what the variable evaluates to, or the variable is readonly |
| `ArithEval.GroupingDoesNotMatter` | src/arith_yacc.c:245-277 | the right recursion of `&&` and of the or operator evaluates like the left association of the grammar |
| `ArithTexts.TextOfBinary` | src/arith_yacc.c:204-243 | two decimal numbers with an operator between them, each of the sixteen by its name, are that operation on them |
| `ArithTexts.TextOfTwoBinaries` | src/arith_yacc.c:64-81 | of two operators in a row the tighter one, by its name, binds first, and equal ones group from the left |
| `ArithTexts.LexSymbol` | src/arith_yylex.c:143-275 | the other operators by name, whatever follows them |
| `ArithTexts.CompoundOperators` | src/arith_yylex.c:143-275 | the ten compound assignments by name |
| `ArithTexts.WhatAssigns` | src/arith_yacc.c:301-323 | a name, a token and a number are an assignment exactly if the token is `=` or one of the ten compound operators |
| `ArithTexts.NamesAndBlanks` | src/arith_yylex.c:86-141 | a name goes as far as it can, and blanks between tokens do not matter |
| `ArithTexts.AndBeforeOr` | src/arith_yacc.c:245-277 | `&&` binds tighter than the or operator, in either order |
| `ArithTexts.BinaryBeforeAnd` | src/arith_yacc.c:245-260 | every binary operator binds tighter than `&&`, on either side |
| `ArithTexts.UnaryBeforeBinary` | src/arith_yacc.c:166-202 | a unary operator binds tighter than every binary one, and parentheses tightest |
| `ArithTexts.ConditionalFromTheRight` | src/arith_yacc.c:279-299 | the conditional operator groups from the right and binds looser than the or operator |
| `ArithTexts.AssignmentFromTheRight` | src/arith_yacc.c:301-322 | assignments group from the right and bind loosest |
| `ArithTexts.ShortCircuits` | src/arith_yacc.c:245-277 | the right operand is evaluated only if it matters, and the value is 0 or 1 |
| `ArithTexts.OneBranch` | src/arith_yacc.c:279-299 | only the selected branch is evaluated |
| `ArithTexts.LeftBeforeRight` | src/arith_yacc.c:204-243 | the left operand is evaluated first and does not see the effects of the right one |
| `ArithTexts.CompoundIsBinary` | src/arith_yacc.c:301-322 | `x op= e` evaluates e and then is `x = x op v` for its value v |
| `ArithTexts.AssignmentChangesOne` | src/arith_yacc.c:314-320 | an assignment has the value assigned, fails for a readonly name only, and changes no other variable |
| `ArithTexts.VariableValues` | src/arith_yacc.c:93-109 | an unset or empty variable is 0, unless it is unset and -u is on; a text that begins like no number is an error |
| `Eval.Shell.EvalTree` | src/eval.c:189-312 | for every tree, fuel and state, the routine with its flags ends as the structured semantics says: same status, world, functions, loop count and checks of set -e, a pending break, continue or return encoded in evalskip and skipcount, errors and exits as exceptions |
| `Eval.Shell.EvalLoop` | src/eval.c:316-350 | the same for while and until, whose condition is in a tested position |
| `Eval.Shell.EvalFor` | src/eval.c:353-395 | the same for for, over the expanded words |
| `Eval.Shell.EvalCase` | src/eval.c:397-431 | after expanding the word and the patterns of the clauses in turn, any of which may change the state or raise an error, the clause of the selection function is left to run, empty clauses that fall through being passed over |
| `Eval.Shell.RunSimple` | src/eval.c:1379-1387 | a command may return, exit or raise an error, and may remove functions; one killed by a signal in an interactive shell leaves a break out of all loops pending |
| `Eval.Shell.BreakBuiltin` | src/eval.c:1470-1492 | break and continue count at most the loops that there are |
| `Eval.Shell.EvalRedir` | src/eval.c:464-500 | a redirected compound command runs with the redirections, which are undone afterwards; an error of expanding them is raised, a failing redirection only sets the status |
| `Eval.Shell.EvalSubshell` | src/eval.c:436-462 | after expanding the redirections, which may raise an error, the result is the same whether a process is forked or, at its end and without traps, the process itself becomes the subshell |
| `Eval.Shell.EvalPipe` | src/eval.c:586-644 | the commands of a foreground pipeline run as copies of the shell and the status is that of the last |
| `Eval.Shell.EvalFunction` | src/eval.c:1233-1293 | a call ends a pending return and passes breaks, continues, errors and exits on; a failing redirection only sets its status, a failing prefix assignment is an error |
| `Eval.Shell.EvalString` | src/eval.c:149-185 | the commands of a string run until one skips |
| `Eval.Shell.EvalBuiltin` | src/eval.c:115-147 | eval, also through `command`, which catches its errors |
| `Eval.Shell.DotBuiltin` | src/main.c:326-390 | the dot command, whose commands are not in a tested position and which ends a pending return |
| `EvalFacts.LoopCountRestored` | src/eval.c:189-388 | a tree leaves the loop count as it was if and only if `command` catches no error that comes up inside more loops than it stands in; a pending break or continue then counts at least one and at most the loops around the tree, so none escapes the outermost |
| `EvalFacts.TidyCatchesNothing` | src/eval.c:1318-1352 | nothing of the kind is caught when no loop can be reached, through functions too, under eval or dot run by `command` |
| `EvalFacts.CaughtErrorLeavesLoopCounted` | src/eval.c:1294-1398 | an input for which the loop count is not restored and a break outside all loops becomes pending |
| `EvalFacts.FuelMonotone` | src/eval.c:189-312 | the fuel of the semantics only bounds the run: a result does not change with more of it |
| `EvalLaws.ContinueStartsNextTurn` | src/eval.c:316-395 | `continue n` in n nested loops leaves the n - 1 inner ones and starts the next turn of the outermost, whatever would have come after it: it is `break n-1` there, and with one loop nothing more |
| `EvalLaws.BreakEndsFor` | src/eval.c:353-395 | `break n` in n nested loops, the outermost a for loop, gives what the words up to the first turn that reaches it give with `break n-1` |
| `EvalLaws.BreakEndsLoop` | src/eval.c:316-350 | in a while or until loop the turn that reaches it is the last, with its status |
| `EvalLaws.NestedLeaves` | src/eval.c:316-395 | in k loops more, `break` and `continue` with a count of all loops leave the inner ones and are then still to leave k, exactly if they are reached |
| `EvalLaws.BreakCountsLoops` | src/eval.c:1470-1492 | a count above the number of loops acts as that number; outside all loops nothing is left; a count below 1 is an error |
| `EvalLaws.AnyNopWillDo` | src/eval.c:1070-1398 | a simple command that returns 0 and changes nothing can stand for `eval` without commands in these laws |
| `ConstructLaws.Lists` | src/eval.c:203-245 | `;` runs both commands, `&&` the second after a success and the or operator after a failure, with the status of the last one run |
| `ConstructLaws.ListsStop` | src/eval.c:203-245 | a break, continue, return, exit or error in the first command stops the list |
| `ConstructLaws.ConditionsStop` | src/eval.c:203-312 | the same after `!` and in the condition of if |
| `ConstructLaws.Negation` | src/eval.c:203-312 | `!` turns success into failure and any failure into success |
| `ConstructLaws.Conditional` | src/eval.c:203-312 | if runs the branch that its condition selects; a failed condition without an else branch gives 0 |
| `ConstructLaws.WhenACommandExits` | src/eval.c:300-312 | a command ends the shell exactly if it exits, or fails in a position that is not tested while -e is on |
| `ConstructLaws.LoopEnds` | src/eval.c:316-350 | while ends after a failure and until after a success, with the status of the last body |
| `ConstructLaws.LoopGoesOn` | src/eval.c:316-350 | otherwise the body and then the loop again are run; a return, exit or error in the body stops the loop |
| `ConstructLaws.ConditionJumps` | src/eval.c:316-350 | break in the condition ends the loop, continue starts the next turn |
| `ConstructLaws.ForTakesEachWord` | src/eval.c:353-395 | the words are assigned in turn, first to last, and the body is run once for each |
| `ConstructLaws.ForStops` | src/eval.c:353-395 | a return, exit or error in the body stops a for loop |
| `ConstructLaws.CaseSelects` | src/eval.c:397-431 | the first clause that matches is run, falling through to the next if it says so; without a match or with an empty clause the status is 0; a failing pattern is an error |
| `ConstructLaws.DefinedThenCalled` | src/eval.c:1233-1293 | a definition gives 0, and the name then runs the body with the variables of the call taken back |
| `ConstructLaws.FailingCall` | src/eval.c:1245-1275 | a call whose redirections fail returns their status without running the body; failing assignments are an error |
| `ConstructLaws.ReturnStopsAtCall` | src/eval.c:1546-1560 | return gives its status, by default that of the command before, runs nothing after it, and stops at the call or the dot command, but not at eval |
| `ConstructLaws.TextsRunInTurn` | src/eval.c:115-185 | eval and dot run their commands one after the other, dot in an untested position |
| `ConstructLaws.EmptyTexts` | src/eval.c:149-185 | a text without commands gives 0 |
| `ConstructLaws.CommandCatches` | src/eval.c:1294-1398 | through `command` an error of eval becomes its status; without it the error goes on |
| `ConstructLaws.SubshellIsApart` | src/eval.c:436-462 | whatever a subshell does and however it ends, variables, functions and loops of its parent are as before, and the status is below 256 |
| `ConstructLaws.SubshellRuns` | src/eval.c:436-462 | the commands of a subshell run outside all loops with the functions of the parent, and the parent sees their effect on the system and their status modulo 256 |
| `ConstructLaws.PipelineIsApart` | src/eval.c:586-644 | a pipeline changes no variable, function or loop, and has the status of its last command |
| `ConstructLaws.RedirectionIsUndone` | src/eval.c:464-500 | redirections of a compound command are undone however it ends; when they fail the command is not run and their status is that of the command |
| `ConstructLaws.ExpansionErrors` | src/eval.c:316-500 | a word, pattern or redirection that cannot be expanded is an error, and the command is not run |
| `ConstructLaws.SignalBreaksAllLoops` | src/eval.c:1379-1387 | a command killed by a signal in an interactive shell acts as a break out of all loops, and outside loops as nothing |
| `ConstructLaws.BackgroundReturns` | src/eval.c:436-462 | a background command gives 0 at once and runs nothing in the shell itself |
| `EvalFacts.ErrexitCuts` | src/eval.c:203-312 | for every tree, a process under set -e does what it would do if it did not heed the option, cut right after its first untested check that fails with the option on, with that status; if there is none the two runs are equal, otherwise not; the processes it starts heed the option as any other |
| `EvalFacts.ErrexitChangesNothing` | src/eval.c:203-312 | switching the option off for good makes no difference if and only if neither the process nor one that it starts comes to a fatal check |
| `EvalFacts.TestedNeverExits` | src/eval.c:203-312 | in a tested position, without the dot command, set -e never ends the process that runs the tree, whatever pipelines and subshells are in it; it reaches exitshell only through a command that exits |
| `EvalFacts.CutIsUnseen` | src/eval.c:203-312 | a parent sees the same system and exit status if and only if there was no fatal check or the first one found both as they would have been at the end |
| `EvalFacts.SimplePipelineIgnoresErrexit` | src/eval.c:586-644 | in a tested position a pipeline of simple commands, of any length, gives the same with and without set -e |
| `EvalFacts.PipelineForgetsTested` | src/eval.c:586-644 | an input, a group of a and b piped to c in a tested position with a failing a, for which set -e ends the first process before b, and the result differs from that without set -e wherever the effect of b shows |
| `EvalFacts.PipelineRun` | src/eval.c:586-644 | the result of that pipeline, for every outcome of b and c, with the option on and off |
| `EvalFacts.DotForgetsTested` | src/main.c:326-390 | an input for which set -e ends the shell in a tested position, from a file |
| `Redirections.Redirector.OpenRedirect` | src/redir.c:173-254 | with its temporary descriptor and dup2, one redirection connects its descriptor and changes no other, or raises an error and changes none |
| `Redirections.Redirector.SaveDescriptor` | src/redir.c:143-158 | the first time a frame meets a descriptor it keeps a copy at 10 or above, or notes that it was closed |
| `Redirections.Redirector.Redirect` | src/redir.c:105-170 | the loop over the redirections, the frame or the counter, the flags for descriptor 0 and in-memory output; the pop would give back the whole state before if and only if no pipe escapes, and no older frame is spoiled |
| `Redirections.Redirector.PopRedir` | src/redir.c:332-360 | the ten moves and closes in place give the table that undoing the frame defines: descriptors as saved, copies closed, flags and counter as before |
| `Redirections.PopUndoesPush` | src/redir.c:105-170 | at whatever redirection a push fails, its pop restores the whole state, if and only if the redirections do not come to a here-document whose fork fails with a pipe that fits and is not at two descriptors redirected so far |
| `Redirections.SucceedingForksAreTight` | src/redir.c:282-324 | no pipe escapes in a run in which every fork for a here-document succeeds |
| `Redirections.FailedForkLeaksPipe` | src/redir.c:282-324 | an input for which the pop leaves two descriptors open |
| `Redirections.RedirectionsTakeEffect` | src/redir.c:105-254 | without an error, descriptors 0 to 9 end as the redirections read from left to right say |
| `RedirLaws.LastRedirection` | src/redir.c:173-254 | after others, a redirection gives its descriptor the file, what the other descriptor refers to then, nothing, or the text; the other descriptors up to 9 stay; a copy of output to memory goes to memory too |
| `RedirLaws.SucceedIfPossible` | src/redir.c:105-324 | with room for the descriptors they take, redirections succeed exactly if each file opens and each descriptor copied is open for that use |
| `RedirLaws.DescriptorsNeeded` | src/redir.c:172-324 | at the limit on descriptors: a file opens exactly if one descriptor is free for the moment and its own is allowed, a here-document exactly if two are free |
| `RedirLaws.StaysBelowLimit` | src/redir.c:105-324 | no redirection, pushed or not, failed or not, opens a descriptor at or above the limit |
| `RedirLaws.FlagsOfZero` | src/redir.c:105-170 | the two flags tell whether descriptor 0 was redirected, and by a push; a pop restores both |
| `Redirections.RedirectKeepsSound` | src/redir.c:105-170 | no redirection, pushed or not, failed or not, harms a frame still to be popped |
| `Redirections.RunIsPlainRun` | src/redir.c:105-360 | over every run of pushes and pops in which no pipe escapes, failing ones included, frames with saved copies and the counter of empty frames behave as a stack of whole states, one per push |
| `Redirections.BracketedRunRestores` | src/redir.c:105-360 | such a run in which every push is popped changes no descriptor (also none from 10 on), flag or frame |
| `Redirections.RunDepth` | src/redir.c:332-343 | the counter stands for exactly the frames that were not allocated |
| `Pipelines.Shell.EvalPipe` | src/eval.c:599-635 | for every number of commands and every initial table, command i starts with the table promised, whatever descriptors were closed; the parent's table is unchanged at the end and after a failed pipe call, and after a failed fork only if there was no pipe |
| `Pipelines.Shell.Child` | src/eval.c:614-627 | the dup2 and close calls give that table also when a pipe end already lies at 0 or 1 |
| `Pipelines.EachPipeHasOneReaderAndOneWriter` | src/eval.c:599-635 | pipe j's write end is held by command j alone, at 1, and its read end by the next command alone, at 0 |
| `Pipelines.OtherDescriptorsStay` | src/eval.c:599-635 | all descriptors but 0 and 1, and the outer ends of the pipeline, are those of the shell; in the background the first command reads nothing |
| `Pipelines.WiredUnlessInputLost` | src/eval.c:614-627 | a command gets exactly what it was promised unless it is the first of a longer background pipeline and 0 was closed |
| `Pipelines.FirstCommandLosesInput` | src/eval.c:614-627 | with 0 closed, the first of two background commands is promised /dev/null and starts without a descriptor 0 |
| `CommandHash.CommandTable.FindCommand` | src/exec.c:387-535 | the result is that of an uncached function, builtin and PATH search, and no function is lost, whatever the table holds |
| `CommandHash.CommandTable.Session` | src/exec.c:387-765 | over every sequence of finds, function definitions and removals, changes of directory and PATH, and hash commands, all answers are those of a shell without a table |
| `HashLaws.AnswerAtEnd` | src/exec.c:387-765 | after any run of operations a find answers as for the last definition of the name that was not removed, the last PATH and the last directory |
| `HashLaws.OrderOfLookup` | src/exec.c:387-516 | a name with a slash is a file; then a function, a builtin, and the first element of PATH |
| `HashLaws.SearchFindsFirst` | src/exec.c:462-516 | a search finds the first regular file, an empty element being the working directory; otherwise it reports the last trouble, or that there is none |
| `HashLaws.BuiltinIsFirst` | src/exec.c:544-557 | the first row of the builtin table with the name counts |
| `HashLaws.ElementsOfJoined` | src/exec.c:219-257 | elements without colons, joined by colons, come apart again |
| `CommandHash.FitsElsewhere` | src/exec.c:566-571 | while cmdtable_cd is clear, a change of directory leaves every entry right: the one bit suffices |
| `CommandHash.AnchoredSearch` | src/exec.c:464-516 | a search that met absolute names only gives the same answer from every directory |
| `CommandHash.CommandTable.CmdLookup` | src/exec.c:640-664 | finds or appends the entry in its chain and remembers the place |
| `CommandHash.CommandTable.DeleteCmdEntry` | src/exec.c:695-705 | removes the entry looked up last and no other |
| `CommandHash.CommandTable.ClearCmdEntry` | src/exec.c:592-613 | the in-place sweep forgets all programs, keeps functions and builtins, and clears the bit |
| `CommandHash.CommandTable.Padvance` | src/exec.c:219-257 | the next full name and the rest are those of the PATH elements |
| `CommandHash.CommandTable.SearchPath` | src/exec.c:462-516 | finds the first element that holds a regular file or the error to report, and notes relative names |
| `CommandHash.CommandTable.UnsetFunc` | src/exec.c:754-765 | removes a function and nothing else |
| `CommandHash.CommandTable.Defun` | src/exec.c:714-746 | defines a function, whatever entry the name had |
| `CommandHash.CommandTable.Cd` | src/exec.c:566-571 | after a change of directory every entry is right again |
| `CommandHash.CommandTable.HashCmd` | src/exec.c:264-310 | forgets and looks up each name, after clearing the table with -r; fails if and only if one of the names is not found or, with -v, has a slash and so is never in the table |
| `Variables.SetVarEqKeeps` | src/var.c:335-398 | an assignment fails exactly on a readonly variable, sets value and flags, changes no other variable and no saved value, and frees only a text that nothing else refers to |
| `Variables.UnsetVarKeeps` | src/var.c:884-908 | unsetting fails exactly on a readonly variable or a name that setvar rejects, frees a structure only when no record refers to it, and changes no other variable and no saved value |
| `Variables.MkLocalKeeps` | src/var.c:753-788 | making a name local saves what it shows on top of the records, fixes its structure and text in memory, and fails exactly on a readonly assignment or a bad name |
| `Variables.PopOneKeeps` | src/var.c:795-823 | popping a record brings back value and flags of a variable that was set or is one of the shell's own, unsets any other, changes nothing else; it fails if and only if the variable was unset, has a value now and its name is not a name |
| `Variables.BadLocalNameStaysSet` | src/var.c:795-823 | an input for which a pop fails and the variable stays set |
| `Variables.Shell.SetVarEqText` | src/var.c:335-398 | the table, structures and texts after setvareq, with each free call at memory that is allocated |
| `Variables.Shell.UnsetVarNamed` | src/var.c:884-908 | the same for unsetvar |
| `Variables.Shell.MakeLocal` | src/var.c:753-788 | the same for mklocal, with the record linked and `-` saving the options |
| `Variables.Shell.PopLocalVars` | src/var.c:795-823 | all records are popped if and only if none of them, in its turn, is that of a variable that was unset, has a value and is not a name; then every variable shows what it showed before it was first made local and the options are as saved first; after a failure the records behind the failed one are still there, and undoing them gives every proper name its earlier value |
| `Variables.Shell.PopAll` | src/eval.c:1249-1258 | going on after failed pops empties the scope and gives every proper name what it showed before it was first made local |
| `Variables.UndoneIsOldest` | src/var.c:795-823 | however often a name was made local, popping all records gives what it showed before the first time |
| `Variables.Shell.CallFunction` | src/eval.c:1245-1282 | over every function body with nested calls, errors and names of any form: a proper name in the prefix assignments, or one that is made local before anything else touches it, shows after the call what it showed before, and one that is not made local what it showed at the end of the body; what is done in between is the composition of the routines above |
| `VarLaws.AssignmentShows` | src/var.c:335-398 | an assignment is refused for a name that is none and for a readonly variable; otherwise the variable has the value and is exported if it was, if asked for, or under -a; no other variable looks different |
| `VarLaws.UnsetShows` | src/var.c:884-908 | unset takes away value and export mark and is refused for a readonly variable only |
| `VarLaws.MarkShows` | src/var.c:654-690 | export and readonly add their mark and leave the value and the other mark |
| `VarLaws.LocalShows` | src/var.c:753-788 | `local` leaves what the variable shows, or assigns the value given |
| `VarLaws.OptionsOfCall` | src/var.c:753-823 | `local -` restores the options at the end of the call, otherwise they stay as the body sets them |
| `StackAlloc.StackAllocator.StNewBlock` | src/memalloc.c:135-154 | a new block leaves all others, and every live mark, alone |
| `StackAlloc.StackAllocator.StAlloc` | src/memalloc.c:157-169 | memory comes from the current block if it fits, otherwise from a new one; no live mark is harmed |
| `StackAlloc.StackAllocator.StUnalloc` | src/memalloc.c:172-181 | for every aligned address: what lies behind it is given back, and the space left is that of the current block if and only if the address lies in that block; marks below stay good |
| `StackAlloc.ReleaseOfTwoBlocks` | src/memalloc.c:172-181 | an input: two allocations of 400 bytes, released newest first, leave the space left not that of the current block |
| `StackAlloc.OtherBlockIsOutside` | src/memalloc.c:172-181 | an address in an older block is never one of the current block |
| `StackAlloc.StackAllocator.SetStackMark` | src/memalloc.c:197-206 | the new mark is good, older ones stay good and are older |
| `StackAlloc.StackAllocator.PopStackMark` | src/memalloc.c:209-227 | the blocks and the position are exactly those at the mark, and every mark set before it is still good |
| `StackAlloc.StackAllocator.GrowStackBlock` | src/memalloc.c:240-281 | both branches leave room for the string once more and the bytes asked for, keep all bytes of the string, and move no block that a live mark needs; it fails exactly when the size test says so |
| `StackAlloc.StackAllocator.NewLength` | src/memalloc.c:255-259 | doubling reaches the length asked for without exceeding 2^30 |
| `StackAlloc.StackAllocator.CheckStrSpace` | src/memalloc.h:78 | at least n bytes are left behind the unchanged string |
| `StackAlloc.StackAllocator.StPutC` | src/memalloc.h:77 | the string gets one more character, wherever it had to move |
| `StackAlloc.StackAllocator.StackStrNul` | src/memalloc.h:87 | the unchanged string is followed by a NUL |
| `StackAlloc.StackAllocator.GrabStackStr` | src/memalloc.h:91 | the string becomes an allocation without moving |
| `StackAlloc.StackAllocator.Run` | src/memalloc.c:135-281 | over every run of allocations, growing and grabbed strings, releases, marks and pops, newest first: the allocator is sound at the end if and only if every pointer released lay in the block current at its release; up to there all memory under a live mark or allocation stays where it was with its bytes, allocations have the bytes asked for, a grabbed string holds the characters put, each pop restores blocks, position and space left of its mark, and each release goes back to the pointer that the allocation returned; the run stops early only at a release outside the block, a release of a null pointer, or a string too long to double |
| `StackAlloc.HoldsAfterCopy` | src/memalloc.c:240-281 | writing at or above the current position leaves everything under a mark as it was |
| `StackAlloc.DoubledDivides` | src/memalloc.c:255-259 | of two block lengths the smaller is at most half of the larger, so doubling does not step over the largest |

## Left out

- `Eval.Shell.EvalTree`: the semantics takes fuel, so a run that never ends has no result; `EvalFacts.FuelMonotone` shows that the fuel matters for nothing else.
- `Eval.Shell.EvalPipe`: the processes of a pipeline run one after the other on views of the system that a parameter gives and another joins; their interleaving is not modelled. Background commands are one opaque step.
- `EvalFacts.TestedNeverExits`: has the condition that no dot command is in the tree or a function, because it is false for those (`EvalFacts.DotForgetsTested`).
- `EvalFacts.ErrexitCuts`: compares one process at a time, since cutting one process changes what its parent sees; what the parent sees is `EvalFacts.CutIsUnseen`.
- `PatMatch.PatMatch`: patterns that the code reads past their end (`PatMatch.OpenRangeOverruns`) are not covered: what it finds there is not in the pattern.
- `StackAlloc.StackAllocator.GrowStackBlock`: requires the new length to be at most 2^30, beyond which the doubling overflows an int; `StackAlloc.StackAllocator.Run` ends there as too long.
- `Variables.Shell.CallFunction`: a variable whose name is not a name may stay set, see `Variables.BadLocalNameStaysSet`.
- `CommandHash.CommandTable.FindCommand`: only with shmode off, without `%` in PATH and with the current value of PATH; a PATH for one command is bracketed by clearing the table.
- `CommandHash.CommandTable.CmdLookup`: chains are sequences, so the pointer to a link is an index; aliasing of links is not modelled.
- Variables: the hash chains of vartab are a map, variable callbacks, forcelocal and texts on the stack (VSTACK) are left out, and so is what the error handler of a function call repeats after a failed pop, its second release of the function and of the redirections.
- Redirections: close-on-exec flags, interrupts between system calls, and what is written into here-document pipes.
- Signals, traps, job control, terminal handling, aliases, the full shell grammar, here-document parsing, command substitution and prompts.
- Multi-byte locales, collation, tilde expansion and pathname generation.
- Parsing of mode strings by setmode beyond the clauses added to the command buffer.
