# Verified models of the audit log, the session recorder and the other stateful cores

A Dafny 4.11 model of the parts of the repository whose behaviour is not visible in
any single function: the audit log's argument sanitiser and its writer thread, the
recording and replay of commands, the two edit distances, the chat client's line
framer, the benchmark allocator's peak counter, the linter's Rust scanner and the
nested resource guards. Each loop and each object that the programs update in place
is a method or a class, proved equal to a function; the properties are proved of
those functions, for all inputs, all runs and all interleavings.

`dafny verify dfyconfig.toml` checks everything.

## What is modelled

**The sanitiser** (`Json`, `JsonReading`, `StructPaths`, `Sanitizer`, `SanitizerBound`,
`Redaction`, `KeptKeys`, `Shows`, `Costs`, `DeclaredFirst`, `Utf8`, `StableSort`). JSON
trees, the text serde_json writes for them, and the recursive cut under a byte budget.
Text is UTF-8, one character below 256 for each byte. `SanitizeValue`, `SanitizeArray`
and `SanitizeObject` loop and charge the budget as the program does; the functions they
equal carry the proofs: what an entry may show, told from the arguments and the entry
alone; the size bound with its overshoot, noninterference of redacted values at any
depth, the prefix of keys kept, exact counts, and the order of declared parameters.
Objects keep their keys in map order, as with serde_json's `preserve_order`.

**The writer** (`AuditWriter`, `AuditRuns`, `AuditRotation`, `AuditReading`,
`AuditRecovery`, `AuditPlaces`, `AuditQueue`). A file system of names and inodes, a
class `Writer` over it, and runs in which any stat, create, remove, rename, flush or
entry write may fail and an operator may remove or move away the log or a numbered file
between two calls. The outcome of every fallible step, and how many buffered lines a
write lets through, are parameters, so the proofs hold for every buffer capacity and
every failure. `AuditRecovery` and `AuditPlaces` are about what an operator takes away,
what goes on without it, and where each line is when it is written out. `AuditQueue`
interleaves the callers, the writer's steps and the operator, on top of the same writer;
what was refused, what the files held when they went, and what each flush found and left
are kept beside its state.

**Edit distance** (`EditDistance`, `Suggestions`). Both two-row programs over swapped
arrays, edit scripts, and the suggestion lists built on the distance. Lower-casing is a
parameter.

**Record and replay** (`Shell`, `CommandLine`). The quoting of arguments for a display
line and for an exported script, a reader that follows sections 2.2.1 to 2.2.3, 2.3,
2.6.2 and 2.6.7 of the POSIX.1-2017 Shell Command Language and bash's `$'...'`, the
extraction of the recorded arguments, and the session that records them.

**The rest.** `LineFramer` (chunks to lines to events), `HeapPeak` (three atomic
counters and a compare-exchange loop, any number of threads; when the peak is exact),
`RustScanner`, `RustPieces`, `RustRescan` and `TestBodies` (comments and literals told
from the characters and blanked in place, test functions found in what is left),
`Budgets` (thread cells put back by guards on a stack that returns and panics unwind;
they behave as lexical scope).

## Where the code differs from its documentation

- The sanitiser's documentation says that declared SQL text is kept. That holds for every
  schema that does not declare `query` and `pattern` together
  (`DeclaredFirst.QueryAloneIsRecorded`), and none of the server's requests does: `query` is
  in `requests/database.rs` and `requests/search.rs`, `pattern` in `requests/munging.rs`. A
  schema with both could lose the text to a `pattern` given as a large object or array
  (`DeclaredFirst.QueryCanBeDropped`); `DeclaredFirst.QueryIsRecordedIff` gives the exact
  condition.
- A key `""` at the top of the arguments ends the tracking of struct paths there
  (`StructPaths.EmptyKeyHides`); `StructPaths.ExactEverywhere` says for which struct
  lists the tracking is exact all the same, and below any other key it always is.
- A flush of the audit log should resolve once every entry queued before it is written to
  the file at the log's path. It resolves as well after one of them was refused, after the
  flush failed, and after a flush that found the log gone and could not look at the path or
  make a file there (`AuditQueue.AnsweredThoughNotWritten` has a run for each).
  `AuditQueue.AnsweredMeansWrittenIff` gives the exact condition: none of these, and no line
  written to a file that was gone, which `AuditRecovery.ArrivesLateIff` reduces to what
  fails in a step.
- With `keep` 0 a rotation that cannot make the new file goes on writing to the one it has
  just removed; an entry let through then is lost (`AuditRecovery.LineCanArriveLate`,
  `AuditRecovery.NewLineIsLostIff`). The comment on rotation speaks of buffered entries only.
- The library's suggestions leave out a name that differs in case only and the command
  line's do not (`Suggestions.ProgramsAgreeIff`).

## Model

| member | source | states |
|---|---|---|
| Json.JsonStringLenIsExact | crates/p2a-mcp/src/audit.rs:940-952 | the byte count of a JSON string, taken without writing it, is the length of the text serde_json writes |
| JsonReading.TextReadsBack | crates/p2a-mcp/src/audit.rs:940-952 | the text written for a value, which the bound is about, reads back as that value and nothing more |
| Utf8.EncodedIsOneCharacter | crates/p2a-mcp/src/audit.rs:954-965 | the bytes of every Unicode scalar value are one character of the syntax that cuts respect |
| Utf8.OneCharacterIsEncoded | crates/p2a-mcp/src/audit.rs:954-965 | and every such character is the bytes of one |
| Sanitizer.FloorCharBoundary | crates/p2a-mcp/src/audit.rs:954-965 | the loop returns the largest character boundary at or below the limit |
| Sanitizer.CutTextIsUtf8 | crates/p2a-mcp/src/audit.rs:930-965 | a cut string is still well-formed UTF-8, starts with the original and gives up at most three bytes to the boundary |
| Sanitizer.SanitizeValue | crates/p2a-mcp/src/audit.rs:785-814 | the recursion over a value returns the specified value and leaves the specified budget |
| Sanitizer.SanitizeArray | crates/p2a-mcp/src/audit.rs:792-811 | the element loop, with its break, cap and marker, equals the recursive specification |
| Sanitizer.SanitizeObject | crates/p2a-mcp/src/audit.rs:826-885 | the key loop, with skipped keys, cap, break and marker, equals the recursive specification |
| Sanitizer.TakeEntry | crates/p2a-mcp/src/audit.rs:850-877 | one turn of the key loop: skip, stop, or keep with the budget left; nothing is charged unless key and value fit |
| Sanitizer.SanitizeArguments | crates/p2a-mcp/src/audit.rs:731-745 | the top level: objects sanitised, null kept, anything else replaced by its size |
| Shows.RecordedArgumentsShow | crates/p2a-mcp/src/audit.rs:695-745 | an entry shows its arguments and nothing else, whatever they are: told from the two alone, in the terms of the documentation, constants and marker texts included |
| Shows.TakenValueShows | crates/p2a-mcp/src/audit.rs:785-817 | so does every value taken at any level: single values unchanged, strings cut, structs and hidden keys by size, members of arrays and objects with the count of the others |
| SanitizerBound.ValueIsPaid | crates/p2a-mcp/src/audit.rs:785-814 | what a value charges covers its rendered text and a separator unless the budget ends at 0; what does not fit charges nothing; nothing fits in an empty budget |
| SanitizerBound.ObjectIsPaid | crates/p2a-mcp/src/audit.rs:826-885 | the same for an object, its marker overshooting at most once for each open level |
| SanitizerBound.SanitizedArgumentsAreBounded | crates/p2a-mcp/src/audit.rs:96-99 | whatever the arguments, their recorded text is under 16384 bytes and four markers of at most 41 bytes; an object is recorded as an object |
| Redaction.RedactedValuesDoNotShow | crates/p2a-mcp/src/audit.rs:62-79 | arguments that agree on everything an entry may show are recorded alike: keys, order, caps, markers and values |
| Redaction.AlikeValues | crates/p2a-mcp/src/audit.rs:787-814 | alike values give the same result and leave the same budget, at every level |
| Redaction.HiddenValuesDoNotShow | crates/p2a-mcp/src/audit.rs:712-730 | replacing a value at any depth, under a redacted key with the same stand-in or an array of equal length at a declared struct path, leaves the entry unchanged; only for struct paths must an empty key at the top be one that does not hide them |
| Redaction.StandInsAgreeIff | crates/p2a-mcp/src/audit.rs:921-928 | a stand-in shows exactly whether the value is a string or an array and its size |
| StructPaths.ExactBelowANamedKey | crates/p2a-mcp/src/audit.rs:747-783 | the pruned path decides as the whole rule path does at every value whose first key is not empty |
| StructPaths.RulePathIs | crates/p2a-mcp/src/audit.rs:751-783 | a rule path joins keys by dots and writes `[]` for an array |
| StructPaths.ExactEverywhere | crates/p2a-mcp/src/audit.rs:758-783 | it is exact at all values, empty keys included, if and only if there are no struct paths or one of them continues the root |
| StructPaths.EmptyKeyHides | crates/p2a-mcp/src/audit.rs:758-783 | otherwise one empty key at the top hides any declared struct below it |
| KeptKeys.ObjectKeepsAPrefix | crates/p2a-mcp/src/audit.rs:837-885 | an object keeps a prefix of the taking order without colliding and marker-like keys, each value its own key's; kept and counted keys add up to the map; the marker replaces nothing |
| KeptKeys.NothingElseIsDropped | crates/p2a-mcp/src/audit.rs:854-859 | within the prefix a key is left out only for a name already kept or spelled like the marker |
| KeptKeys.KeptFitsTheMap | crates/p2a-mcp/src/audit.rs:879 | never more names are kept than the map has keys, so the count of the rest cannot underflow |
| KeptKeys.ArrayKeepsAPrefix | crates/p2a-mcp/src/audit.rs:798-810 | an array keeps the images of at most 20 first elements and counts exactly the rest |
| DeclaredFirst.HeadHoldsTheDeclared | crates/p2a-mcp/src/audit.rs:836-844 | the declared keys present, and only they, head the order, sorted by rank and name |
| DeclaredFirst.LexLeIs | crates/p2a-mcp/src/audit.rs:840-844 | names are ordered by their first byte that differs, a prefix first |
| DeclaredFirst.OthersKeepTheirOrder | crates/p2a-mcp/src/audit.rs:836-850 | the keys not declared follow in the order of the map |
| DeclaredFirst.BulkyKeysComeLast | crates/p2a-mcp/src/audit.rs:887-899 | declared objects and arrays come after declared single values; nothing but `pattern` comes before `query` |
| DeclaredFirst.UndeclaredKeysComeLast | crates/p2a-mcp/src/audit.rs:700-707 | when the recorded arguments hold a name of no declared parameter, they hold every declared parameter given, under its cut name |
| DeclaredFirst.PatternStringsAreRecorded | crates/p2a-mcp/src/audit.rs:81-86 | a declared `pattern` string is always recorded |
| DeclaredFirst.QueryStringsAreRecorded | crates/p2a-mcp/src/audit.rs:81-86 | a declared `query` string is always recorded when no declared `pattern` is an object or array |
| Costs.CostIsCharged | crates/p2a-mcp/src/audit.rs:785-885 | a value whose cost, a sum over the value as given, is within the budget is recorded and charged exactly that |
| DeclaredFirst.QueryIsRecordedIff | crates/p2a-mcp/src/audit.rs:852-877 | a declared `query` string is recorded if and only if it fits beside the cost of `pattern`, or, when that cost is over the whole budget, in what the recorded part of `pattern` left |
| DeclaredFirst.QueryFitsBesideSmallPattern | crates/p2a-mcp/src/audit.rs:852-877 | beside a `pattern` that costs at most 14872 bytes every `query` string is recorded |
| DeclaredFirst.QueryAloneIsRecorded | crates/p2a-mcp/src/audit.rs:705-710 | where no `pattern` is declared, a declared `query` string is always recorded |
| DeclaredFirst.QueryCanBeDropped | crates/p2a-mcp/src/audit.rs:705-710 | a call, for a schema that declares both names, whose `query` string is not recorded |
| AuditWriter.Writer.constructor | crates/p2a-mcp/src/audit.rs:324-333 | a writer starts with an empty buffer and the length of the file it opened |
| AuditWriter.Writer.WriteEntry | crates/p2a-mcp/src/audit.rs:456-477 | one entry: reopen if removed, rotate when due, write; the whole new state |
| AuditWriter.Writer.Flush | crates/p2a-mcp/src/audit.rs:479-487 | a flush, at the path again when the file is gone; the whole new state |
| AuditWriter.Writer.FlushBuffer | crates/p2a-mcp/src/audit.rs:489-494 | the buffer goes to the file at hand, a failure keeps the rest and is counted |
| AuditWriter.Writer.ReopenIfRemoved | crates/p2a-mcp/src/audit.rs:502-511 | a new file is made only when nothing is at the path |
| AuditWriter.Writer.Reopen | crates/p2a-mcp/src/audit.rs:522-542 | the new file takes over the buffered entries and the size count, or the failure restarts the count |
| AuditWriter.Writer.Rotate | crates/p2a-mcp/src/audit.rs:554-596 | a rotation with every failing step; the whole new state |
| AuditWriter.Writer.ShiftNumbered | crates/p2a-mcp/src/audit.rs:576-585 | the loop that renames the numbered files, failures counted |
| AuditRecovery.NothingIsLostOnTheWay | crates/p2a-mcp/src/audit.rs:456-596 | over every run the inodes in creation order and the buffer hold exactly the entries taken in, in order; files only grow; every inode is named, moved away, removed or evicted, the last three for good; and a file that is gone takes no line while the looks at the path work |
| AuditRuns.RotateFollows | crates/p2a-mcp/src/audit.rs:554-596 | a rotation with any failures keeps all of that |
| AuditRotation.CalmRotation | crates/p2a-mcp/src/audit.rs:544-553 | without errors the current file becomes `.1`, `.k` becomes `.k+1`, only `.keep` is evicted, and the new file is empty |
| AuditRotation.CalmRunsKeepSizes | crates/p2a-mcp/src/audit.rs:465-477 | over every run without IO errors, operator included, the size count is exact, every file made is within the limit or holds one entry, and only the oldest files were evicted |
| AuditRotation.WriteRotatesIffFull | crates/p2a-mcp/src/audit.rs:467-472 | a write starts a new file exactly when the current one holds something and would pass the limit |
| AuditRotation.FailedRotationWaits | crates/p2a-mcp/src/audit.rs:544-553 | a rotation that made no file, whatever failed, is not due again before another `max_bytes` were taken in |
| AuditRotation.NumberedNames | crates/p2a-mcp/src/audit.rs:571-585 | whichever removals and renames fail, every numbered name leads where it should |
| AuditRotation.StepsCountErrors | crates/p2a-mcp/src/audit.rs:598-601 | every call counts exactly its failing steps |
| AuditReading.LogIsTheEndOfEverything | crates/p2a-mcp/src/audit.rs:544-596 | without errors and outside changes the log read from `.keep` to the buffer is the end of everything logged, all of it up to `keep` rotations |
| AuditReading.NewLogIsCalm | crates/p2a-mcp/src/audit.rs:324-333 | a writer on a new log is where the results about undisturbed runs start |
| AuditReading.FoundLogIsCalm | crates/p2a-mcp/src/audit.rs:324-333 | a writer on a log it found is where the results about sizes start |
| AuditRecovery.LogIsEverythingButWholeFiles | crates/p2a-mcp/src/audit.rs:456-596 | after any run the log is everything logged, in order, without the files that were removed, moved away or evicted, which end with the lines they had when they went |
| AuditRecovery.OnlyWhatReachedAGoneFileIsLost | crates/p2a-mcp/src/audit.rs:496-596 | over every run with any failures: between steps and in the middle of each, files that are gone keep exactly the lines they had when they went, if and only if no line arrives late |
| AuditRecovery.ArrivesLateIff | crates/p2a-mcp/src/audit.rs:456-596 | a step sends lines to a file that is gone exactly when the log was gone and neither the check nor a rotation made a file, or `keep` is 0 and the rotation removed the log and could make no file, and lines are let through |
| AuditRecovery.NewLineIsLostIff | crates/p2a-mcp/src/audit.rs:456-477 | the entry of a write ends in a file that is gone exactly when the file at hand is gone by then and it is let through behind what is ahead of it |
| AuditRecovery.RotationEvictsWhatWasWritten | crates/p2a-mcp/src/audit.rs:554-596 | a rotation writes the buffer out before it touches a name, and sends nothing to an evicted file |
| AuditRecovery.KeepingOneIsEnough | crates/p2a-mcp/src/audit.rs:544-553 | with `keep` at least 1 no line arrives late in a step whose look at the path works |
| AuditRecovery.LineCanArriveLate | crates/p2a-mcp/src/audit.rs:571-594 | a run with `keep` 0 in which every look at the path works and an entry is written to the file just removed |
| AuditRecovery.GoneFilesGrowOnlyUnseen | crates/p2a-mcp/src/audit.rs:496-542 | with failures a file that is gone grows only in a step whose look at the path, or making a file there, failed, and only if it is the one at hand |
| AuditRecovery.BufferedLinesGoOn | crates/p2a-mcp/src/audit.rs:513-542 | once the log is gone, the lines still buffered and those taken in later are exactly what the files made since and the buffer hold, in order, over any such run |
| AuditRecovery.BufferedLinesComeFirst | crates/p2a-mcp/src/audit.rs:513-542 | without further disturbance the lines buffered when the log went are the first of the next file, in order, whatever follows |
| AuditRecovery.WrittenLineIsAtThePath | crates/p2a-mcp/src/audit.rs:456-477 | an entry taken in is the last of the file at the path and the buffer bound for it, unless the log was gone and the check failed, or a rotation could make no file |
| AuditReading.RotationKeepsTheCurrentFile | crates/p2a-mcp/src/audit.rs:544-553 | with `keep` at least 1 no failing step of a rotation loses the current file or the place its buffered entries go to |
| AuditReading.ReopenLeavesTheOthers | crates/p2a-mcp/src/audit.rs:513-542 | reopening touches no numbered file; the buffered entries are the new file's first, in order |
| AuditReading.FlushReachesThePath | crates/p2a-mcp/src/audit.rs:479-487 | a flush without errors leaves the buffered entries in the file at the path |
| AuditPlaces.WentStep | crates/p2a-mcp/src/audit.rs:456-596 | every step keeps the record of what each file held when it went: files that are gone only grow, and exactly when a line arrives late |
| AuditPlaces.FlushReachesThePathIff | crates/p2a-mcp/src/audit.rs:479-494 | a flush that writes everything out does so to the file at the path, unless it found nothing there and failed to look or to make a file |
| AuditQueue.AnsweredMeansWrittenIff | crates/p2a-mcp/src/audit.rs:370-379 | in every interleaving with any failures and removals: an answer means that every entry queued before it is in the files, in queue order, in a file still in place when it reached it, and the lines then due in the file at the path, if and only if none was refused, none arrived late, and the flush neither failed nor missed the path |
| AuditQueue.CalmAnswersKeepTheirPromise | crates/p2a-mcp/src/audit.rs:370-379 | where the file system fails nothing, every answer means what it promises, in every interleaving with an operator |
| AuditQueue.AnswersAreFinal | crates/p2a-mcp/src/audit.rs:448-452 | no later step, error or removal changes what an answer stood for |
| AuditQueue.RunsCount | crates/p2a-mcp/src/audit.rs:359-379 | in every run the writer sees exactly what was sent, and the handles the callers hold |
| AuditQueue.WriterOutlivesTheHandles | crates/p2a-mcp/src/audit.rs:429-440 | the thread stops only when clones and drops leave no handle out; until then a caller can send exactly while the queue has room |
| AuditQueue.NothingPendingAtRest | crates/p2a-mcp/src/audit.rs:429-440 | the thread ends only with no handle left, and ends or waits only with the queue drained and every flush answered; then all entries are in the files if and only if none was refused and the latest flush did not fail, and each reached a file still in place if and only if none arrived late |
| AuditQueue.EveryFlushIsAnswered | crates/p2a-mcp/src/audit.rs:431-454 | from every reachable state the writer alone drains the queue and answers every flush, and ends exactly when no handle is out |
| AuditQueue.RunsKeepTheInvariant | crates/p2a-mcp/src/audit.rs:431-454 | every interleaving of callers, writer and operator keeps queue, answers and log in step |
| AuditQueue.AnsweredThoughNotWritten | crates/p2a-mcp/src/audit.rs:448-452 | four runs in which a flush is answered and no file of the log holds the entry before it: the entry refused, the flush failed, and a removed log whose look at the path or new file failed |
| EditDistance.LibraryDistance | crates/p2a-core/src/errors.rs:17-52 | the index loops compute the fewest edits that turn one string into the other |
| EditDistance.CommandLineDistance | crates/p2a-cli/src/output.rs:649-677 | so do the iterator loops, hence the two agree on every pair |
| EditDistance.DistanceIsFewestEdits | crates/p2a-core/src/errors.rs:13-16 | the distance is the length of a shortest edit script: one has it and none is shorter |
| EditDistance.DistanceIsSymmetric | crates/p2a-core/src/errors.rs:13-16 | the distance is symmetric |
| EditDistance.ZeroOnlyOnEqual | crates/p2a-core/src/errors.rs:80-81 | it is zero exactly on equal strings, which is what the library's filter relies on |
| EditDistance.TriangleInequality | crates/p2a-core/src/errors.rs:13-16 | it satisfies the triangle inequality |
| Suggestions.ClosestNamesComeFirst | crates/p2a-core/src/errors.rs:72-92 | the suggestions are in range, closest first, no closer name is left out, and none is left out before the limit |
| Suggestions.LibrarySuggestions | crates/p2a-core/src/errors.rs:72-92 | the library's list, with its lower bound of one edit and the caller's limits: in range, closest first, none closer left out, as many as there are up to the limit |
| Suggestions.InRangeConcat | crates/p2a-core/src/errors.rs:76-83 | every candidate is scored, repeated ones too, in the order given |
| Suggestions.TiesKeepTheirOrder | crates/p2a-core/src/errors.rs:84-85 | names at one distance come in the order given |
| Suggestions.ProgramsAgreeIff | crates/p2a-cli/src/output.rs:633-646 | the command line and the library suggest the same names if and only if none is wanted or none equals the target in lower case |
| Shell.ShellQuote | crates/p2a-cli/src/output.rs:27-45 | the loop produces the specified quoting |
| Shell.ScriptQuote | crates/p2a-cli/src/commands/script.rs:184-211 | the loop produces the specified ANSI-C quoting |
| Shell.ShellJoinReadsBack | crates/p2a-cli/src/output.rs:47-53 | a shell reads the joined line back as exactly the arguments, and refuses it exactly when one holds a NUL |
| Shell.ScriptJoinReadsBack | crates/p2a-cli/src/commands/script.rs:213-219 | so does bash with an exported command, control characters included |
| Shell.ScriptCommandIsOneLine | crates/p2a-cli/src/commands/script.rs:177-183 | an exported command holds no control character, so it stays on its line |
| Shell.AllBytesAreInjective | crates/p2a-cli/src/commands/script.rs:200-206 | the bytes of the words determine the arguments |
| CommandLine.WidthIsAForm | crates/p2a-cli/src/main.rs:141-166 | a token counted as a global flag is a documented form of one, with that width |
| CommandLine.FormIsRecognised | crates/p2a-cli/src/main.rs:141-166 | every documented form of a global flag is recognised with its width |
| CommandLine.GlobalTokens | crates/p2a-cli/src/main.rs:130-166 | the global flags and their widths, letter by letter |
| CommandLine.ExtractCommandArgv | crates/p2a-cli/src/main.rs:192-216 | the two loops compute the specified extraction |
| CommandLine.LeadingGlobalsAreLeftOut | crates/p2a-cli/src/main.rs:173-176 | all globals before the command go, with their values, and nothing else |
| CommandLine.OnlySessionIsLeftOut | crates/p2a-cli/src/main.rs:176-180 | after it only `--session` and its value go, in both forms, up to a `--`, after which all is kept |
| CommandLine.ReplayRecordsTheSame | crates/p2a-cli/src/main.rs:170-216 | running the recorded arguments under any session records them again; they are a subsequence of the input without a `--session` |
| Shell.ScriptLineReadsBack | crates/p2a-cli/src/commands/script.rs:134-143 | the whole exported line, its session variable in double quotes included, reads back as the program, the option, the variable and the arguments |
| CommandLine.ExportedScriptReplays | crates/p2a-cli/src/commands/script.rs:134-143 | with the variable's value in, the whole exported line can only be the program, the session option and the recorded arguments, and its replay records them again |
| CommandLine.SessionManager.RecordInvocation | crates/p2a-cli/src/session.rs:244-276 | one record is added: the arguments, their quoted line, the category, the first token that is no global, the outcome and its error, and the time since the start; nothing for empty arguments |
| CommandLine.RecordReadsBack | crates/p2a-cli/src/session.rs:235-258 | the recorded line reads back to the recorded arguments; category and subcommand are no globals |
| LineFramer.StreamChat | crates/p2a-chat/src/lib.rs:834-871 | the events rendered and the final message depend on the bytes received, not on the chunks; a failed chunk ends the stream after its whole lines |
| LineFramer.StreamLinesAre | crates/p2a-chat/src/lib.rs:845-869 | the lines handed on are the terminated ones, each without one carriage return at its end, and the rest as it is when not empty |
| LineFramer.EventsConcat | crates/p2a-chat/src/lib.rs:852-857 | each line is parsed once, in order |
| LineFramer.LastDoneIs | crates/p2a-chat/src/lib.rs:853-871 | the final message is that of the last `Done` event, missing only when there is none |
| LineFramer.ReceivedIsAll | crates/p2a-chat/src/lib.rs:836-841 | all bytes count, in order, up to the first failure |
| LineFramer.SplittingIsLossless | crates/p2a-chat/src/lib.rs:845-851 | the lines and the rest make up the bytes |
| LineFramer.SplittingIsUnique | crates/p2a-chat/src/lib.rs:845-851 | no other lines without newlines and rest do |
| LineFramer.LinesAreUtf8 | crates/p2a-chat/src/lib.rs:841-851 | when the stream is UTF-8 every line is: no line cuts a character |
| HeapPeak.CountersAreWhatHappened | crates/p2a-core/benches/bench_utils.rs:226-262 | in every interleaving the counters are the sums of the sizes whose `fetch_add` has run, told from the calls and steps |
| HeapPeak.PeakIsTheLargestLive | crates/p2a-core/benches/bench_utils.rs:232-253 | the peak never falls and is exactly the largest live size that a finished allocation saw |
| HeapPeak.PeakBounds | crates/p2a-core/benches/bench_utils.rs:232-277 | it is at least the live size every finished allocation saw and at most the most ever allocated less freed |
| HeapPeak.OneThreadIsExact | crates/p2a-core/benches/bench_utils.rs:232-277 | with one thread it is the most ever allocated less freed |
| HeapPeak.LoopEndsUndisturbed | crates/p2a-core/benches/bench_utils.rs:240-251 | left alone, the compare-exchange loop ends in two rounds with the larger of the two |
| HeapPeak.ExactForAllRunsIff | crates/p2a-core/benches/bench_utils.rs:226-277 | the peak found with all threads outside the allocator is the true maximum in every run if and only if there is at most one thread |
| HeapPeak.PeakIsExactIff | crates/p2a-core/benches/bench_utils.rs:232-253 | in one run it is, exactly when some allocation that returned saw the true maximum |
| HeapPeak.TwoThreadsCanMissIt | crates/p2a-core/benches/bench_utils.rs:235-238 | any two threads have a run in which it is below the true maximum |
| RustScanner.ScanRust | validation/tools/validation_status.py:649-714 | the loop ends on every text; each output is the text with the segments that concern it blanked, place by place, and the spans are those of the line comments |
| RustScanner.BlockCommentEnd | validation/tools/validation_status.py:673-684 | the depth loop finds the end of a nested comment |
| RustPieces.ScanFindsEveryPiece | validation/tools/validation_status.py:634-714 | told from the characters alone: the segments are comments, raw strings, strings, characters and lifetimes, each ending where it should, and nothing of these begins outside them |
| RustRescan.ScanKeepsOffsets | validation/tools/validation_status.py:649-652 | both outputs keep length and newlines; changes are spaces; `keep` changes only in comments, where `code` agrees |
| RustRescan.CommentSpansAreBlank | validation/tools/validation_status.py:665-672 | the reported spans are whole line comments, in order and apart, blank in both outputs |
| RustRescan.CommentEndsWhereMarksBalance | validation/tools/validation_status.py:673-684 | a block comment, whatever it holds, is one segment, and its end is the only place where its marks, read from left to right without overlap, balance for the first time, or the end of the text |
| RustRescan.TextEndsAtItsQuote | validation/tools/validation_status.py:637 | a string ends at the first quote that no backslash escapes |
| RustRescan.ScanningAgainChangesNothing | validation/tools/validation_status.py:649-714 | the text without its comments scans to the same literals and no comment |
| TestBodies.TestFunctions | validation/tools/validation_status.py:717-734 | the loop over the matches returns the specified tests of the scanned code |
| TestBodies.BodyEnd | validation/tools/validation_status.py:726-731 | the loop over the braces returns the specified end |
| TestBodies.BodyIsUnique | validation/tools/validation_status.py:726-731 | that end is the only place where every brace opened is closed for the first time, or the end of the code |
| TestBodies.TestHasABody | validation/tools/validation_status.py:722-725 | a match is reported if and only if a block opens before the next semicolon, and with the first such block |
| TestBodies.TestsAreTheMatchesWithBlocks | validation/tools/validation_status.py:717-734 | exactly the matches with a block before the next semicolon are reported, in their order, each with its name, line and body |
| TestBodies.NewlinesAreCounted | validation/tools/validation_status.py:732 | the line number counts the newlines before the match |
| TestBodies.BodiesNestOrStandApart | validation/tools/validation_status.py:717-734 | two reported bodies are the same, nested or apart |
| TestBodies.PlainBracesCount | validation/tools/validation_status.py:719-731 | the braces counted are those of the text outside comments and literals |
| TestBodies.LinesAreTheTexts | validation/tools/validation_status.py:732 | the line reported is the match's line in the text |
| Budgets.Thread.Execute | crates/p2a-core/src/resource.rs:94-103 | for every program of nested guards, checks, cancellations and panics, unwinding the stack of guards leaves the cells as they began, and every check is asked of the guard that encloses it |
| Budgets.ProgramsDoWhatTheySay | crates/p2a-core/src/resource.rs:206-302 | every program does what it says, in order; a budget check fails exactly when its token was cancelled before or its deadline has come, an allocation check exactly beyond the innermost override or else the process-wide limit set last |
| Budgets.ExpiredStaysExpired | crates/p2a-core/src/resource.rs:243-262 | once a token is cancelled or a deadline has come, every later check of a budget with it fails |
| Budgets.StrideBoundsTheWork | crates/p2a-core/src/resource.rs:304-309 | between two checks a loop does at most 65536 operations, or one iteration |

## Left out

- The failing write of the moved buffer in `reopen` (audit.rs:532-535): it needs a buffer as large as its capacity and a disk error at once; entries are lost then.
- Writes cut inside a line, by a full disk or a killed process: a line is the smallest thing written.
- Anything appearing at the log's path between two of the writer's calls, a symlink included; the model's operator only removes and moves files.
- Saturation of the 64-bit byte counters of the writer and wrap-around of the allocator's counters: sizes are unbounded here.
- SanitizedArgumentsAreBounded: takes every string, array and object to be of a size a 64-bit `usize` can count, as memory guarantees; the markers' digits depend on it.
- Serde_json's sorted map, in builds without `preserve_order`: the output of the model keeps insertion order; lengths, counts and choices are the same.
- Relaxed memory order in the peak counter: steps interleave on one memory, so loads never return stale values.
- Reading a line with operators, comments or any expansion but the session variable in double quotes: the shell reader refuses what an exported line never holds.
- Lossy decoding, trimming and JSON parsing of a stream line: one function parameter stands for them.
- The regular expression that finds `fn test_*`, for which a function parameter stands; the linter's Markdown checks and the registry.
- Identifiers, timestamps and dataset registration of sessions; serialisation of audit entries other than their arguments; parsing of the rotation policy.
- Econometrics, machine learning, HTTP, user interfaces and the foreign libraries.
