# Hive command-line driver: statement processing

This project models the statement-processing core of the Hive command-line
driver, `CliDriver` in the `hive-cdh` CLI, and proves properties of it. The
model covers these parts:

- **`processLine`.** A line is split on `;` as Java's `String.split` does.
  A fragment ending in `\` is glued to the next one. Blank commands are skipped.
  The first nonzero code stops the line unless `hive.cli.errors.ignore` is on;
  the setting is read again after every command.
- **`processCmd`.** Each statement is classified as `quit`/`exit`, `source`,
  `!` shell, `list`, remote or local.
  - The `list` usage error and the in-place filter copy are modelled.
  - Remote mode fetches pages of 40 lines and maps the server's errors to codes.
  - The return-code logic of `processCmdInLocal` is modelled.
  - The sample rewrite builds its string query and table names for one key line.
- **`santizeTableName`.**
- **`processReader`** and **`processInitFiles`.** The init-file ordering. The
  session's `silent` flag is modelled as a class field.
- **The interactive read loop of `main`.** Lines are gathered into units, and the
  prompts are built.
- **The completion word list.** The delimiter test and the in-place fix of a
  unique completion.

Everything the driver calls out to is a parameter of the model and is never
looked into. The model proves each operation against a function that specifies
it, and it proves the driver's promises as lemmas about those functions. The
oracles are:

- the engine (`Driver`);
- the Hive server's Thrift client;
- the shell;
- the file system;
- the resource catalog;
- `processCmd` as seen from `processLine`;
- the console's lines.

Modules, following the program's structure:

| module | file | covers |
|---|---|---|
| `Core` | `core.dfy` | `Option`; `Outcome`, which is a returned code or `System.exit`; `Response`, which is the outcome plus the lines printed on `out` and `err` |
| `JavaText` | `java_text.dfy` | Java string operations with their own edge cases: `String.trim`, `split` on a character with trailing empty strings dropped, `split("\\s+")`, ASCII `toLowerCase`, `StringUtils.chop`, `StringUtils.isBlank`, `String.replace`, joining |
| `Splitter` | `splitter.dfy` | `processLine` and its error policy |
| `Classifier` | `classifier.dfy` | the classification in `processCmd`, and the `source`, `!` and `list` branches |
| `RemoteMode` | `remote.dfy` | the remote branch: `execute`, the fetch loop, error mapping, `clean` |
| `LocalMode` | `local.dfy` | `processCmdInLocal` |
| `Commands` | `commands.dfy` | `processCmd` as a whole |
| `Sampling` | `sampling.dfy` | `santizeTableName` and the key-line part of the `bias on` rewrite |
| `Interactive` | `interactive.dfy` | the prompts and the read loop of `main` |
| `Completion` | `completion.dfy` | `getCommandCompletor` |
| `InitFiles` | `init_files.dfy` | `processReader`, `processInitFiles` |

## Where the code decides

The model follows the code, including where its behaviour is easy to misread:

- **`source <file>`.** The branch runs the script but ignores its code. The
  statement answers 0 unless the file is missing or reading it throws
  (`Classifier.SourceSpec`). A script that exits ends the process.
- **`a\;;`.** Java's `split(";")` drops the trailing empty fragment, so the
  glued command `a;` is never completed and nothing is dispatched
  (`Splitter.EscapedThenTerminatorDispatchesNothing`).
- **The `list` filter.** The filter is the token array shifted left by two in
  place, so its last two entries are left over from the original array:
  `list jar x` filters on `[x, jar, x]` (`Classifier.ListOneValueFilter`).
- **The sampling side file.** It is closed at the end of the first batch of
  results. With sampling on and execution flag 9, a later nonempty batch makes
  the write throw `Stream closed`, and the code is then 1
  (`LocalMode.LateRowsFail`).
- **`hive.cli.errors.ignore`.** `processLine` reads the setting after each
  command, from the session's configuration, which a `set` may change. In
  `set hive.cli.errors.ignore=true; select * from missing; select 1;` the
  failing query no longer ends the line (`Splitter.IgnoreErrorsRunsAll`,
  `Splitter.SettingReadOnlyAfterFailure`).
- **Trimming.** The remote branch sends the statement trimmed. The local branch
  and its `bias on` test use it as typed.
- **A statement with no command processor.** It answers 0.
- **`processInitFiles`.** When it exits or an exception escapes, it leaves the
  session silent.
- **The interactive loop.** It puts a newline before a line only when text is
  already kept. An empty line typed first is therefore lost from the unit
  (`Interactive.UnitsFromStart`).

## Model

| member | source | states |
|---|---|---|
| JavaText.Trim | hive-cdh/src/cli/src/java/org/apache/hadoop/hive/cli/CliDriver.java:93 | the trimmed text starts and ends with a character above U+0020, or is empty |
| JavaText.TrimRemovesOnlyEnds | hive-cdh/src/cli/src/java/org/apache/hadoop/hive/cli/CliDriver.java:93 | `trim` removes nothing but characters up to U+0020; the result stands in the text at some offset, with only such characters before and after it |
| JavaText.TrimEnds | hive-cdh/src/cli/src/java/org/apache/hadoop/hive/cli/CliDriver.java:93 | a core that starts and ends with a kept character, between runs of characters up to U+0020, trims to the core |
| JavaText.Words | hive-cdh/src/cli/src/java/org/apache/hadoop/hive/cli/CliDriver.java:94 | the tokens of `split("\\s+")` hold no whitespace; when the text does not start with whitespace, the first token is a nonempty prefix of it |
| JavaText.WordsFirstIsLeadingRun | hive-cdh/src/cli/src/java/org/apache/hadoop/hive/cli/CliDriver.java:94 | when the text does not start with whitespace, the first token is its longest start without whitespace |
| JavaText.LeadingRunUnique | hive-cdh/src/cli/src/java/org/apache/hadoop/hive/cli/CliDriver.java:94 | the longest start without whitespace is the one start that has no whitespace and is followed by whitespace or the end of the text |
| JavaText.LowerMeaning | hive-cdh/src/cli/src/java/org/apache/hadoop/hive/cli/CliDriver.java:98 | lower-casing leaves no capital, keeps every other character, turns each capital into the letter 32 code points above it, and a second lower-casing changes nothing |
| JavaText.SplitOnJoin | hive-cdh/src/cli/src/java/org/apache/hadoop/hive/cli/CliDriver.java:380 | `split(";")` yields fragments without `;`; joining them again gives the text without its trailing `;`s; when the text holds a `;`, the last fragment is nonempty |
| JavaText.SplitOnShape | hive-cdh/src/cli/src/java/org/apache/hadoop/hive/cli/CliDriver.java:380 | `split(";")` is the full split of the text with trailing separators removed, and a prefix of the full split |
| JavaText.JoinSplitAll | hive-cdh/src/cli/src/java/org/apache/hadoop/hive/cli/CliDriver.java:380 | splitting on a character and joining with it again gives back the text |
| JavaText.SplitAllJoin | hive-cdh/src/cli/src/java/org/apache/hadoop/hive/cli/CliDriver.java:155 | pieces without the separator, joined with it, split back into the same pieces |
| Splitter.Commands | hive-cdh/src/cli/src/java/org/apache/hadoop/hive/cli/CliDriver.java:380-390 | no command built from the fragments is blank |
| Splitter.ProcessLine | hive-cdh/src/cli/src/java/org/apache/hadoop/hive/cli/CliDriver.java:376-403 | it dispatches, in order, a prefix of the line's statements, and it answers the outcome the error policy (`Drive`) gives, with the ignore setting read after each command |
| Splitter.FirstStop | hive-cdh/src/cli/src/java/org/apache/hadoop/hive/cli/CliDriver.java:392-399 | the index of the first statement whose outcome stops the line under the setting read after it: every earlier one continues |
| Splitter.DriveClosedForm | hive-cdh/src/cli/src/java/org/apache/hadoop/hive/cli/CliDriver.java:377-402 | if a statement stops the line, the line ends right after it, with its outcome; otherwise every statement runs and the answer is the last one's code, or 0 when there were none |
| Splitter.StopsAtFirstError | hive-cdh/src/cli/src/java/org/apache/hadoop/hive/cli/CliDriver.java:392-399 | a nonzero code after which the ignore setting reads off is returned at once when every earlier command answered 0, and no later statement is dispatched |
| Splitter.StopsAtFirstErrorWhenNotIgnoring | hive-cdh/src/cli/src/java/org/apache/hadoop/hive/cli/CliDriver.java:392-399 | with the setting off for the whole line, the first nonzero code is returned at once and no later statement is dispatched |
| Splitter.IgnoreErrorsRunsAll | hive-cdh/src/cli/src/java/org/apache/hadoop/hive/cli/CliDriver.java:394-402 | when the setting reads on after every failing command and nothing exits, every statement is dispatched and the answer is the last code (0 for none) |
| Splitter.NoEarlyReturnGivesLastCode | hive-cdh/src/cli/src/java/org/apache/hadoop/hive/cli/CliDriver.java:377-402 | when nothing stops the line, every statement runs and the outcome is the last statement's, or 0 |
| Splitter.SettingReadOnlyAfterFailure | hive-cdh/src/cli/src/java/org/apache/hadoop/hive/cli/CliDriver.java:394-396 | the setting matters only after a command that answered a nonzero code: two settings that agree there run the line alike |
| Splitter.CommandsSnoc | hive-cdh/src/cli/src/java/org/apache/hadoop/hive/cli/CliDriver.java:380-390 | one more fragment adds at most one command: the pending text plus the fragment, unless the fragment is continued or the result is blank |
| Splitter.ContinuedLastPieceNeverDispatched | hive-cdh/src/cli/src/java/org/apache/hadoop/hive/cli/CliDriver.java:382-384 | a final fragment ending in `\` adds no command |
| Splitter.EscapedTerminatorJoins | hive-cdh/src/cli/src/java/org/apache/hadoop/hive/cli/CliDriver.java:380-387 | `a\;b;` is one command, `a;b` |
| Splitter.TwoStatements | hive-cdh/src/cli/src/java/org/apache/hadoop/hive/cli/CliDriver.java:380-392 | `a;b;` is two commands, `a` then `b`, with `b` kept as typed (leading spaces included) |
| Splitter.UnterminatedLastCommand | hive-cdh/src/cli/src/java/org/apache/hadoop/hive/cli/CliDriver.java:380-392 | a last command without `;` is still dispatched |
| Splitter.EscapedThenTerminatorDispatchesNothing | hive-cdh/src/cli/src/java/org/apache/hadoop/hive/cli/CliDriver.java:380-384 | `a\;;` dispatches nothing, and the glued `a;` is left pending |
| Splitter.StatementsMatchScan | hive-cdh/src/cli/src/java/org/apache/hadoop/hive/cli/CliDriver.java:380-390 | a character-by-character scanner with the same gluing and blank rules yields the same commands as the split-based loop |
| Splitter.CommandsAgreeWithScan | hive-cdh/src/cli/src/java/org/apache/hadoop/hive/cli/CliDriver.java:380-390 | the same agreement for any run of `;`-free fragments and any pending text |
| Classifier.Tokens | hive-cdh/src/cli/src/java/org/apache/hadoop/hive/cli/CliDriver.java:93-95 | there is always a first token; it is a prefix of the trimmed statement without whitespace, followed by whitespace or the end, and nonempty when the statement is not blank |
| Classifier.TokensHaveNoSpace | hive-cdh/src/cli/src/java/org/apache/hadoop/hive/cli/CliDriver.java:94 | no token holds whitespace |
| Classifier.FirstTokenIsLeadingRun | hive-cdh/src/cli/src/java/org/apache/hadoop/hive/cli/CliDriver.java:93-94 | the first token is the longest start of the trimmed statement without whitespace |
| Classifier.WordAndArgument | hive-cdh/src/cli/src/java/org/apache/hadoop/hive/cli/CliDriver.java:93-95 | a trimmed statement made of a word, whitespace and a rest with kept characters at both ends has the word as first token and the rest as `cmd_1` |
| Classifier.SourcePath | hive-cdh/src/cli/src/java/org/apache/hadoop/hive/cli/CliDriver.java:105-109 | a first word `source`, in any case, followed by whitespace and a path, takes the `source` branch with exactly that path |
| Classifier.SourceStatementPath | hive-cdh/src/cli/src/java/org/apache/hadoop/hive/cli/CliDriver.java:93-109 | the same for the statement as typed: `  source  x.sql ` reads `x.sql` |
| Classifier.Classify | hive-cdh/src/cli/src/java/org/apache/hadoop/hive/cli/CliDriver.java:98-211 | each branch is taken exactly when its own test holds and every earlier test failed, in the order quit/exit, source, `!`, list, remote, bias-sample, local; `source` gets `cmd_1`, a shell command is the trimmed statement without its `!`, `list` gets all tokens, the server the trimmed statement and the local branches the statement as typed |
| Classifier.QuitIsWholeStatement | hive-cdh/src/cli/src/java/org/apache/hadoop/hive/cli/CliDriver.java:93-98 | a `quit`/`exit` statement is a single token with no argument |
| Classifier.BangRunsShell | hive-cdh/src/cli/src/java/org/apache/hadoop/hive/cli/CliDriver.java:119-121 | a trimmed statement starting with `!` always runs the rest of it as a shell command, in every mode |
| Classifier.ListWordRunsList | hive-cdh/src/cli/src/java/org/apache/hadoop/hive/cli/CliDriver.java:142 | a first token `list`, in any case, always takes the `list` branch with all tokens |
| Classifier.BuiltinsIgnoreMode | hive-cdh/src/cli/src/java/org/apache/hadoop/hive/cli/CliDriver.java:98-160 | the built-in commands are classified the same way whatever the remote and sampling settings |
| Classifier.FallbackFollowsMode | hive-cdh/src/cli/src/java/org/apache/hadoop/hive/cli/CliDriver.java:160-211 | any other statement goes to the server trimmed in remote mode; in local mode it goes to the sample rewrite when sampling is on and it contains `bias on`, and to the engine as typed otherwise |
| Classifier.ShiftLeftTwo | hive-cdh/src/cli/src/java/org/apache/hadoop/hive/cli/CliDriver.java:151-153 | the in-place `System.arraycopy(tokens, 2, tokens, 0, n - 2)` leaves the array as `ShiftedLeftTwo` of its old contents |
| Classifier.ShiftedFilterShape | hive-cdh/src/cli/src/java/org/apache/hadoop/hive/cli/CliDriver.java:151-153 | the filter keeps the array's length, starts with the values after the type, and holds no other value except the type token when exactly one value was given |
| Classifier.ListOneValueFilter | hive-cdh/src/cli/src/java/org/apache/hadoop/hive/cli/CliDriver.java:151-153 | `list <type> <v>` filters on `[v, type, v]` |
| Classifier.ListSpec | hive-cdh/src/cli/src/java/org/apache/hadoop/hive/cli/CliDriver.java:142-159 | code 1 with the usage line exactly when there are fewer than two tokens or the type is unknown; otherwise code 0 with nothing on `err`, and `ListEmptyPrintsNothing` and `ListPrintsListing` say what is printed |
| Classifier.ListEmptyPrintsNothing | hive-cdh/src/cli/src/java/org/apache/hadoop/hive/cli/CliDriver.java:149-157 | a known type whose listing, unfiltered for two tokens and filtered by the shifted array for more, is missing or empty prints nothing and answers 0: `list jar` with no jar registered |
| Classifier.ListPrintsListing | hive-cdh/src/cli/src/java/org/apache/hadoop/hive/cli/CliDriver.java:149-157 | a nonempty listing of that same query is printed as one line, its entries joined by newlines, with code 0 and no error; with no newline inside an entry the line splits back into the entries |
| Classifier.ListCommand | hive-cdh/src/cli/src/java/org/apache/hadoop/hive/cli/CliDriver.java:142-159 | the `list` branch with the array copied in place answers as `ListSpec` |
| Classifier.SourceSpec | hive-cdh/src/cli/src/java/org/apache/hadoop/hive/cli/CliDriver.java:105-118 | a missing file gives code 1 and its error line; a processed script gives 0 whatever its code, unless it exited; a read failure gives 1 and the failure line |
| Classifier.ShellSpec | hive-cdh/src/cli/src/java/org/apache/hadoop/hive/cli/CliDriver.java:119-140 | the exit code is the answer, with an error line exactly when it is nonzero; an exception gives code 1 with its line |
| Commands.ProcessCmd | hive-cdh/src/cli/src/java/org/apache/hadoop/hive/cli/CliDriver.java:90-273 | `quit`/`exit` ends the process with status 0; the response is left unmodelled exactly for a `bias on` sample |
| Commands.ExitingBranches | hive-cdh/src/cli/src/java/org/apache/hadoop/hive/cli/CliDriver.java:98-118 | only the quit branch, and a `source` whose script itself exited, end the process |
| Commands.OnlyQuitOrScriptExits | hive-cdh/src/cli/src/java/org/apache/hadoop/hive/cli/CliDriver.java:98-118 | a statement whose processing ends the process is `quit`/`exit` or sources a script that exits with that status |
| Commands.BuiltinsIgnoreRemoteMode | hive-cdh/src/cli/src/java/org/apache/hadoop/hive/cli/CliDriver.java:98-160 | a built-in command answers the same in remote and local mode, and always has a response |
| Commands.RemoteGetsTrimmedStatement | hive-cdh/src/cli/src/java/org/apache/hadoop/hive/cli/CliDriver.java:160-166 | in remote mode a non-built-in statement is sent trimmed, and the server's answer alone decides the response |
| Commands.LocalGetsStatementAsTyped | hive-cdh/src/cli/src/java/org/apache/hadoop/hive/cli/CliDriver.java:203-268 | in local mode a non-built-in, non-sample statement runs untrimmed with execution flag -1 |
| RemoteMode.RunRemote | hive-cdh/src/cli/src/java/org/apache/hadoop/hive/cli/CliDriver.java:160-202 | the do-while fetch loop answers as `RemoteSpec` and makes the number of fetches `RemoteFetched` counts; each of the three ways out of the try block (failing `execute`, failing fetch, short page) goes through the `finally` block, so `clean` is called exactly once |
| RemoteMode.FetchFrom | hive-cdh/src/cli/src/java/org/apache/hadoop/hive/cli/CliDriver.java:168-173 | the do-while loop fetches at least once |
| RemoteMode.FetchStopsAtShortPage | hive-cdh/src/cli/src/java/org/apache/hadoop/hive/cli/CliDriver.java:168-173 | every fetch but the last returned exactly 40 lines, and the last one failed or returned a different number |
| RemoteMode.FetchAllRows | hive-cdh/src/cli/src/java/org/apache/hadoop/hive/cli/CliDriver.java:168-173 | a result served 40 lines at a time is printed completely and in order, in `n / 40 + 1` fetches: `k + 1` for both `40k` and `40k + r` lines |
| RemoteMode.RemoteResultPrinted | hive-cdh/src/cli/src/java/org/apache/hadoop/hive/cli/CliDriver.java:165-173 | a successful statement prints exactly its rows, answers 0 and prints no error |
| RemoteMode.ErrorMapping | hive-cdh/src/cli/src/java/org/apache/hadoop/hive/cli/CliDriver.java:174-201 | no failure or a server code 0 gives 0 with no `[Hive Error]` line; another server code becomes the answer with a `[Hive Error]:` line; a transport failure gives -10002 with a `[Thrift Error]:` line; a failed `clean` only adds its line and never changes the code |
| RemoteMode.ExecuteFailureFetchesNothing | hive-cdh/src/cli/src/java/org/apache/hadoop/hive/cli/CliDriver.java:165-190 | when `execute` fails, nothing is fetched or printed and that failure decides the code |
| LocalMode.DrainBatch | hive-cdh/src/cli/src/java/org/apache/hadoop/hive/cli/CliDriver.java:331-339 | one batch is printed row by row and copied to the side file while it is open; the first write after the close throws right after its row is printed |
| LocalMode.DrainResults | hive-cdh/src/cli/src/java/org/apache/hadoop/hive/cli/CliDriver.java:325-351 | the `getResults` loop, each batch taken as a value, drains as `DrainFrom` |
| LocalMode.ProcessCmdInLocal | hive-cdh/src/cli/src/java/org/apache/hadoop/hive/cli/CliDriver.java:285-374 | the method answers as `LocalSpec`: the response, the side-file contents and whether the driver was closed |
| LocalMode.DrainNoLateWrite | hive-cdh/src/cli/src/java/org/apache/hadoop/hive/cli/CliDriver.java:330-346 | when no write reaches the closed writer, every row of the batches up to the one that broke the output is printed, only the first batch reaches the side file, and `getResults`'s exception counts only if the loop got that far |
| LocalMode.DrainStopsAtLateWrite | hive-cdh/src/cli/src/java/org/apache/hadoop/hive/cli/CliDriver.java:330-346 | the first nonempty batch after the first, while the side file is written, prints its first row and then throws `Stream closed` |
| LocalMode.QueryCodeCombination | hive-cdh/src/cli/src/java/org/apache/hadoop/hive/cli/CliDriver.java:303-356 | after a successful `run` the code is 1 if an `IOException` happened and the `close` code otherwise; an error line is printed exactly when the exception happened; the driver is always closed |
| LocalMode.QueryRowsPrinted | hive-cdh/src/cli/src/java/org/apache/hadoop/hive/cli/CliDriver.java:299-339 | without an exception the output is the echo (verbose), the tab-joined header (when configured), then every row drained; the side file holds the first batch exactly when sampling is on with flag 9 |
| LocalMode.LateRowsFail | hive-cdh/src/cli/src/java/org/apache/hadoop/hive/cli/CliDriver.java:334-351 | with sampling on and flag 9, rows after the first batch give code 1 and the `Stream closed` line; printing stops after the first late row |
| LocalMode.RunFailureShortCircuits | hive-cdh/src/cli/src/java/org/apache/hadoop/hive/cli/CliDriver.java:303-307 | a nonzero `run` code is returned unchanged after closing; no result, header or side file is touched, so the rest of the engine's behaviour does not matter |
| Sampling.SanitizeTableName | hive-cdh/src/cli/src/java/org/apache/hadoop/hive/cli/CliDriver.java:275-280 | the result contains no `.` and no `"` |
| Sampling.SanitizeIdempotent | hive-cdh/src/cli/src/java/org/apache/hadoop/hive/cli/CliDriver.java:275-280 | sanitizing twice is sanitizing once |
| Sampling.SanitizeLeavesCleanNames | hive-cdh/src/cli/src/java/org/apache/hadoop/hive/cli/CliDriver.java:275-280 | a name is unchanged exactly when it has no `.` and no `"` |
| Sampling.SanitizeLength | hive-cdh/src/cli/src/java/org/apache/hadoop/hive/cli/CliDriver.java:275-280 | each `.` adds four characters and each `"` removes one |
| Sampling.ReplaceCharCount | hive-cdh/src/cli/src/java/org/apache/hadoop/hive/cli/CliDriver.java:277-278 | replacing a character keeps the count of every other character not in the replacement |
| Sampling.WithConditionsJoin | hive-cdh/src/cli/src/java/org/apache/hadoop/hive/cli/CliDriver.java:238-242 | the loop's query is the head, the conditions joined by ` AND `, and one trailing ` AND ` |
| Sampling.DropFinalAndOfLoop | hive-cdh/src/cli/src/java/org/apache/hadoop/hive/cli/CliDriver.java:237-244 | once `replaceAll(" AND $", "")` has run, the query is the base, ` where `, and the conditions joined by ` AND ` |
| Sampling.KeyLineTargetShape | hive-cdh/src/cli/src/java/org/apache/hadoop/hive/cli/CliDriver.java:237-245 | a key line gives a target exactly when it has a field beyond the key columns (the frequency read at 245); the target query is the conditions joined by ` AND ` after ` where ` |
| Sampling.SampleTarget | hive-cdh/src/cli/src/java/org/apache/hadoop/hive/cli/CliDriver.java:234-245 | the loop over the key columns builds the query and the sample-table name that `KeyLineTarget` describes, or fails on a short key line |
| Interactive.Blanks | hive-cdh/src/cli/src/java/org/apache/hadoop/hive/cli/CliDriver.java:576-578 | the continuation prompt is all spaces and exactly as long as the prompt |
| Interactive.StartupPrompts | hive-cdh/src/cli/src/java/org/apache/hadoop/hive/cli/CliDriver.java:572-580 | the continuation prompt is all spaces and as long as the primary one; the defaults stay without a connected remote host; otherwise the primary prompt is `[host:port] hive` |
| Interactive.DefaultPromptsReturned | hive-cdh/src/cli/src/java/org/apache/hadoop/hive/cli/CliDriver.java:74-75 | the default continuation prompt is four spaces, as long as `hive` |
| Interactive.TerminatesIsTrimTest | hive-cdh/src/cli/src/java/org/apache/hadoop/hive/cli/CliDriver.java:617 | the right-to-left completion test is the same as "the trimmed line ends in `;` and not in `\;`" |
| Interactive.ReadLoop | hive-cdh/src/cli/src/java/org/apache/hadoop/hive/cli/CliDriver.java:611-631 | the loop shows the prompts, hands the units over and exits with the status that `Run` gives |
| Interactive.RunMeetsPolicy | hive-cdh/src/cli/src/java/org/apache/hadoop/hive/cli/CliDriver.java:611-631 | the units are sent in order; a unit that exits ends the loop with its status, and otherwise end of input exits with the last code (0 for none), whatever the earlier codes were; one prompt is shown per read, the primary one first and after each completed unit, the continuation one otherwise |
| Interactive.UnitsTerminate | hive-cdh/src/cli/src/java/org/apache/hadoop/hive/cli/CliDriver.java:614-620 | every unit sent to `processLine` itself passes the completion test |
| Interactive.UnitsAppend | hive-cdh/src/cli/src/java/org/apache/hadoop/hive/cli/CliDriver.java:611-627 | reading more lines only adds units, continuing from the text kept so far |
| Interactive.UnterminatedTailIgnored | hive-cdh/src/cli/src/java/org/apache/hadoop/hive/cli/CliDriver.java:622-631 | text still kept at end of input is never sent |
| Interactive.UnitsFromStart | hive-cdh/src/cli/src/java/org/apache/hadoop/hive/cli/CliDriver.java:614-625 | each unit is the lines since the previous unit, up to a completing line, joined with newlines after any leading empty lines are dropped |
| Completion.BuildCandidates | hive-cdh/src/cli/src/java/org/apache/hadoop/hive/cli/CliDriver.java:463-480 | a word is offered exactly when it is some function name's candidate, or some keyword as given or lower-cased |
| Completion.FunctionNamesOffered | hive-cdh/src/cli/src/java/org/apache/hadoop/hive/cli/CliDriver.java:468-474 | every function name is offered, with `(` exactly when it matches `[a-z_]+` |
| Completion.KeywordsOffered | hive-cdh/src/cli/src/java/org/apache/hadoop/hive/cli/CliDriver.java:477-480 | every keyword is offered both as given and lower-cased |
| Completion.FunctionCandidateRoundTrip | hive-cdh/src/cli/src/java/org/apache/hadoop/hive/cli/CliDriver.java:469-470 | dropping the final `(` of a function candidate gives the name back, and the candidate itself no longer matches `[a-z_]+` |
| Completion.FunctionCandidateIsOneWord | hive-cdh/src/cli/src/java/org/apache/hadoop/hive/cli/CliDriver.java:487-491 | no character of a function word is a delimiter, and its `(` is one |
| Completion.Fixed | hive-cdh/src/cli/src/java/org/apache/hadoop/hive/cli/CliDriver.java:514-518 | the fix never changes the number of completions |
| Completion.FixCompletions | hive-cdh/src/cli/src/java/org/apache/hadoop/hive/cli/CliDriver.java:514-518 | the in-place `comp.set(0, …trim())` leaves the list as `Fixed` of the old one |
| Completion.FixRestoresFunctionCandidate | hive-cdh/src/cli/src/java/org/apache/hadoop/hive/cli/CliDriver.java:503-517 | the space the completer adds after a unique function candidate is removed again |
| Completion.FixLeavesOthers | hive-cdh/src/cli/src/java/org/apache/hadoop/hive/cli/CliDriver.java:514-515 | several completions, or one that does not end in `( `, are left alone |
| Completion.FixIdempotent | hive-cdh/src/cli/src/java/org/apache/hadoop/hive/cli/CliDriver.java:514-517 | fixing twice is fixing once |
| InitFiles.ScriptText | hive-cdh/src/cli/src/java/org/apache/hadoop/hive/cli/CliDriver.java:409-411 | the text is empty exactly when there are no lines, and otherwise ends in a newline |
| InitFiles.ReadScript | hive-cdh/src/cli/src/java/org/apache/hadoop/hive/cli/CliDriver.java:407-411 | the read loop builds `ScriptText` of the lines |
| InitFiles.ScriptTextSplits | hive-cdh/src/cli/src/java/org/apache/hadoop/hive/cli/CliDriver.java:409-411 | splitting the built text at newlines gives the lines back, plus the empty piece after the final newline |
| InitFiles.ProcessReader | hive-cdh/src/cli/src/java/org/apache/hadoop/hive/cli/CliDriver.java:405-414 | a script runs as one `processLine` of its lines, each followed by a newline |
| InitFiles.CliSession.constructor | hive-cdh/src/cli/src/java/org/apache/hadoop/hive/cli/CliDriver.java:429-431 | a session holds its `silent` flag and its configured init files |
| InitFiles.RunFrom | hive-cdh/src/cli/src/java/org/apache/hadoop/hive/cli/CliDriver.java:431-436 | the number of files started stays within the plan |
| InitFiles.VerdictMeaning | hive-cdh/src/cli/src/java/org/apache/hadoop/hive/cli/CliDriver.java:432-435 | the sequence goes on after a file exactly when `processFile` answers 0; a nonzero code or an exit ends it with that status, an `IOException` with its message, and a stop is never a normal end |
| InitFiles.ProcessInitFiles | hive-cdh/src/cli/src/java/org/apache/hadoop/hive/cli/CliDriver.java:428-458 | the files are run in the plan's order until one stops the sequence; the configured list is unchanged; `silent` is restored only when every file succeeded |
| InitFiles.RunStopsAtFirstFailure | hive-cdh/src/cli/src/java/org/apache/hadoop/hive/cli/CliDriver.java:431-436 | every file before the last one started succeeded; the sequence ends normally exactly when every file succeeded; otherwise the last started file's verdict is the outcome |
| InitFiles.FailureEndsSequence | hive-cdh/src/cli/src/java/org/apache/hadoop/hive/cli/CliDriver.java:431-436 | the first failing file is the last one run, and its verdict is the outcome |
| InitFiles.ConfiguredFilesOnly | hive-cdh/src/cli/src/java/org/apache/hadoop/hive/cli/CliDriver.java:431-437 | when init files are configured, exactly those run and the defaults are never looked for |
| InitFiles.DefaultsInOrder | hive-cdh/src/cli/src/java/org/apache/hadoop/hive/cli/CliDriver.java:437-455 | with no init files configured, the `HIVE_HOME` default runs before the user's, and a failure in the first stops the second |

## Left out

- The shell process and its two `StreamPrinter` threads are not spawned. The shell branch is an oracle giving an exit code or an exception: this is concurrency and operating-system calls.
- `System.exit` does not end anything. It is the `Exited` outcome, and the read loop's final `System.exit(ret)` is its returned status.
- The operating system's 8-bit truncation of exit statuses is not modelled; statuses are unbounded integers.
- File contents and file existence are oracles: I/O is outside the model.
  - `processFile` is the `FileRun` a path gives, and `processReader` gets its lines as a sequence.
  - `BufferedReader.readLine`'s line-terminator handling is not modelled, and neither is `FileReader.close`.
- The Thrift `HiveClient`, the query `Driver`, `CommandProcessorFactory.get`, `SessionState.list_resource` and `find_resource_type` are oracles: these are foreign code.
  - When an exception's message is null, Java falls back to `toString()`. The model takes the message the oracle gives.
- `CommandProcessorFactory.clean` (401, 397) and `ss.close()` (629) are not modelled. They are foreign calls with no effect on codes.
- The timing output (358-363) is not modelled: it uses the wall clock and floating point.
- The numeric side of the `bias on` rewrite is not modelled: it is floating point.
  - This covers `Double.parseDouble`, the `samplewith` ratio (245-249) and the `(int)` cast of the limit (235). The limit is taken as an integer.
- Reading `_temp_key_summary.dat` line by line and the `DROP`/`CREATE` runs for each key line (224-258) are not modelled: that is file I/O.
  - The side file's writes are modelled (`LocalMode`), as is the string work for one key line (`Sampling`).
  - The `split` calls that take the columns and the table name apart (213-234) are not modelled. Their pieces are inputs.
- Classifier.SourceSpec: the script's own output is not part of the response (`out` is empty). It goes through the `processFile` oracle, which is not looked into.
- InitFiles.ProcessInitFiles: the `processFile` oracle is not given the `silent` flag, so the model does not state that the files run silently. It states only the flag's value afterwards.
- LocalMode.DrainResults: the `res` list that `getResults` fills and the loop clears is not a mutable buffer in the model. Each batch is a value.
- Commands.ProcessCmd: for a `bias on` sample, the statement's response is `None` (not modelled), because of the file I/O and floating point above.
- Sampling.DropFinalAnd: models `replaceAll(" AND $", "")` on text that ends in ` AND `, the only shape the loop produces. `$` also matching before a final line terminator cannot arise, because every condition is trimmed.
- The console library is not modelled: it is foreign code.
  - This covers jline's `ArgumentCompletor` matching, `ConsoleReader` and the history file (600-608).
  - The completions it produces are an input to the fix.
- The option parsing, log4j and classloader setup of `main` (526-569) are left out, as is the `-e`/`-f` handling (587-598). This is configuration, not statement processing.
- Case mapping is modelled for ASCII letters only. Java's full Unicode `toLowerCase` and `equalsIgnoreCase` are not modelled.
- `File.separator` is taken to be `/`.
