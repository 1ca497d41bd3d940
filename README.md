# Psh-shell core, modelled in Dafny

This project models the sequential core of Psh-shell, a small interactive
Unix shell written in C, and proves properties of that model. Each core
C file has its own module:

| module | C file | what it covers |
|---|---|---|
| `Runner` | src/runner.c | `norm_and_and`; the two loops of `run_sequence` (split at `;`/`&`, then dispatch each segment to a built-in or to `execute_command`); `split_words` |
| `Parser` | src/parser.c | `skip_ws` and the outer loop of `parse_shell_cmd`; the segment recogniser `valid_cmd_seg` is a parameter |
| `CommandText` | src/execute.c | the in-place text handling of a stage: `trim`, the redirection scan of `run_single`, `split_argv` |
| `Execute` | src/execute.c | `run_single` (stage parsing, the child's descriptor set-up, the parent's group and foreground handling) and the pipe and process-group loop of `execute_command` |
| `Jobs` | src/jobs.c | the 128-slot job table: `jobs_init`, `jobs_add`, and the reap loop of `jobs_check` over a sequence of reap events |
| `Signals` | src/signals.c | the foreground record (`fg_pgid`, `fg_cmd`); `on_sigint` and `on_sigtstp` as sequential steps |
| `History` | src/history.c | `is_blank`, `contains_atomic_log`, and the in-memory parts of `history_add_if_needed` and `history_load` |
| `Input` | src/input.c | `input_read_line` as a state machine over the bytes it reads |
| `Builtins` | src/builtins.c | `cd`, `echo`, `env`, `pwd`, `find_in_path`, `which`, `setenv`, `unsetenv` |
| `Prompt` | src/prompt.c | `path_for_prompt`, `init_prompt`, the prompt line of `show_prompt` |
| `CStrings` | src/helpers.c | the `my_*` string helpers on raw memory |
| `Tokens` | (C library) | `strtok`, which runner.c, execute.c, history.c and builtins.c all use |

Strings are `seq<char>`. Where the C code works on a buffer in place
(`trim`, the redirection scan, `split_argv`, `norm_and_and`, the `my_*`
copies, the line editor), the model keeps an `array<char>` holding the
string and its NUL terminator. Objects whose fields the C code updates
become classes:

- Execute.FdTable: the child's descriptor table;
- Execute.Shell: the parent's open descriptors, fork answers and call log;
- Jobs.JobTable: the job slots and `next_job_id`;
- History.Log: the 15 history slots;
- Signals.Foreground: `fg_pgid` and `fg_cmd`;
- Input.LineEditor: the static line buffer;
- `Builtins.Environment` and `Builtins.Directories`: the environment, the working directory and `prev_dir`.

Each imperative method is proved against a specification function. The
properties are proved as lemmas about those functions.

System calls and library state are parameters or abstract values:

- `fork` answers come from a sequence;
- `open` consults a `FileSystem` value that says which names may be opened for reading and for writing;
- `chdir` and the executable test are functions passed in;
- `getcwd`, `gethostname` and `getenv` become `Option` parameters;
- `waitpid` results in the reap loop are a sequence of events;
- the terminal input is a sequence of bytes, and what `input_read_line` echoes is returned as a string.

Behaviour of the code as written that the model keeps:

- Every background flag of `run_sequence` is 0. The separator is overwritten with NUL before it is tested for `&` (src/runner.c:45-48), so every segment is run in the foreground.
- `hard` is never set (src/runner.c:70-73), so a line whose first word is a built-in always runs in-process, pipes and redirections included.
- A redirection target is cut off with `strtok` at its first blank, and the scan resumes at the start of the target word. A `<` or `>` inside that word is still found, so `cat <in>out` records input `in` and output `out`. A redirection after the blank that ends the target word is never seen.
- `jobs_add` refuses once the counter reaches 128, even when slots are free.
- `path_for_prompt` abbreviates to `~` exactly when the working directory is home or an *ancestor* of home. A directory inside home is shown in full.

## Model

| member | source | states |
|---|---|---|
| CStrings.Trunc | src/signals.c:68-69 | `strncpy(dst, s, n)` plus a terminator keeps a prefix of `s` of at most `n` bytes, and all of `s` when it fits |
| CStrings.StrLen | src/helpers.c:32-39 | the count is the index of the first NUL: every earlier byte is non-NUL |
| CStrings.StrLenFrom | src/helpers.c:34-37 | the scan from `i` stops at the first NUL at or after `i` |
| CStrings.MyStrcmp | src/helpers.c:9-18 | 0 exactly when both pointers are non-null and the C strings are equal, 1 otherwise (never a three-way result) |
| CStrings.StrcmpFrom | src/helpers.c:14-17 | from a common prefix, the loop yields 0 exactly when the two strings are equal |
| CStrings.MyStrncmp | src/helpers.c:19-29 | 0 when either pointer is null; otherwise 0 exactly when the first `n` bytes agree, NULs included |
| CStrings.StrncmpFrom | src/helpers.c:23-28 | from a common prefix of `i` bytes, 0 exactly when the first `n` bytes agree |
| CStrings.EnvLookup | src/helpers.c:48-51 | reference lookup: None exactly when no entry is `name=...`; otherwise the text after `name=` of the first such entry |
| CStrings.MyGetenv | src/helpers.c:41-54 | NULL for a null name or environment; otherwise exactly `EnvLookup` |
| CStrings.GetenvFrom | src/helpers.c:48-53 | the loop from entry `i` on returns the lookup over `env[i..]` |
| CStrings.MyStrcpy | src/helpers.c:56-68 | copies `src` up to and including its NUL, leaves the rest of `dest` alone and returns `dest`; a null `src` returns null and changes nothing |
| CStrings.MyStrdup | src/helpers.c:70-82 | a fresh buffer holding exactly the string and its NUL, or null exactly when the argument is null or the allocation fails |
| CStrings.CopyLen | src/helpers.c:87-89 | the copy stops at `n` or at the source's NUL, whichever comes first |
| CStrings.StrncpyTerminator | src/helpers.c:84-93 | the `n` bytes written hold a NUL exactly when `strlen(src) < n` |
| CStrings.MyStrncpy | src/helpers.c:84-93 | writes exactly `n` bytes (source up to its NUL, then NUL padding), leaves `dst[n..]` untouched and returns `dst` |
| CStrings.CopyBytes | src/helpers.c:87-89 | the copying loop copies `CopyLen` bytes and writes nothing else |
| CStrings.PadNuls | src/helpers.c:90 | the padding loop completes the `n`-byte image and writes nothing past `n` |
| Tokens.SkipDelims | src/runner.c:14-15 | `strtok` skips exactly the delimiters before the next token |
| Tokens.TokenEnd | src/runner.c:14-15 | a token runs to the first delimiter or the end |
| Tokens.NextToken | src/runner.c:14-15 | each `strtok` call resumes strictly further on |
| Tokens.TokensAreTokens | src/history.c:44-45 | every token is non-empty and holds no delimiter |
| Tokens.TokensOccur | src/history.c:44-47 | `t` is a token of `s` exactly when it occurs in `s` as a maximal delimiter-free run |
| Tokens.TokensWithoutDelims | src/execute.c:165-170 | text without a delimiter is its own only token (none when empty) |
| Tokens.TokensAfterDelims | src/builtins.c:128-139 | leading delimiters do not change the tokens |
| Tokens.TokensFromShift | src/builtins.c:128-139 | resuming inside `p + s` at `|p| + i` gives the tokens of `s` from `i` on |
| Tokens.FirstToken | src/runner.c:14-15 | a token followed by a delimiter is the first token, and the rest is tokenised after it |
| Tokens.OnlyToken | src/runner.c:14-15 | a lone token splits to itself |
| Runner.NormAndAnd | src/runner.c:20-31 | the output buffer holds `NormOut(line, sz)` and a NUL; bytes after the terminator are untouched |
| Runner.NormOut | src/runner.c:20-31 | at most `sz - 1` bytes, a prefix of the full normalisation |
| Runner.NormHasNoAndAnd | src/runner.c:23-28 | the normalised line never contains `&&` |
| Runner.NormWithoutAndAnd | src/runner.c:23-28 | a line without `&&` is copied unchanged |
| Runner.NormIdempotent | src/runner.c:23-28 | normalising twice is normalising once |
| Runner.NormSplits | src/runner.c:24-25 | an `&&` not preceded by an unpaired `&` becomes one `;` between the normalised texts around it |
| Runner.NormOutFixed | src/runner.c:20-31 | normalising the output again into a buffer at least as large gives it back unchanged |
| Runner.SegmentsShape | src/runner.c:43-54 | one more segment than separators; no segment holds `;` or `&` |
| Runner.WeaveSegments | src/runner.c:43-54 | the segments with the separators woven back in give the line |
| Runner.SegmentsOfWeave | src/runner.c:43-54 | separator-free segments woven with separators split back into the same segments and separators |
| Runner.SplitLine | src/runner.c:43-54 | the first loop writes NUL over every separator and records one start per segment; each start reads as its segment; no bg flag is set |
| Runner.ScanSeparators | src/runner.c:43-50 | the loop's starts, bg flags and open-segment start, with every separator cut |
| Runner.SplitDone | src/runner.c:51-54 | after the scan, every recorded start reads as its segment through the NULs |
| Runner.Words | src/runner.c:13-18 | at most 64 words |
| Runner.SplitWords | src/runner.c:13-18 | the words go into `args[0..n)` and `args[n]` becomes NULL, with `n` the word count; the other slots are untouched |
| Runner.CollectWords | src/runner.c:13-17 | the words stored are exactly the first 64 space/tab tokens |
| Runner.SplitJoin | src/runner.c:13-18 | words joined by single spaces split back into the same words (at most 64) |
| Runner.FirstWordNeverHard | src/runner.c:70-73 | no first word ever holds `|`, `>`, `<` or `;`, so `hard` is never set |
| Runner.FindBuiltin | src/runner.c:75-82 | the index of the built-in name, or -1 exactly when the word names none |
| Runner.SkipBlanks | src/runner.c:63 | the loop drops exactly the leading spaces and tabs |
| Runner.TrimLeftAt | src/runner.c:63 | dropping the leading blanks stops at the first non-blank |
| Runner.DispatchSegment | src/runner.c:56-118 | the loop body computes the segment's outcome `Dispatch` |
| Runner.DispatchClassifies | src/runner.c:56-118 | skipped exactly when no word lies outside `" \t|&><;"`; a built-in exactly when the first such word names one, with the space/tab words as arguments; otherwise the text without leading blanks goes to `execute_command`, waited for exactly when bg is clear |
| Runner.Continue | src/runner.c:93-105 | a segment adds at most one action |
| Runner.Outcomes | src/runner.c:55-119 | one outcome per segment |
| Runner.OutcomeAt | src/runner.c:55-119 | outcome `k` is segment `k`'s own dispatch |
| Runner.Chain | src/runner.c:55-119 | at most one action per outcome |
| Runner.Dispatched | src/runner.c:55-119 | at most one action per segment |
| Runner.NoFlags | src/runner.c:40-48 | the bg flags `run_sequence` leaves: all clear |
| Runner.ChainWaits | src/runner.c:116 | a property of every outcome holds of every action dispatched |
| Runner.AllForeground | src/runner.c:43-118 | with the flags `run_sequence` leaves, every command handed to `execute_command` is waited for |
| Runner.ChainExitIsLast | src/runner.c:103 | `exit` can only be the last action of a chain |
| Runner.ExitIsLast | src/runner.c:103 | nothing is dispatched after `exit` |
| Runner.DispatchAll | src/runner.c:55-120 | the second loop performs exactly the dispatched actions, ending the shell with 0 after `exit` and returning 1 otherwise |
| Runner.LineBuffer | src/runner.c:34-36 | the 2048-byte `line` buffer holds the text and NULs after it |
| Runner.RunSequence | src/runner.c:33-121 | the line, cut to 2047 bytes, is split at every `;`/`&` and the segments are dispatched in order with no bg flag set; status 0 after `exit`, else the function returns 1 |
| Runner.TerminatorSlot | src/runner.c:16 | the slot `split_words` sets to NULL is at most 64 |
| Runner.SixtyFourWords | src/runner.c:90-91 | a 64-word argument list starting with `echo` |
| Runner.SixtyFourWordsOverrun | src/runner.c:13-18 | the 64-word `echo` line is dispatched as a built-in, and its terminator goes to slot 64 of `args[64]`; with 65 slots it fits |
| Runner.SixtyFourWordsLine | src/runner.c:56-70 | that line fits the segment buffer, splits into its 64 words, and its first word is `echo` |
| Runner.SixtyFourWordsSplit | src/runner.c:13-18 | `split_words` cuts that line into exactly its 64 words |
| Runner.SixtyFourWordsFirst | src/runner.c:70-72 | the first word of that line is `echo` |
| Runner.EchoIsBuiltin | src/runner.c:75 | `echo` is a built-in name |
| Parser.WsEnd | src/parser.c:6-8 | `skip_ws` passes only space, tab and newline, and stops at the first other byte or the end |
| Parser.SkipWs | src/parser.c:6-8 | the loop stops where `WsEnd` says |
| Parser.WsEndAll | src/parser.c:6-8 | over a run of whitespace, `skip_ws` reaches the end |
| Parser.WsEndAt | src/parser.c:6-8 | `skip_ws` stops exactly at the first non-whitespace byte |
| Parser.WsBefore | src/parser.c:6-8 | everything skipped is whitespace |
| Parser.LoopEnd | src/parser.c:37-51 | the separator loop only moves the index forward, within the line |
| Parser.SeparatorLoop | src/parser.c:37-51 | the save/restore loop stops at `LoopEnd` |
| Parser.ParseShellCmd | src/parser.c:32-57 | the result is exactly `Accepts`; a rejected first segment rejects the line |
| Parser.TailAcceptsIff | src/parser.c:52-56 | after the loop, the line is accepted exactly when only whitespace, or whitespace, one `;`/`&` and whitespace, is left |
| Parser.ClosingTailAccepted | src/parser.c:52-56 | such a tail is accepted |
| Parser.AcceptedTailCloses | src/parser.c:52-56 | an accepted tail has that shape |
| Parser.AcceptsIff | src/parser.c:32-57 | accepted exactly when the first segment is recognised and the text after the separator loop is a closing tail |
| Parser.RejectedSecondSegment | src/parser.c:41-56 | a separator followed by text that is neither a segment nor whitespace rejects the line: the index is restored rather than the line failing at once, and the leftover text then fails |
| Parser.DoubleSeparatorRejected | src/parser.c:52-56 | two separators in a row after the last segment are never accepted |
| CommandText.TrimRight | src/execute.c:23 | a prefix that ends in a non-blank; everything dropped is blank |
| CommandText.TrimLeft | src/execute.c:24 | never longer than its input |
| CommandText.TrimLeftShape | src/execute.c:24 | a suffix of the input that starts with a non-blank; everything dropped is blank |
| CommandText.TrimShape | src/execute.c:21-25 | the trimmed text is `s[i..j]` with a blank prefix and a blank suffix dropped, and starts and ends with a non-blank |
| CommandText.TrimIdempotent | src/execute.c:21-25 | trimming twice is trimming once |
| CommandText.TrimmedBufferContent | src/execute.c:21-25 | as a C string the buffer holds the trimmed text, no longer than before; nothing from the old terminator on changes |
| CommandText.ShiftDown | src/execute.c:24 | `memmove(s, s + 1, strlen(s))` moves the string and its NUL down one byte and touches nothing after |
| CommandText.DropFirst | src/execute.c:24 | one pass drops the first byte and keeps the string terminated |
| CommandText.TrimTrailing | src/execute.c:22-23 | the first loop leaves the string without its trailing blanks and NULs from there to the old terminator |
| CommandText.TrimLeading | src/execute.c:24 | the second loop leaves the buffer `LeadResult` |
| CommandText.Trim | src/execute.c:21-25 | `trim` leaves exactly `TrimmedBuffer` of the old buffer |
| CommandText.Strlen | src/execute.c:22 | `strlen` on the buffer is `StrLen` |
| CommandText.Strpbrk | src/execute.c:56 | the first `<`, `>` or NUL from `p`; passing over the bytes before it does not change the scan |
| CommandText.SkipTargetBlanks | src/execute.c:59-71 | stops at the first non-blank, without changing the scan |
| CommandText.Strtok | src/execute.c:61-73 | cutting the target word at its first blank is the scan's cut step |
| CommandText.CutRedirection | src/execute.c:57-70 | the operator becomes a NUL and the scan moves past it (two bytes for `>>`) |
| CommandText.TakeTarget | src/execute.c:59-73 | the target is recorded and cut, or skipped at the terminator or a full table, as the scan says |
| CommandText.RecordTarget | src/execute.c:61-73 | with room in the table, the word is recorded with its kind and cut off |
| CommandText.ScanRedirections | src/execute.c:56-75 | the loop leaves the buffer and the input and output targets of `Scan` |
| CommandText.ScanRunBounds | src/execute.c:60-72 | at most 8 input and 8 output targets |
| CommandText.ScanBounds | src/execute.c:60-72 | at most 8 input and 8 output targets for a whole stage |
| CommandText.ScanRunRecords | src/execute.c:56-75 | targets are only appended, each at or after where the scan resumes and inside the buffer |
| CommandText.ScanCommandPart | src/execute.c:56-76 | after the scan, the C string is exactly the stage text before its first `<` or `>` |
| CommandText.ScanCutPoint | src/execute.c:56-58 | the bytes before the first operator are unchanged, with a NUL put there |
| CommandText.ScanFirstTarget | src/execute.c:56-75 | the first target is the next space/tab word (append for `>>`, truncate for `>`); when that word holds no `<` or `>` and ends the line or is followed by a blank, it is the only target recorded, and the command part is the text before the operator |
| CommandText.ArgBlanks | src/execute.c:31 | the blank loop stops at the first non-blank without changing the walk |
| CommandText.ArgWord | src/execute.c:34-44 | the walk over one word (to the next blank, or to the matching quote) and its cut |
| CommandText.SplitArgv | src/execute.c:27-48 | the loop leaves the buffer and the word starts of `SplitArgvSpec` |
| CommandText.SplitArgvBound | src/execute.c:30-46 | at most `max - 1` words, so `argv[argc]` is in bounds |
| CommandText.SplitArgvTokens | src/execute.c:40-44 | on quote-free text, the words stored are the first `max - 1` space/tab tokens |
| CommandText.SplitArgvQuoted | src/execute.c:34-39 | a word opened by `'` or `"` starts after the quote and runs to the same quote or to the end, without the quotes |
| CommandText.SplitArgvFirst | src/execute.c:30-44 | a trimmed non-empty command has a first word, starting after its quote if it has one |
| Execute.ParseStage | src/execute.c:56-80 | a parsed stage has its words and targets inside its buffer |
| Execute.ParseStageShape | src/execute.c:56-80 | a stage is dropped (`run_single` returns -1) exactly when its trimmed text before the first `<`/`>` is empty; otherwise 1 to 63 words and at most 8 targets of each kind |
| Execute.StageBuffer | src/execute.c:76-77 | the buffer `split_argv` gets starts with NUL exactly when the trimmed command part is empty |
| Execute.StageWords | src/execute.c:76-80 | a kept stage has 1 to 63 words and at most 8 targets of each kind |
| Execute.ParseStageInPlace | src/execute.c:56-80 | the in-place parse gives `ParseStage` of the old buffer |
| Execute.OutFiles | src/execute.c:63-73 | one output file per recorded target |
| Execute.Reads | src/execute.c:90-91 | the input loop opens every input file read-only, in order |
| Execute.Writes | src/execute.c:116-117 | the output loop opens every output file, `O_APPEND` for `>>` and `O_TRUNC` for `>` |
| Execute.FirstRefused | src/execute.c:90-121 | the first refused `open`: all earlier ones succeed |
| Execute.ChildRuns | src/execute.c:89-132 | the child goes on to the command exactly when every input is readable and every output writable; otherwise it exits with 1; every file is opened once, in order |
| Execute.StdinRuns | src/execute.c:89-113 | the input half goes on exactly when every input file is readable; it opens the inputs, then `/dev/null` for a detached background stage |
| Execute.StdoutRuns | src/execute.c:115-132 | the output half goes on exactly when every output file may be written, opening each once in order |
| Execute.InputRefusedExits | src/execute.c:90-96 | a refused input exits with 1 before any output file is tried, with no descriptor of its own left open |
| Execute.ChildStdio | src/execute.c:99-132 | stdin: last input file, else `in_fd` if not 0, else `/dev/null` for a detached background stage, else inherited; stdout: last output file, else `out_fd` if not 1 |
| Execute.ChildNoLeak | src/execute.c:99-132 | the child keeps no descriptor it opened besides 0 and 1, and closes the `out_fd` it was handed |
| Execute.FdTable.constructor | src/execute.c:85-89 | the child's table as inherited, nothing opened yet |
| Execute.FdTable.Open | src/execute.c:91-117 | a fresh descriptor for an allowed `open`, -1 and no change otherwise; every attempt is logged |
| Execute.FdTable.Close | src/execute.c:92-101 | the descriptor is gone and nothing else changes |
| Execute.FdTable.Dup2 | src/execute.c:100-130 | the target descriptor now refers to the source's file |
| Execute.FdTable.OpenInputs | src/execute.c:89-98 | the input loop: on a refusal, exit 1 with the earlier files closed; otherwise only the last input stays open |
| Execute.FdTable.OpenOutputs | src/execute.c:115-124 | the output loop: on a refusal, exit 1 before the previous output is closed; otherwise only the last output stays open |
| Execute.FdTable.SetUpStdin | src/execute.c:89-113 | the table and log afterwards are `StdinSetup` of the old ones |
| Execute.FdTable.SetUpStdout | src/execute.c:115-132 | the table and log afterwards are `StdoutSetup` of the old ones |
| Execute.FdTable.Redirect | src/execute.c:89-132 | the table and log afterwards are `ChildSetup` of the old ones |
| Execute.ForkAnswer | src/execute.c:83 | a fork answer is -1 or a pid |
| Execute.FirstSpawn | src/execute.c:172-188 | `pg` is -1 or positive |
| Execute.FirstSpawnIsFirst | src/execute.c:172-188 | `pg` is -1 exactly when no stage forked; otherwise it is the first positive result |
| Execute.FirstSpawnStable | src/execute.c:188 | once set, `pg` does not move |
| Execute.Parses | src/execute.c:187 | each stage is parsed on a buffer of its own |
| Execute.StagesAreStrings | src/execute.c:165-170 | the `|` pieces of a C string hold no NUL |
| Execute.PipelineSoFarAt | src/execute.c:183-195 | the loop's calls, call by call: call `j` is stage `j` with its descriptors, group and fork answer |
| Execute.PipelineGroups | src/execute.c:183-195 | every stage that forked is in the group of the first stage that forked |
| Execute.OnlyLastWaited | src/execute.c:183-195 | only the last stage is waited for, and only in the foreground |
| Execute.StageCallOfRun | src/execute.c:187 | the call of stage `i` is the one the loop's record expects there |
| Execute.StageStepOf | src/execute.c:184-194 | the pipe, the call and the closes of one turn make one `StageStep` |
| Execute.PipeEndsKept | src/execute.c:190-193 | closing the write end and the old stdin leaves the read end in its place |
| Execute.Turn | src/execute.c:183-195 | one turn keeps the loop's bookkeeping: calls, `pg`, `first`, pipes, open descriptors, foreground record |
| Execute.InFdBelowNext | src/execute.c:193 | a stage's stdin is an already allocated descriptor |
| Execute.PipelineDone | src/execute.c:183-197 | after the loop: one call per stage, one pipe per stage but the last, only the last read end left open, `first` is the first stage's result |
| Execute.Shell.constructor | src/execute.c:160-163 | the shell starts with 0, 1 and 2 open and no call made |
| Execute.Shell.Fork | src/execute.c:83 | `fork` returns the next answer and uses it up |
| Execute.Shell.Pipe | src/execute.c:185 | `pipe` opens two fresh descriptors |
| Execute.Shell.Close | src/execute.c:191-192 | `close` removes one descriptor |
| Execute.Shell.RunSingle | src/execute.c:50-157 | the parent's half of `run_single`: one call record, its pid or -1 as result, one fork answer used when it forks, and the foreground record set during the wait and cleared after |
| Execute.Shell.RunStage | src/execute.c:187 | `run_single` on a fresh copy of the stage text |
| Execute.Shell.ClosePipeEnds | src/execute.c:190-193 | the write end and the old stdin (unless 0) are closed |
| Execute.Shell.PipeStage | src/execute.c:184-194 | one turn of the loop is one `StageStep` |
| Execute.Shell.PipelineTurn | src/execute.c:184-194 | one turn keeps `ProgressOf` |
| Execute.Shell.PipelineLoop | src/execute.c:183-195 | the whole loop ends in `ProgressOf` with every stage run |
| Execute.Shell.RunPipeline | src/execute.c:179-198 | two or more stages: calls as the loop's record says, one pipe per stage but the last, the last read end left open, the foreground record cleared |
| Execute.Shell.RunAlone | src/execute.c:175-178 | a single stage runs on the shell's own stdin and stdout in a group of its own, opening and closing nothing |
| Execute.Shell.ExecuteCommand | src/execute.c:160-200 | the line is split at `|` into at most 16 non-empty stages; the calls, descriptors, fork answers and foreground record afterwards are as the loop's record says; the function returns 0 |
| Jobs.FirstWhere | src/jobs.c:43-47 | the first slot satisfying the test, or None exactly when there is none |
| Jobs.InitEstablishes | src/jobs.c:11-16 | `jobs_init` establishes the table invariant |
| Jobs.AddSpec | src/jobs.c:18-35 | refused (-1, nothing changes) once the counter reaches 128 or when every slot is active; otherwise the lowest free slot becomes a RUNNING job holding the counter as its id, the command cut to 1023 bytes and the pid, and nothing else changes |
| Jobs.AddPreservesInv | src/jobs.c:18-35 | registration keeps the counter in 1..128 and active ids distinct and below it |
| Jobs.AddAll | src/jobs.c:18-35 | one answer per registration request |
| Jobs.GrantedIdsConsecutive | src/jobs.c:31 | successful registrations get `next, next + 1, ...`, strictly increasing and never reused |
| Jobs.AtMost127Granted | src/jobs.c:19-31 | from `jobs_init`, at most 127 registrations ever succeed, whatever slots are freed |
| Jobs.CounterBounded | src/jobs.c:19-31 | the counter never passes 128 |
| Jobs.Apply | src/jobs.c:42-75 | one reap event keeps the table's size |
| Jobs.Poll | src/jobs.c:41-76 | the reap loop keeps the table's size |
| Jobs.ApplyEffect | src/jobs.c:42-75 | only the first active slot with the pid changes: stop and continue set the state and keep it active; an exit or signal deactivates it with one notice (normal for code 0); an untracked pid changes nothing |
| Jobs.ApplyPreservesInv | src/jobs.c:42-75 | a reap event keeps the invariant |
| Jobs.PollPreservesInv | src/jobs.c:41-76 | the reap loop keeps the invariant |
| Jobs.Pgids | src/jobs.c:27-44 | the pgid column of the table |
| Jobs.PollKeepsPgids | src/jobs.c:41-76 | the reap loop never writes `pgid` |
| Jobs.AddKeepsPgids | src/jobs.c:23-32 | registration never writes `pgid` |
| Jobs.JobTable.constructor | src/jobs.c:11 | a zeroed table |
| Jobs.JobTable.Init | src/jobs.c:11-16 | counter 1 and every slot inactive, its other fields kept |
| Jobs.JobTable.Find | src/jobs.c:43-47 | the index of the first matching slot, or -1 exactly when none matches |
| Jobs.JobTable.Add | src/jobs.c:18-35 | the slots, counter and answer afterwards are `AddSpec` of the old ones |
| Jobs.JobTable.ApplyEvent | src/jobs.c:42-75 | the slots and notice afterwards are `Apply` of the old ones |
| Jobs.JobTable.Check | src/jobs.c:37-77 | the slots and notices afterwards are `Poll` of the old slots and the events |
| Signals.Foreground.constructor | src/signals.c:13-14 | no foreground group (-1) and an empty command |
| Signals.Foreground.Set | src/signals.c:66-70 | stores the group and at most 255 bytes of the command |
| Signals.Foreground.Clear | src/execute.c:196 | `signals_set_fg_pgid(-1, NULL)`, here and at src/execute.c:154, forgets the group |
| Signals.OnSigint | src/signals.c:17-23 | SIGINT goes to the foreground group exactly when it is positive; the shell state does not change |
| Signals.OnSigtstp | src/signals.c:25-43 | with no foreground group nothing changes; otherwise SIGTSTP goes to the group, and a notice is printed exactly when registration succeeds |
| Signals.StopSlot | src/signals.c:30-38 | a successful stop fills the lowest free slot, STOPPED with the group as pid and the new id |
| Signals.StopRegistersOne | src/signals.c:28-41 | a successful stop adds exactly one active STOPPED job and uses one free slot, changes nothing else and keeps the invariant |
| Signals.RefusedStopChangesNothing | src/signals.c:30-31 | when registration is refused, the table is unchanged and nothing is printed |
| Signals.HandleSigtstp | src/signals.c:25-43 | the table and outputs afterwards are `OnSigtstp` of the old state |
| History.BlankFrom | src/history.c:29-37 | `is_blank` holds exactly when every byte is a space, tab, CR or LF (so for the empty string too) |
| History.AtomicLogIff | src/history.c:39-49 | `contains_atomic_log` holds exactly when `log` stands alone between delimiters of `" \t|><;&"` or the ends of the first 1023 bytes |
| History.LogAfterSeparator | src/history.c:44-46 | `log` after a pipe or separator is detected |
| History.LogInsideWordIgnored | src/history.c:44-46 | `log` inside a longer word is not |
| History.Push | src/history.c:88-94 | the log stays within 15 entries and the line is the newest |
| History.LastN | src/history.c:62-66 | the last `n` elements |
| History.PushKeepsLast | src/history.c:88-94 | a push keeps exactly the last 15 of the log extended by the line, in order |
| History.AddSpec | src/history.c:84-94 | the log stays within 15 entries |
| History.AddIdempotent | src/history.c:87 | adding the same line twice in a row stores it once |
| History.AddedIsNewest | src/history.c:88-94 | a line that is not filtered out becomes the newest entry |
| History.StripEol | src/history.c:57-61 | at most one trailing LF or CR is removed |
| History.LoadSpec | src/history.c:56-69 | the log stays within 15 entries |
| History.StripAll | src/history.c:57-61 | each line loses its line ending |
| History.LoadKeepsLast | src/history.c:56-69 | loading leaves the last 15 of the old log followed by the file's lines without their endings, unfiltered |
| History.Log.Entries | src/history.c:62 | never more than 15 entries |
| History.Log.constructor | src/history.c:62 | an empty log |
| History.Log.Store | src/history.c:88-94 | the entries afterwards are `Push` of the old entries and the line |
| History.Log.DropOldest | src/history.c:88-92 | the shift loop drops the oldest entry and keeps the order |
| History.Log.AddIfNeeded | src/history.c:84-94 | the entries afterwards are `AddSpec` of the old ones |
| History.Log.Load | src/history.c:51-71 | the entries afterwards are `LoadSpec` of the old ones and the file's lines |
| Input.Signed | src/input.c:38 | a byte read into a signed `char`: -128..127, and itself below 128 |
| Input.Erase | src/input.c:69-86 | three bytes of echo per character erased |
| Input.LineEditor.constructor | src/input.c:31 | the static buffer of 2048 bytes |
| Input.Escape | src/input.c:60-90 | an escape sequence keeps the line within the buffer and the history index within the log |
| Input.Step | src/input.c:39-97 | one byte either returns after consuming itself, with the current line, or goes on further |
| Input.Run | src/input.c:37-98 | a returned line holds at most 2047 bytes |
| Input.PrintableStep | src/input.c:92-96 | a printable byte is appended and echoed while there is room |
| Input.EnterStep | src/input.c:44-46 | CR or LF returns exactly the line typed so far and echoes a newline |
| Input.TypedLine | src/input.c:30-103 | printable text of at most 2047 bytes then LF is returned verbatim and echoed as typed |
| Input.CtrlD | src/input.c:54-59 | Ctrl-D on an empty line returns NULL; on a non-empty line it is ignored |
| Input.Backspace | src/input.c:48-53 | backspace removes the last character with `\b \b`, and does nothing on an empty line |
| Input.HighByteIgnored | src/input.c:92-96 | a byte of 128 or more is negative as a `char` and is ignored |
| Input.OtherEscapeIgnored | src/input.c:60-65 | an escape sequence other than `[A`/`[B` changes nothing |
| Input.EscapeUp | src/input.c:66-74 | up arrow steps back one entry, replaces the line with it and erases the old one |
| Input.EscapeDownAtEnd | src/input.c:84-88 | down arrow at the newest entry empties the line and moves past the log |
| Input.UpRecallsNewest | src/input.c:66-74 | up then Enter on a fresh line returns the newest entry |
| Input.UpDownClears | src/input.c:66-88 | up then down on a fresh line returns an empty line |
| Input.UpWithoutHistory | src/input.c:67 | up with an empty history changes nothing |
| Input.LineEditor.Load | src/input.c:72-73 | copying an entry into the buffer sets `pos` to its length |
| Input.LineEditor.HandleEscape | src/input.c:60-90 | the buffer, `pos`, `hist_idx` and echo afterwards are `Escape` of the old ones |
| Input.LineEditor.ReadLine | src/input.c:30-103 | the result is `ReadLineSpec` of the log and the input, and the buffer holds the line and its NUL |
| Builtins.LookupBuiltin | src/builtins.c:152-164 | None exactly when the word is not one of the 8 built-in names; otherwise the built-in that name stands for |
| Builtins.LookupFrom | src/runner.c:81-82 | the search from entry `j` on |
| Builtins.SkipFlags | src/builtins.c:88-91 | the flag loop only moves forward |
| Builtins.SkipFlagsCount | src/builtins.c:88-91 | it skips exactly the leading `-n` arguments |
| Builtins.EchoWordsJoin | src/builtins.c:93-96 | the printing loop prints the words joined by single spaces |
| Builtins.EchoFormat | src/builtins.c:83-101 | echo drops every leading `-n`, prints the rest joined by single spaces, and ends with a newline exactly when none was dropped |
| Builtins.FirstExecutable | src/builtins.c:128-140 | the first candidate `dir/cmd` that passes the executable test, or None exactly when none does |
| Builtins.FindInPath | src/builtins.c:113-143 | None when PATH is unset; otherwise the first `dir/cmd` (cut to 1023 bytes), over PATH's non-empty `:` entries in order, that passes the test, or None exactly when none does |
| Builtins.WhichOutcome | src/builtins.c:145-177 | status 1 with no argument; a built-in name reports "shell built-in command" with 0 and no PATH search; otherwise the path with 0 or "not found" with 1 |
| Builtins.IndexOf | src/builtins.c:187 | `strchr`: the first occurrence, or None exactly when absent |
| Builtins.SetenvSplit | src/builtins.c:187-216 | `NAME=value` splits at the first `=` into a non-empty name under 256 bytes and the rest; an empty or long name is refused; without `=`, a second argument is required |
| Builtins.SetEntry | src/builtins.c:200-207 | the environment gains at most one entry |
| Builtins.RemoveEntries | src/builtins.c:226 | the environment loses entries only |
| Builtins.SetEntryLookup | src/builtins.c:200-207 | after setenv the variable reads back as the value set, and every other variable as before |
| Builtins.RemoveEntriesLookup | src/builtins.c:226 | after unsetenv the variable is unset, and every other variable reads as before |
| Builtins.Environment.constructor | src/builtins.c:11 | the process environment |
| Builtins.Environment.Setenv | src/builtins.c:180-218 | status 0 exactly when the request parses and the name is valid, and then the variable is set with overwrite; with status 1 the environment is unchanged |
| Builtins.Environment.Unsetenv | src/builtins.c:220-231 | status 0 exactly when there is a valid name argument, and then every entry for it is removed; with status 1 nothing changes |
| Builtins.PwdAfterCd | src/builtins.c:69-81 | after a successful `cd`, `pwd` prints the directory `chdir` landed in with status 0 (for `cd -`, the same line `cd` printed); after a failed `cd` it prints what it printed before |
| Builtins.EnvAfterNewSetenv | src/builtins.c:103-111 | after `setenv` of a variable the environment did not hold, `env` prints the lines it printed before, then `name=value`, with status 0 |
| Builtins.LinesAppend | src/builtins.c:107-108 | one more entry at the end prints one more line at the end |
| Builtins.SetEntryAppends | src/builtins.c:200-207 | setting a variable the environment does not hold appends its `name=value` entry |
| Builtins.CdTarget | src/builtins.c:25-47 | HOME for no argument or `~`, the previous directory for `-`, otherwise the argument |
| Builtins.CdStep | src/builtins.c:15-67 | status 0 exactly when `getcwd` works, a target exists and `chdir` succeeds; then `prev_dir` is the old directory, and `cd -` prints the new one; with status 1 nothing changes |
| Builtins.CdDashTwice | src/builtins.c:35-55 | `cd -` twice returns to the starting directory with `prev_dir` restored |
| Builtins.Directories.constructor | src/builtins.c:12 | `prev_dir` starts NULL |
| Builtins.Directories.ChangeDir | src/builtins.c:15-67 | the directories, status and printed line afterwards are `CdStep` of the old ones |
| Prompt.PathForPrompt | src/prompt.c:11-27 | `?` when `getcwd` fails, else `~` or the directory itself |
| Prompt.AbbreviatedIffHomeOrAncestor | src/prompt.c:17-23 | the path is `~` exactly when the directory is home or an ancestor of home |
| Prompt.InsideHomeShownInFull | src/prompt.c:17-26 | a directory strictly inside home is shown with its full path |
| Prompt.NoHomeNoAbbreviation | src/prompt.c:17-34 | when `init_prompt` could not record a home, no directory is abbreviated |
| Prompt.StartShowsTilde | src/prompt.c:17-34 | in the directory `init_prompt` recorded at start-up, the path is `~` |
| Prompt.PromptRoundTrip | src/prompt.c:36-52 | the prompt ends in `$ ` and starts with the user (`user` by default) and `@`; when the user holds no `@` and the host no `:`, it reads back into exactly the user, the host (`?` by default) and the path of `path_for_prompt` |
| Prompt.ParseBack | src/prompt.c:50 | every `user@host:path$ ` line ends in `$ ` and starts with the user and `@`; when the user holds no `@` and the host no `:`, it reads back into exactly those three fields |

## Left out

- System calls are not executed. `fork`, `pipe`, `open`, `dup2` and `close` act on abstract tables. `setpgid`, `tcsetpgrp` and `waitpid` appear only as fields of the call record (group, waited), with no effect on a terminal or process model.
- Execute.Shell.Pipe: `pipe` is taken to succeed; the source ignores its result as well.
- The child's command itself (src/execute.c:133-140) is not modelled: the built-in shortcuts for `echo`, `pwd`, `env` and `which`, `execvp`, and the "Command not found" exit.
- Signal delivery is not modelled. Asynchronous interruption and `signals_init`'s `sigaction` set-up cannot be expressed. The handlers are sequential steps, and `kill` is reported as the group it targets.
- Signals.Foreground.Clear: `signals_set_fg_pgid(-1, NULL)` (src/execute.c:154, 196) hands `strncpy` a NULL source, which is undefined behaviour. The model clears `fg_pgid` and leaves `fg_cmd` as it was.
- Raw terminal mode (src/input.c:13-28) is not modelled. The `write` calls become the echo string the model returns.
- Input.Step: an escape byte with fewer than two bytes left reads past the input in C. The model treats the input as exhausted there.
- The history file is not modelled: `history_file_path`, `history_save`, `fopen`/`fgets`. `History.Log.Load` takes the file's lines as given, so the 4096-byte splitting of long lines by `fgets` is left out.
- History.Log.Store: requires lines of at most 1023 bytes, since a longer line overflows the 1024-byte slot `strcpy` writes.
- History.Log.AddIfNeeded: requires a command of at most 1023 bytes, for the same reason.
- History.Log.Load: requires each line, without its line ending, to fit the same 1023 bytes.
- `name_of` (src/jobs.c:60) is not part of this model. The notices carry the whole command.
- `atomic` and `valid_cmd_seg` are not part of this model: `atomic` is defined nowhere in the repository, and `valid_cmd_seg` passes it the wrong pointer. Parser takes the segment recogniser as a parameter that only moves the index forward.
- src/main.c is not part of this model. It is the loop that normalises, validates and runs each line.
- Runner.RunSequence: requires at most 127 separators. `cmd[128]` and `bg[128]` (src/runner.c:39-40) have no bound check, and a longer line writes past them.
- Builtins.FindInPath: neither failing `strdup` is modelled. A failed copy of PATH (src/builtins.c:121-125) and a failed copy of the found path (src/builtins.c:134) both make the C code return NULL, so `which` reports "not found"; the model always proceeds and returns the path.
- The diagnostics written to stderr (`perror`, usage texts) are not modelled.
- Execute.StdoutSetup: the message "Unable to create file for writing" that the child prints to its stdout when an output file cannot be opened (src/execute.c:119) is not modelled. Execute.StdoutSetup, Execute.FdTable.OpenOutputs and Execute.FdTable.SetUpStdout record only the exit status 1.
- `getcwd`, `gethostname`, `getenv`, `chdir` and `access` are parameters, so their own failure modes are only what the parameters say.

## Findings

| source | as written | input that shows it | evidently intended | confidence | as-written member | corrected member |
|---|---|---|---|---|---|---|
| src/runner.c:13-18 | `split_words` stores up to 64 words into the `char *args[64]` of src/runner.c:90, then writes `args[n] = NULL` | a built-in segment of 64 words, such as `echo a a ... a` (63 `a`s) | room for the terminator after 64 words: 65 slots, or at most 63 words | not executed | Runner.SixtyFourWordsOverrun | Runner.SplitWords |
