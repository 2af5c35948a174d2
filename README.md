# Process control and interval timer of the ATLAS toolkit, in Dafny

This project models the operating-system-independent core of two ATLAS
pieces. Each part is proved against a specification.

- **`SpawnArgs`** (`spawn_args.dfy`) models the argument vector that the
  POSIX `spawnProcess` builds before `execv`:
  - `execName` goes at index 0;
  - the tokens that `strtok_r` cuts from the parameter string at spaces follow;
  - a NULL entry comes last.

  The loop is an imperative method over an array. It is proved equal to a
  specification function `Argv`. The tokenizer is proved equal to an
  independent "split at every space, drop empty fields" definition. It is
  also proved a left inverse of joining words with single spaces.
- **`ProcessStatus`** (`process_status.dfy`) models both `getProcessStatus`
  bodies as pure decision tables. Each one maps the status query's reply to
  a return code (1 running, 0 ended, -1 query failed). It also gives the
  value stored through the optional `exitCode` pointer (`None` when the
  pointer is NULL).
- **`IntervalTimer`** (`timer.dfy`) models `atTimer` as a class. Its fields
  are `markTime` and `markInterval`. Every operation that reads the clock
  takes the reading as a parameter, and times are exact reals. Each method
  is specified by a function on a `TimerState` value. The proved
  properties of those functions include:
  - conservation of mark time;
  - bounds;
  - monotonicity;
  - queries not disturbing the state;
  - the absence of drift under `markAtInterval`.
- **`Wrappers`** (`wrappers.dfy`) holds the `Option` type that stands for a
  nullable pointer.

The timer follows the code at util/atTimer.c++:59: `markAtInterval` takes
the capped branch when the elapsed time is greater than `intervalTime`.
It then advances `markTime` by exactly `intervalTime` and reports
`intervalTime`; otherwise it acts like `mark()`. The lemmas
`MarkAtIntervalCapped`, `MarkAtIntervalUncapped` and `NoDrift` state this.

## Model

| member | source | states |
|---|---|---|
| `SpawnArgs.NextToken` | os/atSpawn.c++:163 | One `strtok_r(·, " ", &save)` call gives either NULL or a token together with a save index that lies strictly past the old one and within the string. |
| `SpawnArgs.NextTokenNoneIffBlank` | os/atSpawn.c++:163-164 | `strtok_r` returns NULL exactly when only spaces remain after the save index. |
| `SpawnArgs.NextTokenIsWord` | os/atSpawn.c++:170 | Every token `strtok_r` returns is nonempty and contains no space. |
| `SpawnArgs.StrTok` | os/atSpawn.c++:170 | One call as the loop makes it. NULL means no tokens remain. Otherwise the entry is the first remaining token, and the rest are the tokens after the new save index. |
| `SpawnArgs.TokensFromAreFields` | os/atSpawn.c++:163-170 | The tokens from a save index equal the string's fields (split at every space) with the empty fields removed. |
| `SpawnArgs.TokensAreNonEmptyFields` | os/atSpawn.c++:163-170 | The tokens of the whole string are its nonempty space-separated fields in left-to-right order. So runs of spaces, leading spaces and trailing spaces produce nothing. |
| `SpawnArgs.TokensAreWords` | os/atSpawn.c++:163-170 | No produced token is empty or contains a space. |
| `SpawnArgs.NoTokensIffBlank` | os/atSpawn.c++:163-164 | There are no tokens exactly when the string is empty or all spaces. |
| `SpawnArgs.TokensKeepCharacters` | os/atSpawn.c++:163-170 | The tokens, concatenated in order, are exactly the non-space characters of the string, in order. |
| `SpawnArgs.TokensOfJoin` | os/atSpawn.c++:163-170 | Tokenizing words joined by single spaces gives back exactly those words. |
| `SpawnArgs.BuildArgv` | os/atSpawn.c++:159-171 | The loop as written. `numParams` is 1 + the number of tokens. `params[0..numParams]` is the executable name, then the tokens in order, then NULL. Entries after that are untouched. This is stated for arrays with room for tokens + 2 entries. |
| `SpawnArgs.BuildArgvChecked` | os/atSpawn.c++:159-171 | The same loop with a bound check. It succeeds exactly when tokens + 2 entries fit, and then leaves the same array as `BuildArgv`. On failure it has written nothing if the array has fewer than 2 entries; otherwise `numParams` is the last index and the whole array holds the first argv entries over the original contents. |
| `SpawnArgs.ArgvShape` | os/atSpawn.c++:161-171 | The argv has tokens + 2 entries: `execName`, each token at its own index in order, and NULL right after the last token. |
| `SpawnArgs.BlankArgv` | os/atSpawn.c++:161-164 | An empty or all-space parameter string gives just `[execName, NULL]`. |
| `SpawnArgs.ArgvOverflowWitness` | os/atSpawn.c++:148-170 | A string of 1023 one-letter words has 1023 tokens and needs 1025 argv entries, one more than `params[1024]` holds. |
| `ProcessStatus.PosixStatus` | os/atSpawn.c++:210-271 | The return code is 1 exactly when waitpid returns 0, -1 exactly when it returns a negative value, and 0 exactly when it reaps the child. A value is stored exactly when the pointer is non-NULL, and it is 0 in the running and failed cases. |
| `ProcessStatus.PosixReapedExitCode` | os/atSpawn.c++:237-269 | For a reaped child the stored code depends on how it ended. A normal exit gives 0 when the status word is 0 and the exit status otherwise. A signal gives the signal number. Any other state gives 0. |
| `ProcessStatus.PosixExitedReportsExitStatus` | os/atSpawn.c++:237-253 | If the wait macros decode consistently, a normal exit always reports its exit status, which lies in 0..255. |
| `ProcessStatus.PosixSignalLooksLikeExit` | os/atSpawn.c++:249-260 | "Killed by signal n" and "exited with status n" give the caller identical results. |
| `ProcessStatus.PosixOtherLooksLikeCleanExit` | os/atSpawn.c++:262-268 | A state that is neither an exit nor a signal reads exactly like a clean exit. |
| `ProcessStatus.PosixNullPointer` | os/atSpawn.c++:220-269 | With a NULL `exitCode` nothing is stored, and the return code equals the non-NULL case's. |
| `ProcessStatus.AsInt32` | os/atSpawn.c++:88 | The DWORD→int cast gives a 32-bit value congruent to the code modulo 2^32. Codes below 2^31 are kept unchanged. |
| `ProcessStatus.AsInt32RoundTrip` | os/atSpawn.c++:88 | The cast and the two's-complement encoding back into a DWORD are mutually inverse. |
| `ProcessStatus.AsInt32Injective` | os/atSpawn.c++:88 | Distinct DWORD exit codes are stored as distinct ints. |
| `ProcessStatus.WindowsStatus` | os/atSpawn.c++:68-99 | The return code is -1 exactly when GetExitCodeProcess fails, 1 exactly when the code is STILL_ACTIVE (259), and 0 otherwise. A value is stored exactly when the pointer is non-NULL. That value is -1 on failure and 0 while running. |
| `ProcessStatus.WindowsEndedExitCode` | os/atSpawn.c++:84-90 | An ended process reports return code 0 and its exit code cast to int. Encoding that value back as a DWORD gives the original code. |
| `ProcessStatus.WindowsTerminatedReadsMinusOne` | os/atSpawn.c++:107-112 | A process ended by `TerminateProcess(p, -1)` reads as ended with code -1. A failed query stores the same -1, and only the return code tells the two apart. |
| `ProcessStatus.WindowsExit259LooksRunning` | os/atSpawn.c++:77-82 | A process that exited with code 259 is reported as running. |
| `ProcessStatus.WindowsNullPointer` | os/atSpawn.c++:74-98 | With a NULL `exitCode` nothing is stored, and the return code equals the non-NULL case's. |
| `IntervalTimer.Timer.constructor` | util/atTimer.c++:8-17 | `markTime` starts at 0, then two marks at `first` and `second` leave `markTime == second` and `markInterval == second - first`. |
| `IntervalTimer.Timer.Mark` | util/atTimer.c++:25-41 | The new state is `Marked(old state, now)`: the interval since the last mark, and the mark moved to `now`. |
| `IntervalTimer.Timer.MarkAtInterval` | util/atTimer.c++:44-72 | The code form `now - (elapsed - intervalTime)` leaves exactly `MarkedAtInterval(old state, now, intervalTime)`. |
| `IntervalTimer.Timer.GetInterval` | util/atTimer.c++:75-78 | Returns `markInterval`. It has no modifies clause, so it changes no field. |
| `IntervalTimer.Timer.GetElapsed` | util/atTimer.c++:81-92 | Returns `now - markTime`, which is nonnegative when the clock has not gone back. It changes no field. |
| `IntervalTimer.Marked` | util/atTimer.c++:36-40 | After a mark, `markTime` is `now` and equals the old `markTime` plus the new `markInterval`. |
| `IntervalTimer.MarkedAtInterval` | util/atTimer.c++:56-71 | After `markAtInterval`, `markInterval <= intervalTime` and `markTime <= now`. The new `markTime` is the old one plus the reported interval. |
| `IntervalTimer.MarkAtIntervalCapped` | util/atTimer.c++:59-65 | When more than `intervalTime` has elapsed, the state becomes `(old markTime + intervalTime, intervalTime)`. The time elapsed at `now` then drops by exactly `intervalTime` and stays positive. |
| `IntervalTimer.MarkAtIntervalUncapped` | util/atTimer.c++:66-71 | When at most `intervalTime` has elapsed, `markAtInterval` leaves exactly the state `mark` leaves. |
| `IntervalTimer.MarksDoNotGoBack` | util/atTimer.c++:37-70 | If `intervalTime >= 0` and the clock has not gone back, neither kind of mark decreases `markTime` or reports a negative interval. |
| `IntervalTimer.ConstructionForgetsPrior` | util/atTimer.c++:11-16 | The two initial marks give `(second, second - first)` whatever the interval field held before. |
| `IntervalTimer.Step` | util/atTimer.c++:25-92 | Calls of `getInterval` and `getElapsed` leave the state unchanged. Every mark moves `markTime` by exactly the interval it reports. |
| `IntervalTimer.QueriesDoNotDisturb` | util/atTimer.c++:75-92 | Removing every `getInterval`/`getElapsed` call from a run does not change the final state. So queries between marks never affect a later `getInterval`. |
| `IntervalTimer.MarkTimeIsSumOfIntervals` | util/atTimer.c++:37-71 | After any run, `markTime` is the starting `markTime` plus the sum of the intervals the marks reported. |
| `IntervalTimer.NoDrift` | util/atTimer.c++:59-64 | After k capped `markAtInterval(intervalTime)` calls, `markTime` is exactly k intervals past its start, however late each call came, and the reported interval is `intervalTime`. |

## Left out

- `fork`, `execv`, `chdir`, `_Exit`, and the parent/child split of the POSIX `spawnProcess` (os/atSpawn.c++:154-207). These are process creation, with no result beyond "a pid or 0".
- `CreateProcess` and `CloseHandle` in the Windows `spawnProcess`, and the `fullCmdLine` `sprintf` (os/atSpawn.c++:35-65). They are foreign calls, plus one unchecked concatenation passed to them.
- `exitProcess` and `killProcess` on both platforms (os/atSpawn.c++:101-126, 273-297). They only return whether `kill` or `TerminateProcess` succeeded. The Windows versions issue `TerminateProcess` twice. That call's effect on the exit code is what `WindowsTerminatedReadsMinusOne` states.
- The empty Android branch (os/atSpawn.c++:128-130), and the `printf`/`perror` diagnostics.
- `malloc`, `strcpy` and `free` of the parameter copy. A C string is modelled as the characters before its terminator. `strtok_r` overwrites each delimiter it stops at with a NUL, and its tokens are pointers into the copy. The model yields the tokens as values, so that overwriting and the aliasing between argv and the copy are not modelled.
- The bit layout behind `WIFEXITED`, `WEXITSTATUS`, `WIFSIGNALED` and `WTERMSIG`, which is platform-defined. The reply arrives already decoded. `WellDecoded` states the one consistency fact that the `status == 0` test relies on.
- `waitpid` and `GetExitCodeProcess` themselves. Their replies are parameters. The POSIX version passes the handle straight to `waitpid` (os/atSpawn.c++:217), so the handle 0 that a failed spawn returns asks about any child in the caller's process group rather than reading as an error; the abstract reply does not show this.
- AsInt32: casting a DWORD above `INT_MAX` to `int` is implementation-defined before C++20. It is modelled as the two's-complement wrap every supported compiler performs.
- `gettimeofday` and the conversion to `double` seconds (util/atTimer.c++:31-34, 50-53, 87-88). The clock reading is a parameter, and arithmetic is on exact reals, so rounding is not modelled.
- The destructor of `atTimer`, which does nothing.
- BuildArgv: the as-written loop is specified only for arrays with room for tokens + 2 entries. Dafny arrays cannot be written out of bounds, so the overflow itself is shown by `ArgvOverflowWitness` and corrected in `BuildArgvChecked` (see Findings).

## Findings

| source | as written | input that shows it | evidently intended | confidence | as-written member | corrected member |
|---|---|---|---|---|---|---|
| os/atSpawn.c++:148-170 | The loop stores into `params[numParams]` for `numParams` up to tokens + 1 and never compares that index with the size of `params[1024]`. More than 1022 tokens write past the array. | The parameter string made of 1023 words `a` separated by single spaces. It has 1023 tokens, so the loop's final NULL goes to `params[1024]`. | Stop before the array is full and report failure, instead of writing past its end. | not executed | `SpawnArgs.ArgvOverflowWitness` (as-written loop: `SpawnArgs.BuildArgv`) | `SpawnArgs.BuildArgvChecked` |
