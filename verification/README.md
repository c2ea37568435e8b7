# rig core, modelled in Dafny

rig is an interactive setup tool for Debian-style hosts. It runs a
bootstrap installer, asks which tools to install, runs their installers
through one command runner, and prints a summary. This project models
the core of that flow as pure functions over immutable data and proves
properties of it. The core covers:

- **Runner** (`utils/runner.py`). Covers:
  - the sudo availability check and the sudo gate;
  - the `sudo` prefix;
  - the rewrite of apt command vectors (`-qq`, `-o APT::Status-Fd=/dev/null`);
  - the forced apt environment;
  - the choice among four ways of wiring the child's streams;
  - the line filter of the streamed apt mode;
  - how the result or exception is shaped.
- **Errors** (`utils/errors.py`). The `RigError` family: each constructor's message and remediation suggestion.
- **ShellConfig** (`utils/shell_config.py`). Covers:
  - shell detection;
  - choosing the start-up file;
  - appending a PATH export unless an equivalent line is already present;
  - the whole `update_shell_config` step over a home directory modelled as a map from file name to file state.
- **Zsh** (`installers/zsh.py`). The installed check: a `zsh --version` run through the Runner model, then the login shell read from the text of `/etc/passwd`. Also the install steps, including the `/usr/bin/zsh` fallback and `chsh` run without sudo.
- **Setup** (`main.py`). The session: bootstrap first and alone, one question per tool not yet installed, the chosen installers in menu order with interrupt and exception handling, and the summary table with its tallies.

Modules:

- `Wrappers`: `Option` for Python `None` and `Result` for a raised exception. Also the truthiness of an optional string.
- `Text`: the `str` operations the code uses. `rstrip`, `strip`, `lower` and `split` carry contracts that characterise their results. `join` and `str(int)` are plain definitions, each tied to an inverse by a lemma: `split` undoes `join`, and parsing undoes `str(int)`. Substring `in` is a predicate, with lemmas for the cases the code relies on.
- `Types`: `InstallerResult` from `utils/types.py`.
- `AptArgs`, `Runner`, `Errors`, `ShellConfig`, `Zsh`, `Setup`: one per source file, as listed above.

Subprocesses, files, environment variables, user answers and installer
outcomes are parameters. Examples: a `Probe` for each `sudo` probe, a
`Spawn` for what the child did, a `map` for the home directory, and a
`Choice` per menu entry. Each function computes what the source does
with those inputs.

Three behaviours of the source are modelled as written and shown by lemmas:

- The benign-warning test in the streamed reader compares
  "apt does not have a stable CLI interface" against the lower-cased line.
  The needle has an upper-case `C`, so the test never succeeds
  (`Runner.BenignWarningNeverMatches`). That warning line is kept and,
  because it contains "warning", it is shown as an error.
- The apt index is computed once, before `-qq` is inserted. For a vector
  without sudo such as `["install", "apt"]`, both insertions therefore land
  in front of `apt` (`AptArgs.InstallBeforeAptMovesToken`). In every other
  case the apt token keeps its index (`AptArgs.AptTokenStays`).
- `-o APT::Status-Fd=/dev/null` goes right after `apt` and its leading
  flags, which is in front of the sub-command (`AptArgs.SudoAptInstallExample`).

## Model

| member | source | states |
|---|---|---|
| Runner.SudoAvailable | utils/runner.py:25-40 | sudo counts as available exactly when `sudo -n true` exits 0, or exits non-zero while `which sudo` exits 0; a timeout or a missing binary in either probe means unavailable; another start failure escapes the check (`SudoCheckRaises`) |
| Runner.SudoGateComesFirst | utils/runner.py:25-72 | without usable sudo, an elevated run fails before anything is started, whatever the child would have done. The failure is the sudo-unavailable error, or the escaped probe exception when a probe failed to start |
| Runner.Prepare | utils/runner.py:25-133 | preparation succeeds exactly when sudo is usable and the second probe exits (or no sudo is asked for) and the vector is non-empty. An escaped probe exception, an unusable sudo and an empty vector each give their own failure; the unusable-sudo failure carries the source's fixed "sudo is required but not available …" message. On success the vector run is the apt rewrite of the caller's vector with `sudo` in front: a supersequence with at most three tokens added and the same first token. Mode and environment follow the apt test, and the password notice appears exactly when the second probe exits non-zero |
| Runner.ElevatedRunPrefixesSudo | utils/runner.py:89 | an elevated run executes `sudo` followed by the caller's vector, with at most the three apt tokens added |
| Runner.ChildEnv | utils/runner.py:129-133 | a copy of the caller's environment; for apt commands exactly the two front-end variables are added or overridden, every other variable is unchanged |
| Runner.EnvOverridesOnlyForApt | utils/runner.py:93-98 | only a vector whose first or second token is `apt` gets the front-end overrides |
| Runner.ChooseIoMode | utils/runner.py:137-223 | each of the four stream wirings is chosen by exactly one combination of sudo, capture and apt |
| Runner.BenignWarningNeverMatches | utils/runner.py:163 | the benign-warning needle is never found in a lower-cased line |
| Runner.KeptLines | utils/runner.py:158-165 | the reader keeps exactly the right-stripped form of every line that is not blank after stripping, in order; equal to the front-to-back filter `NonBlankStripped` |
| Runner.Flagged | utils/runner.py:169-173 | the echoed lines are exactly the lines carrying an error marker, in order and with repeats, as the front-to-back filter `MarkedLines` gives them |
| Runner.MarkedLinesSnoc | utils/runner.py:167-173 | appending a line to the reader's input appends it to the echoed lines exactly when it carries a marker |
| Runner.KeptLinesShape | utils/runner.py:160-161 | every kept line is non-empty and already right-stripped |
| Runner.FlaggedIsOrderedSublist | utils/runner.py:169-173 | the lines shown as errors are an ordered sub-list of the kept lines; each carries an error marker, and every kept line with a marker is among them |
| Runner.ReadOutput | utils/runner.py:158-173 | the reader loop returns the non-blank stripped lines and, of those, the ones carrying a marker |
| Runner.Execute | utils/runner.py:135-241 | a result exactly when the child ran and `check` is off or the exit code is 0. A missing binary raises "Command not found" naming the first token run, and another start failure is re-raised after the unexpected-error message with the command line is logged. With `check`, a non-zero exit raises `CalledProcessError` carrying the code, the vector and the captured stdout, after the failure log is written and, when streamed, after the marked kept lines are echoed. A result carries the exit code; its stdout is the joined kept lines when streamed, the whole text when capturing, and absent when the streams are inherited; its shown errors are the marked kept lines when streamed |
| Runner.FailureLog | utils/runner.py:229-234 | the failure log starts with the command line and the exit-code label. With non-empty stderr it ends with the stderr part; otherwise, with non-empty output, it ends with the output part. In every case the text between the label and the output-then-stderr tail reads back as the same exit code |
| Runner.CapturedStdout | utils/runner.py:188-223 | the stdout handed back is the kept lines joined by newlines when streamed and the whole merged text when capturing; it is absent exactly when the streams are inherited |
| Runner.Run | utils/runner.py:43-241 | `run` returns exactly when preparation succeeds and the child exits with a code that `check` accepts. A preparation failure is returned unchanged. After a successful preparation, starting the rewritten vector in the mode chosen from the sudo, capture and apt tests behaves as `Runner.Execute` states: a missing binary names `sudo` or the caller's program, another start failure is re-raised with the rewritten command line logged, and a rejected exit code raises `CalledProcessError` with that vector, the mode's stdout, the failure log and the echoed lines. A result carries the rewritten vector, the child's exit code, the stdout of the chosen mode and the echoed lines |
| Runner.MissingBinaryNamesProgram | utils/runner.py:238-241 | a missing binary is reported by `sudo` for elevated runs, otherwise by the caller's program |
| Runner.StreamedRunOutput | utils/runner.py:188-197 | in the streamed mode the returned stdout is the non-blank stripped lines joined by newlines, and the shown errors are those among them that carry a marker |
| Runner.CheckDecidesRaise | utils/runner.py:196-197 | a `CalledProcessError` is raised exactly when `check` is set and the exit code is non-zero |
| Runner.SudoAptUpdateScenario | utils/runner.py:89-133 | `sudo apt update` with passwordless sudo runs `sudo apt -qq -o APT::Status-Fd=/dev/null update` in the streamed mode with the non-interactive front end |
| AptArgs.AptIndex | utils/runner.py:93-98 | an apt position is found exactly when the first or second token is `apt`; it is 0 or 1, it points at an `apt` token, and it is 0 exactly when the first token is `apt` |
| AptArgs.Normalize | utils/runner.py:91-121 | the rewrite only inserts: the input is a subsequence of the output, at most three tokens are added, and the first token is never changed; a vector that is not an apt command passes through unchanged |
| AptArgs.NormalizeMember | utils/runner.py:100-121 | a token is in the rewritten vector exactly when it was in the input, or is `-qq` and a quiet flag was due, or is one of the two status tokens and `-o` was absent |
| AptArgs.NormalizeLength | utils/runner.py:100-121 | the rewrite adds one token for `-qq` when it is due and two for the status option when `-o` is absent, and nothing else |
| AptArgs.NormalizeIdempotent | utils/runner.py:91-121 | rewriting an already rewritten vector changes nothing |
| AptArgs.QuietAfterAptOnUpdate | utils/runner.py:103-106 | with `update` present and no quiet flag, `-qq` sits right after the apt token |
| AptArgs.QuietAfterFirstInstall | utils/runner.py:107-110 | with `install` present, no `update` and no quiet flag, `-qq` sits right after the first `install` of the result |
| AptArgs.NoQuietWithoutSubcommand | utils/runner.py:103-110 | with neither `update` nor `install`, no `-qq` is added |
| AptArgs.StatusOptionPlacement | utils/runner.py:113-121 | when `-o` is absent, `-o APT::Status-Fd=/dev/null` is inserted after the apt token and the run of flags that follows it, before the first non-flag token |
| AptArgs.AptTokenStays | utils/runner.py:93-110 | unless the vector starts with `install`, the apt token keeps its index after the rewrite |
| AptArgs.InstallBeforeAptMovesToken | utils/runner.py:93-121 | `["install", "apt"]` becomes `["install", "-qq", "-o", "APT::Status-Fd=/dev/null", "apt"]`, which no longer has an apt token at index 0 or 1 |
| AptArgs.SudoAptInstallExample | utils/runner.py:100-121 | `sudo apt install -y zsh` becomes `sudo apt -o APT::Status-Fd=/dev/null install -qq -y zsh` |
| Errors.NewRigError | utils/errors.py:9-12 | the exception's string is the message; the suggestion is kept as given |
| Errors.NewNetworkError | utils/errors.py:18-24 | the suggestion always starts with the connection advice; a non-empty URL can be read back after "URL: ", an empty or missing one adds nothing |
| Errors.NewPermissionError | utils/errors.py:30-36 | the suggestion starts with the privileges advice; a non-empty command can be read back after "sudo ", otherwise the generic sudo hint follows |
| Errors.PackageManagerSteps | utils/errors.py:43-51 | two steps without a package and four with one; the update step comes first and the locked-files step last; the package can be read back from the search and manual-install steps |
| Errors.NewPackageManagerError | utils/errors.py:42-54 | the suggestion is the steps joined by " \| ", so it starts with the update step and ends with the locked-files step |
| Errors.NewCommandNotFoundError | utils/errors.py:60-64 | the command can be read back from both the message and the install suggestion |
| Errors.NewInstallationError | utils/errors.py:70-84 | non-empty recovery steps win; otherwise a non-empty tool gives the manual-install template from which the tool reads back; otherwise the logs hint; missing steps are stored as an empty list |
| Errors.NewValidationError | utils/errors.py:90-93 | a non-empty field reads back from the suggestion; otherwise the generic input hint |
| Errors.NewConfigurationError | utils/errors.py:99-105 | a non-empty config file reads back from the suggestion; otherwise the generic permissions hint |
| ShellConfig.DetectShell | utils/shell_config.py:14-42 | the answer is always `zsh` or `bash`; it is `zsh` exactly when `$SHELL` mentions zsh, or mentions neither shell while the passwd shell mentions zsh |
| ShellConfig.FirstExisting | utils/shell_config.py:58-61 | the position returned holds an existing file and no earlier candidate exists; no position means no candidate exists |
| ShellConfig.ConfigFileFor | utils/shell_config.py:45-73 | a file is chosen exactly for `zsh` and `bash`; it is one of that shell's candidates; it is the first existing one, or the first candidate when none exists |
| ShellConfig.Chosen | utils/shell_config.py:145-153 | the file the PATH setup works on is always one of the candidate start-up files of the detected shell |
| ShellConfig.AddEntry | utils/shell_config.py:93-117 | an entry is added exactly when none of the six accepted forms occurs. The old text is a prefix of the new, and the new text ends with the marker comment and the export and contains the export. Exactly one newline is inserted after non-empty unterminated text, and none otherwise |
| ShellConfig.AddToPath | utils/shell_config.py:76-130 | `true` exactly when the file is readable or missing, no accepted form is present and the write succeeds; on `false` the file is unchanged; on `true` the new content extends the old one, contains the export, and is exactly the text `AddEntry` builds from the old content |
| ShellConfig.AddEntryIdempotent | utils/shell_config.py:93-111 | after an entry is added, adding it again reports `false` and changes nothing |
| ShellConfig.AlternativeFormCounts | utils/shell_config.py:99-111 | a bare `PATH=<dir>:$PATH` anywhere in the file stops the write |
| ShellConfig.UpdateShellConfig | utils/shell_config.py:133-169 | only the chosen start-up file may change, and no other file appears; `true` exactly when adding `$HOME/<dir>` to that file succeeds, and then the file contains the export and is exactly what `AddToPath` writes |
| ShellConfig.ConfigFileAlwaysFound | utils/shell_config.py:150-153 | the "could not determine config file" branch is unreachable after shell detection |
| ShellConfig.UpdateShellConfigIdempotent | utils/shell_config.py:133-169 | running the PATH setup a second time picks the same file, finds the entry and changes nothing |
| Zsh.UserName | installers/zsh.py:26 | a non-empty `USER` wins, otherwise `USERNAME` is used as it is |
| Zsh.FirstLineWith | installers/zsh.py:28-29 | the line returned starts with the prefix and no earlier line does; none returned means no line does |
| Zsh.LoginShellIn | installers/zsh.py:28-31 | no shell exactly when no line starts with `name:`; otherwise the last `:` field of the first such line |
| Zsh.LoginShell | installers/zsh.py:23-31 | on the text of /etc/passwd split at line breaks: no shell exactly when no line starts with `name:`; otherwise the last `:` field of the first such line, which holds no `:` and no line break |
| Zsh.IsInstalled | installers/zsh.py:15-37 | a failed or non-zero version probe means not installed; otherwise installed unless the user's first passwd line has a last field not ending in `/zsh`; no user name or unreadable passwd means installed |
| Zsh.MissingBinaryNotInstalled | installers/zsh.py:17-19 | without a zsh binary the version probe raises through the runner and the answer is "not installed" |
| Zsh.VersionExitDecides | installers/zsh.py:17-19 | the unchecked probe never raises on its exit status; a non-zero code means not installed; code 0 with unreadable passwd means installed |
| Zsh.PasswdExample | installers/zsh.py:28-31 | with lines `r:/bin/sh` and `al:/bin/zsh`, `al` gets `/bin/zsh` |
| Zsh.PasswdFirstLineExample | installers/zsh.py:28-31 | with the same lines, `r` gets `/bin/sh` |
| Zsh.PrefixUserHasNoLine | installers/zsh.py:29 | a name that is only a prefix of another user's name matches no line |
| Zsh.ExamplePasswdLines | installers/zsh.py:23-28 | the example file splits on newlines into its two lines |
| Zsh.ZshPath | installers/zsh.py:50-53 | `/usr/bin/zsh` when `which zsh` raises; otherwise a slice of its output with only whitespace around it and no whitespace at either of its own ends |
| Zsh.Install | installers/zsh.py:39-71 | the apt install is always called first; `chsh` is called second only when it completed, with the chosen path and without sudo; success exactly when both complete; otherwise a failed result carrying the exception's text |
| Zsh.ChangeShellRunsAsGiven | installers/zsh.py:58-62 | `chsh -s <path>` runs exactly as written, with the caller's environment, without sudo and whatever sudo's state |
| Zsh.AptInstallElevated | installers/zsh.py:44-48 | the zsh package install runs through sudo and the apt rewrite in the streamed mode |
| Text.Split | installers/zsh.py:28 | at least one piece; no piece contains the separator; joining the pieces with it gives the input back |
| Text.SplitJoin | installers/zsh.py:28 | splitting the join of separator-free pieces gives the pieces back, so split and join are inverse |
| Text.LastField | installers/zsh.py:30 | the last field has no separator, is a suffix, and is the whole line or follows a separator |
| Text.LastFieldUnique | installers/zsh.py:30 | any separator-free suffix that is the whole line or follows a separator is the last field |
| Text.Lower | utils/runner.py:169 | lower-casing keeps the length and lowers each character on its own |
| Text.Strip | installers/zsh.py:51 | the result is a slice of the input with only whitespace before and after it and no whitespace at its own ends |
| Text.RStrip | utils/runner.py:160 | the result is a prefix, does not end in whitespace, and only whitespace was removed |
| Text.IntToStringRoundTrip | utils/runner.py:230 | the exit code printed in a message reads back as the same integer |
| Setup.Selection | main.py:268-277 | the selected positions are increasing, each is not installed and was wanted, and every such position after the bootstrap is selected |
| Setup.Entry | main.py:299-310 | a returned result is recorded unchanged; a raised exception is recorded as a failure whose error is its text and whose message reads back the text after "Unexpected error: " |
| Setup.InstallSelected | main.py:287-310 | the installers called are a prefix of the selection; without interrupt all are called and all recorded; with one, the interrupted one is last and is not recorded; each record matches its call |
| Setup.AfterBootstrap | main.py:266-313 | after a good bootstrap, the session selects nothing exactly when no entry is offered, and otherwise installs and summarises. The calls after the bootstrap are a prefix of the selection, and all of it when no selected installer is interrupted, with one record per call. The loop stops early only at an interrupt: when every call has a record the whole selection was called, and a missing record means the last call was interrupted. Records and calls line up one for one |
| Setup.Run | main.py:246-313 | the bootstrap is called first. A bootstrap that raises or is interrupted escapes with nothing recorded, and a failing one ends the session with only its result. Nothing is selected exactly when no entry is offered. Later calls follow the selection in menu order; every offered entry is called and recorded when none interrupts. The loop stops early only at an interrupt: when every call has a record, so a call that returned or raised was followed by the rest, the whole selection was called; a missing record means the last call was interrupted. Record `k` comes from call `k` |
| Setup.InstalledNeverReinstalled | main.py:270-274 | an entry that is already installed is never called, whatever the user would answer |
| Setup.InterruptStopsInstalls | main.py:303-305 | an interrupted install is the last call, records nothing, and the summary still follows |
| Setup.RowMessage | main.py:223-226 | the message cell starts with the message; a short error reads back whole between " (" and ")"; a longer one reads back as its first 50 characters before "...)" |
| Setup.ShowSummary | main.py:206-241 | one row per result in order with its success status and message cell; the success tally counts the successful results; the two tallies add up to the total |
| Setup.SuccessesAppend | main.py:216-222 | the success tally of two record lists together is the sum of their tallies |
| Setup.AllSucceededNoFailures | main.py:216-222 | when the bootstrap and every installer succeed, the summary shows no failure |

## Left out

- Process creation, terminal I/O, the reader thread and `join(timeout=1)`: the lines the child prints are a parameter. A reader thread still running after the one-second join can lose trailing lines; that loss is not modelled.
- Console and log-file output (`rich` printing, `SetupLogger`): neither affects a result. The log text before a re-raised `CalledProcessError` is modelled as a string, and the error lines echoed in the streamed mode are modelled as a sequence on both the result and the error.
- The `TimeoutExpired` handler of `run` (utils/runner.py:225-228): none of the calls it guards passes a timeout, so it cannot be reached.
- Runner.Run: the child's environment and the password notice are stated on `Runner.Prepare`, not on the result, because the returned `CompletedProcess` carries neither.
- Runner.Prepare: two kinds of probe exception escape `run`. One is an `OSError` other than `FileNotFoundError` from either probe of `_check_sudo_available` (utils/runner.py:26-39). The other is any exception from the second `sudo -n true` probe (utils/runner.py:75-79), which is outside the handlers. Both are modelled only as the distinct failure `ProbeRaised`, not as the particular exception.
- Runner.Prepare: an empty vector without sudo fails at `command[0]` before any handler (utils/runner.py:94). It is modelled as the failure `EmptyCommand`, not as the `IndexError` itself.
- `CalledProcessError.stderr`: every mode either merges stderr into stdout or leaves it uncaptured. `Runner.Execute` therefore passes no stderr to `Runner.FailureLog`, and the "Stderr" part is never produced in a run.
- Unicode case mapping: `Text.Lower` lowers ASCII letters only. Every needle searched in lower-cased text ("zsh", "bash", the error markers) is ASCII. Python's full `lower()` turns only U+0130 and U+212A into ASCII letters: U+0130 gives an `i` followed by a combining dot, and U+212A gives a `k`. No needle ends in `i` or contains `k`, so the substring answers agree.
- Zsh.IsInstalled: decoding errors and other exceptions from reading `/etc/passwd` are covered by an unreadable file (`None`). `str.split` itself cannot raise.
- Zsh.Install and Setup.Entry: the text of a caught exception (`str(e)`) is a parameter. It is not rendered from the runner's error values, because Python's `repr` of an argument list is not modelled.
- ShellConfig.AddToPath: a write that fails part-way is modelled as leaving the file unchanged. A real `write_text` may leave it truncated.
- ShellConfig.UpdateShellConfig: the generic `except Exception` would only catch failures of the above (`Path.home()`, encoding errors). Those are not modelled; `Path.home()` is the map's root.
- The prompts themselves, `is_installed` raising inside the selection loop, and `KeyboardInterrupt` from `Confirm.ask`: such exceptions propagate out of `run` and are left out. Setup models the answers as fields of each `Choice`, and a bootstrap that raises as `Escaped`.
- The other installers and `installers/__init__.py`: only their outcome (`Choice.outcome`) matters to the session.
- `main()` and the final messages after the summary: printing only.
