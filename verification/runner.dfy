/** `CommandRunner` of utils/runner.py: the sudo gate, the `sudo` prefix,
    the apt rewrite and environment, the choice of I/O strategy, the
    filter on streamed output, and the shape of results and exceptions.
    Probe results, the child's exit code and the lines it writes are
    parameters; nothing is spawned. */
module Runner {
  import opened Wrappers
  import opened Text
  import opened AptArgs

  // ---------------------------------------------------------------------
  // Sudo availability

  /** What one probe subprocess did: exited with a code, ran past its
      timeout, could not be started because the binary is missing, or
      failed to start with another `OSError` (a `PermissionError`, say). */
  datatype Probe = Exited(code: int) | TimedOut | Missing | Errored

  /** `_check_sudo_available` catches time-outs, a failing `which` and a
      missing binary only; any other `OSError` from a probe it runs leaves
      it, and `run`, as an exception. */
  predicate SudoCheckRaises(nonInteractive: Probe, which: Probe) {
    nonInteractive.Errored? || (nonInteractive.Exited? && nonInteractive.code != 0 && which.Errored?)
  }

  /** `_check_sudo_available`: `sudo -n true` exiting 0 suffices; otherwise
      `which sudo` must exit 0. A timeout or a missing binary on either probe,
      or a non-zero `which`, means unavailable; `which` is only consulted when
      the first probe exited. The answer matters only when the check does
      not raise (`SudoCheckRaises`). */
  function SudoAvailable(nonInteractive: Probe, which: Probe): (ok: bool)
    ensures ok <==> nonInteractive == Exited(0) || (nonInteractive.Exited? && which == Exited(0))
  {
    match nonInteractive
    case Exited(code) => code == 0 || which == Exited(0)
    case _ => false
  }

  // ---------------------------------------------------------------------
  // Environment and I/O strategy

  const FrontendVar := "DEBIAN_FRONTEND"
  const ListChangesVar := "APT_LISTCHANGES_FRONTEND"

  /** The child's environment: a copy of the caller's, with the two apt
      front-end variables forced for apt commands only. */
  function ChildEnv(env: map<string, string>, apt: bool): (e: map<string, string>)
    ensures !apt ==> e == env
    ensures apt ==> FrontendVar in e && e[FrontendVar] == "noninteractive"
    ensures apt ==> ListChangesVar in e && e[ListChangesVar] == "none"
    ensures apt ==> e.Keys == env.Keys + {FrontendVar, ListChangesVar}
    ensures forall k :: k in env && k != FrontendVar && k != ListChangesVar ==> k in e && e[k] == env[k]
  {
    if apt then env[FrontendVar := "noninteractive"][ListChangesVar := "none"] else env
  }

  /** How the child's standard streams are wired. */
  datatype IoMode =
    | Streamed              // stdin inherited, stdout+stderr merged into a pipe read line by line
    | InheritedInteractive  // all three inherited, stdin passed explicitly for password prompts
    | MergedCapture         // stderr merged into stdout, collected as one text
    | Inherited             // all three inherited

  function ChooseIoMode(sudo: bool, capture: bool, apt: bool): (m: IoMode)
    ensures m == Streamed <==> sudo && !capture && apt
    ensures m == InheritedInteractive <==> sudo && !capture && !apt
    ensures m == MergedCapture <==> capture
    ensures m == Inherited <==> !sudo && !capture
  {
    if sudo && !capture then (if apt then Streamed else InheritedInteractive)
    else if capture then MergedCapture
    else Inherited
  }

  // ---------------------------------------------------------------------
  // The streamed-output filter

  /** The warning text the filter tries to drop. It is compared against the
      lower-cased line, and it contains upper-case letters. */
  const BenignWarning := "apt does not have a stable CLI interface"

  /** The benign-warning test can never succeed: a lower-cased line has no
      upper-case letter, and the needle has one (the `C` of `CLI`). */
  lemma BenignWarningNeverMatches(line: string)
    ensures !Contains(Lower(line), BenignWarning)
  {
    assert BenignWarning[27] == 'C';
    NoUpperNoMatch(Lower(line), BenignWarning, 27);
  }

  /** The lower-cased line mentions one of the error or warning markers. */
  predicate HasErrorMarker(lowered: string) {
    || Contains(lowered, "error") || Contains(lowered, "failed")
    || Contains(lowered, "warning") || Contains(lowered, "cannot")
    || Contains(lowered, "unable") || Contains(lowered, "e:")
  }

  /** The per-line decision of the reader: right-strip, drop empty lines and
      lines whose lower-case form contains the benign warning. */
  function KeepLine(raw: string): seq<string> {
    var line := RStrip(raw);
    if line != "" && !Contains(Lower(line), BenignWarning) then [line] else []
  }

  /** `output_lines` after reading the lines `raw`. Because the
      benign-warning test never fires, the reader keeps every non-blank
      line, right-stripped. */
  function KeptLines(raw: seq<string>): (kept: seq<string>)
    ensures kept == NonBlankStripped(raw)
    decreases |raw|
  {
    if |raw| == 0 then []
    else
      var init := raw[..|raw| - 1];
      var x := raw[|raw| - 1];
      KeepLineKeepsNonBlank(x);
      NonBlankStrippedSnoc(init, x);
      assert init + [x] == raw;
      KeptLines(init) + KeepLine(x)
  }

  /** The reader keeps a line exactly when it is not blank after stripping. */
  lemma KeepLineKeepsNonBlank(raw: string)
    ensures KeepLine(raw) == (if RStrip(raw) == "" then [] else [RStrip(raw)])
  {
    BenignWarningNeverMatches(RStrip(raw));
  }

  /** Of the kept lines, those shown on the console as errors: every line
      with a marker, once per occurrence, in order. */
  function Flagged(lines: seq<string>): (flagged: seq<string>)
    ensures flagged == MarkedLines(lines)
    decreases |lines|
  {
    if |lines| == 0 then []
    else
      var init := lines[..|lines| - 1];
      var last := lines[|lines| - 1];
      var lowered := Lower(last);
      BenignWarningNeverMatches(last);
      MarkedLinesSnoc(init, last);
      assert init + [last] == lines;
      Flagged(init)
        + (if HasErrorMarker(lowered) && !Contains(lowered, BenignWarning) then [last] else [])
  }

  /** An independent description of the flagged lines, read front to back:
      every line whose lower-case form carries a marker. */
  function MarkedLines(lines: seq<string>): seq<string>
    decreases |lines|
  {
    if |lines| == 0 then []
    else (if HasErrorMarker(Lower(lines[0])) then [lines[0]] else []) + MarkedLines(lines[1..])
  }

  lemma {:induction false} MarkedLinesSnoc(lines: seq<string>, x: string)
    ensures MarkedLines(lines + [x])
         == MarkedLines(lines) + (if HasErrorMarker(Lower(x)) then [x] else [])
    decreases |lines|
  {
    if |lines| > 0 {
      MarkedLinesSnoc(lines[1..], x);
      assert (lines + [x])[1..] == lines[1..] + [x];
    } else {
      assert lines + [x] == [x];
    }
  }

  /** An independent description of the kept lines: every line that is not
      blank after right-stripping, in order, stripped. */
  function NonBlankStripped(raw: seq<string>): seq<string>
    decreases |raw|
  {
    if |raw| == 0 then []
    else if RStrip(raw[0]) == "" then NonBlankStripped(raw[1..])
    else [RStrip(raw[0])] + NonBlankStripped(raw[1..])
  }

  lemma {:induction false} NonBlankStrippedSnoc(raw: seq<string>, x: string)
    ensures NonBlankStripped(raw + [x])
         == NonBlankStripped(raw) + (if RStrip(x) == "" then [] else [RStrip(x)])
    decreases |raw|
  {
    if |raw| > 0 {
      NonBlankStrippedSnoc(raw[1..], x);
      assert (raw + [x])[1..] == raw[1..] + [x];
    } else {
      assert raw + [x] == [x];
    }
  }

  /** Every kept line is non-empty and right-stripped. */
  lemma {:induction false} KeptLinesShape(raw: seq<string>)
    ensures forall k :: 0 <= k < |KeptLines(raw)| ==>
      KeptLines(raw)[k] != "" && RStrip(KeptLines(raw)[k]) == KeptLines(raw)[k]
    decreases |raw|
  {
    if |raw| > 0 {
      KeptLinesShape(raw[..|raw| - 1]);
      var x := raw[|raw| - 1];
      RStripIdempotent(x);
    }
  }

  lemma RStripIdempotent(s: string)
    ensures RStrip(RStrip(s)) == RStrip(s)
  {
  }

  /** The flagged lines are exactly the kept lines that carry a marker,
      in their original order. */
  lemma FlaggedIsOrderedSublist(lines: seq<string>)
    ensures IsSubsequence(Flagged(lines), lines)
    ensures forall k :: 0 <= k < |Flagged(lines)| ==> HasErrorMarker(Lower(Flagged(lines)[k]))
    ensures forall k :: 0 <= k < |lines| && HasErrorMarker(Lower(lines[k])) ==> lines[k] in Flagged(lines)
  {
    MarkedLinesSublist(lines);
  }

  lemma {:induction false} MarkedLinesSublist(lines: seq<string>)
    ensures IsSubsequence(MarkedLines(lines), lines)
    ensures forall k :: 0 <= k < |MarkedLines(lines)| ==> HasErrorMarker(Lower(MarkedLines(lines)[k]))
    ensures forall k :: 0 <= k < |lines| && HasErrorMarker(Lower(lines[k])) ==> lines[k] in MarkedLines(lines)
    decreases |lines|
  {
    if |lines| > 0 {
      var rest := lines[1..];
      var m := MarkedLines(lines);
      MarkedLinesSublist(rest);
      assert forall k :: 1 <= k < |lines| ==> lines[k] == rest[k - 1];
      if HasErrorMarker(Lower(lines[0])) {
        assert m == [lines[0]] + MarkedLines(rest);
        assert m[1..] == MarkedLines(rest);
        assert forall k :: 1 <= k < |m| ==> m[k] == MarkedLines(rest)[k - 1];
      } else {
        assert m == MarkedLines(rest);
      }
    }
  }

  lemma KeptLinesStep(raw: seq<string>, i: nat)
    requires i < |raw|
    ensures KeptLines(raw[..i + 1]) == KeptLines(raw[..i]) + KeepLine(raw[i])
  {
    assert raw[..i + 1][..i] == raw[..i];
  }

  lemma FlaggedStep(lines: seq<string>, x: string)
    ensures Flagged(lines + [x]) == Flagged(lines)
      + (if HasErrorMarker(Lower(x)) && !Contains(Lower(x), BenignWarning) then [x] else [])
  {
    assert (lines + [x])[..|lines|] == lines;
  }

  /** The reader thread of the streamed mode, as a loop over the lines the
      child wrote: it returns `output_lines` and `error_lines`. */
  method ReadOutput(raw: seq<string>) returns (output: seq<string>, errors: seq<string>)
    ensures output == NonBlankStripped(raw)
    ensures errors == Flagged(output)
  {
    output := [];
    errors := [];
    var i := 0;
    while i < |raw|
      invariant 0 <= i <= |raw|
      invariant output == KeptLines(raw[..i])
      invariant errors == Flagged(output)
    {
      var line := RStrip(raw[i]);
      KeptLinesStep(raw, i);
      if line != "" {
        var lowered := Lower(line);
        if !Contains(lowered, BenignWarning) {
          var before := output;
          output := output + [line];
          FlaggedStep(before, line);
          if HasErrorMarker(lowered) && !Contains(lowered, BenignWarning) {
            errors := errors + [line];
          }
        }
      }
      assert raw[..i + 1][..i] == raw[..i];
      i := i + 1;
    }
    assert raw[..i] == raw;
  }

  // ---------------------------------------------------------------------
  // Running a command

  /** The arguments of `CommandRunner.run` (the description only prints). */
  datatype Invocation = Invocation(command: seq<string>, check: bool, captureOutput: bool, sudo: bool)

  /** Outcomes of the three sudo probes: `sudo -n true`, `which sudo`, and
      the second `sudo -n true` that decides the password notice. */
  datatype SudoProbes = SudoProbes(nonInteractive: Probe, which: Probe, recheck: Probe)

  /** What happens when the command is started: it runs to an exit code,
      writing `lines` (stdout and stderr merged, line terminators included);
      its binary is missing; or starting it fails some other way. */
  datatype Spawn = Ran(returncode: int, lines: seq<string>) | BinaryMissing | SpawnError(reason: string)

  /** Everything decided before the child is started. */
  datatype Plan = Plan(args: seq<string>, env: map<string, string>, mode: IoMode, passwordNotice: bool)

  /** The returned `CompletedProcess`, plus the error lines echoed on the console. */
  datatype Completed = Completed(args: seq<string>, returncode: int, stdout: Option<string>, shownErrors: seq<string>)

  datatype RunError =
    | SudoUnavailable(message: string)   // RuntimeError raised before any vector is built
    | ProbeRaised             // a sudo probe raised an exception `run` does not catch
    | EmptyCommand            // `command[0]` of an empty list
      /** `shown` are the error lines echoed on the console before the raise. */
    | CalledProcessError(returncode: int, args: seq<string>, output: Option<string>, logged: string, shown: seq<string>)
    | CommandNotFound(message: string)   // RuntimeError
    | Unexpected(logged: string)         // any other start-up failure, re-raised

  const SudoUnavailableMessage :=
    "sudo is required but not available or not configured. "
    + "Please ensure sudo is installed and you have the necessary permissions."

  /** The vector before the apt rewrite. */
  function Elevated(inv: Invocation): seq<string> {
    if inv.sudo then ["sudo"] + inv.command else inv.command
  }

  /** Steps up to the start of the child: sudo gate, prefix, apt rewrite,
      environment, I/O strategy. */
  function Prepare(inv: Invocation, env: map<string, string>, probes: SudoProbes): (r: Result<Plan, RunError>)
    ensures r.Success? <==>
      && (!inv.sudo || (SudoAvailable(probes.nonInteractive, probes.which) && probes.recheck.Exited?))
      && |Elevated(inv)| > 0
    ensures (inv.sudo && !SudoCheckRaises(probes.nonInteractive, probes.which)
             && !SudoAvailable(probes.nonInteractive, probes.which))
            ==> r == Failure(SudoUnavailable(SudoUnavailableMessage))
    ensures r == Failure(ProbeRaised) <==>
      inv.sudo && (SudoCheckRaises(probes.nonInteractive, probes.which)
                   || (SudoAvailable(probes.nonInteractive, probes.which) && !probes.recheck.Exited?))
    ensures r == Failure(EmptyCommand) <==> !inv.sudo && |inv.command| == 0
    ensures r.Success? ==>
      && r.value.args == Normalize(Elevated(inv))
      && IsSubsequence(Elevated(inv), r.value.args)
      && |Elevated(inv)| <= |r.value.args| <= |Elevated(inv)| + 3
      && r.value.args[0] == Elevated(inv)[0]
      && r.value.mode == ChooseIoMode(inv.sudo, inv.captureOutput, AptIndex(Elevated(inv)).Some?)
      && r.value.env == ChildEnv(env, AptIndex(Elevated(inv)).Some?)
      && (r.value.passwordNotice <==> inv.sudo && probes.recheck.Exited? && probes.recheck.code != 0)
  {
    if inv.sudo && SudoCheckRaises(probes.nonInteractive, probes.which) then Failure(ProbeRaised)
    else if inv.sudo && !SudoAvailable(probes.nonInteractive, probes.which) then Failure(SudoUnavailable(SudoUnavailableMessage))
    else if inv.sudo && !probes.recheck.Exited? then Failure(ProbeRaised)
    else
      var command := Elevated(inv);
      if |command| == 0 then Failure(EmptyCommand)
      else
        var apt := AptIndex(command).Some?;
        Success(Plan(Normalize(command), ChildEnv(env, apt), ChooseIoMode(inv.sudo, inv.captureOutput, apt),
                     inv.sudo && probes.recheck.code != 0))
  }

  const FailureHeader := "Command failed: "
  const ExitCodeLabel := "\nExit code: "

  /** The message logged before a `CalledProcessError` is re-raised: the
      command line and exit code, then the output and the error output
      when they are non-empty. */
  function FailureLog(cmdStr: string, returncode: int, stdout: Option<string>, stderr: Option<string>): (log: string)
    ensures StartsWith(log, FailureHeader + cmdStr + ExitCodeLabel)
    ensures Truthy(stderr) ==> EndsWith(log, "\nStderr: " + stderr.value)
    ensures !Truthy(stderr) && Truthy(stdout) ==> EndsWith(log, "\nOutput: " + stdout.value)
    ensures !Truthy(stderr) && !Truthy(stdout) ==>
      var digits := Between(log, FailureHeader + cmdStr + ExitCodeLabel, "");
      digits.Some? && ParseInt(digits.value) == returncode
    ensures var tail := (if Truthy(stdout) then "\nOutput: " + stdout.value else "")
                        + (if Truthy(stderr) then "\nStderr: " + stderr.value else "");
      var digits := Between(log, FailureHeader + cmdStr + ExitCodeLabel, tail);
      digits.Some? && ParseInt(digits.value) == returncode
  {
    var head := FailureHeader + cmdStr + ExitCodeLabel;
    var code := IntToString(returncode);
    var out := if Truthy(stdout) then "\nOutput: " + stdout.value else "";
    var err := if Truthy(stderr) then "\nStderr: " + stderr.value else "";
    LogParts(head, code, out, err);
    BetweenFilled(head, code, out + err);
    IntToStringRoundTrip(returncode);
    if out == "" && err == "" then
      BetweenFilled(head, code, "");
      head + code + out + err
    else head + code + out + err
  }

  /** The log is assembled from its four parts in order. */
  lemma LogParts(head: string, code: string, out: string, err: string)
    ensures StartsWith(head + code + out + err, head)
    ensures EndsWith(head + code + out + err, err)
    ensures err == "" ==> EndsWith(head + code + out + err, out)
    ensures out == "" && err == "" ==> head + code + out + err == head + code + ""
    ensures head + code + out + err == head + code + (out + err)
  {
    var log := head + code + out + err;
    assert log == head + (code + out + err);
    assert log == (head + code + out) + err;
  }

  /** The text a run hands back as `stdout`: the joined kept lines in the
      streamed mode, the whole merged text when capturing, nothing when
      the child's streams are inherited. */
  function CapturedStdout(mode: IoMode, lines: seq<string>): (out: Option<string>)
    ensures mode == Streamed ==> out == Some(Join(NonBlankStripped(lines), "\n"))
    ensures mode == MergedCapture ==> out == Some(Join(lines, ""))
    ensures out.None? <==> mode == Inherited || mode == InheritedInteractive
  {
    match mode
    case Streamed => Some(Join(KeptLines(lines), "\n"))
    case MergedCapture => Some(Join(lines, ""))
    case _ => None
  }

  /** What starting `args` in `mode` under `check` yields for `spawn`: a
      result exactly when the child runs to an exit code `check` accepts; a
      missing binary names the first token; another start failure is
      re-raised with the command line logged; a rejected exit code raises
      `CalledProcessError` with the captured stdout, the failure log and the
      lines echoed on the console. */
  predicate Executed(args: seq<string>, mode: IoMode, check: bool, spawn: Spawn, r: Result<Completed, RunError>)
    requires |args| > 0
  {
    var shown := if mode == Streamed && spawn.Ran? then MarkedLines(NonBlankStripped(spawn.lines)) else [];
    && (r.Success? <==> spawn.Ran? && (!check || spawn.returncode == 0))
    && (spawn.BinaryMissing? ==> r == Failure(CommandNotFound("Command not found: " + args[0])))
    && (spawn.SpawnError? ==>
          r == Failure(Unexpected("Unexpected error running command: " + Join(args, " ") + "\n" + spawn.reason)))
    && (spawn.Ran? && check && spawn.returncode != 0 ==>
          && r.Failure? && r.error.CalledProcessError? && r.error.returncode == spawn.returncode
          && r.error.args == args
          && r.error.output == CapturedStdout(mode, spawn.lines)
          && r.error.logged == FailureLog(Join(args, " "), spawn.returncode, r.error.output, None)
          && r.error.shown == shown)
    && (r.Success? ==>
          && r.value.args == args && r.value.returncode == spawn.returncode
          && r.value.stdout == CapturedStdout(mode, spawn.lines)
          && r.value.shownErrors == shown)
  }

  /** Starting the child under `plan` and shaping what comes back. */
  function Execute(plan: Plan, check: bool, spawn: Spawn): (r: Result<Completed, RunError>)
    requires |plan.args| > 0
    ensures Executed(plan.args, plan.mode, check, spawn, r)
  {
    var cmdStr := Join(plan.args, " ");
    match spawn
    case BinaryMissing => Failure(CommandNotFound("Command not found: " + plan.args[0]))
    case SpawnError(reason) => Failure(Unexpected("Unexpected error running command: " + cmdStr + "\n" + reason))
    case Ran(returncode, lines) =>
      var stdout := CapturedStdout(plan.mode, lines);
      var shown := if plan.mode == Streamed then Flagged(KeptLines(lines)) else [];
      if check && returncode != 0 then
        Failure(CalledProcessError(returncode, plan.args, stdout, FailureLog(cmdStr, returncode, stdout, None), shown))
      else Success(Completed(plan.args, returncode, stdout, shown))
  }

  /** `CommandRunner.run`: a result exactly when preparation succeeds and
      the child runs to an exit code that `check` accepts. */
  function Run(inv: Invocation, env: map<string, string>, probes: SudoProbes, spawn: Spawn)
    : (r: Result<Completed, RunError>)
    ensures r.Success? <==>
      Prepare(inv, env, probes).Success? && spawn.Ran? && (!inv.check || spawn.returncode == 0)
    ensures Prepare(inv, env, probes).Failure? ==> r == Failure(Prepare(inv, env, probes).error)
    ensures r.Success? ==>
      && r.value.args == Normalize(Elevated(inv)) && r.value.returncode == spawn.returncode
      && r.value.stdout == CapturedStdout(Prepare(inv, env, probes).value.mode, spawn.lines)
    ensures Prepare(inv, env, probes).Success? ==>
      Executed(Normalize(Elevated(inv)), ChooseIoMode(inv.sudo, inv.captureOutput, AptIndex(Elevated(inv)).Some?),
               inv.check, spawn, r)
  {
    var plan :- Prepare(inv, env, probes);
    Execute(plan, inv.check, spawn)
  }

  // ---------------------------------------------------------------------
  // Properties of a whole run

  /** Without usable sudo an elevated run fails the same way whatever the
      child would have done: nothing is started. */
  lemma SudoGateComesFirst(inv: Invocation, env: map<string, string>, probes: SudoProbes, s1: Spawn, s2: Spawn)
    requires inv.sudo && !SudoAvailable(probes.nonInteractive, probes.which)
    ensures Run(inv, env, probes, s1) == Run(inv, env, probes, s2)
         == (if SudoCheckRaises(probes.nonInteractive, probes.which) then Failure(ProbeRaised)
             else Failure(SudoUnavailable(SudoUnavailableMessage)))
  {
  }

  /** An elevated run executes `sudo` followed by the caller's vector, with
      at most the three apt tokens added. */
  lemma ElevatedRunPrefixesSudo(inv: Invocation, env: map<string, string>, probes: SudoProbes, spawn: Spawn)
    requires inv.sudo && Run(inv, env, probes, spawn).Success?
    ensures var args := Run(inv, env, probes, spawn).value.args;
            args[0] == "sudo" && IsSubsequence(inv.command, args[1..]) && |args| <= |inv.command| + 4
  {
    var args := Run(inv, env, probes, spawn).value.args;
    var full := ["sudo"] + inv.command;
    assert IsSubsequence(full, args);
    assert full[0] == args[0] && full[1..] == inv.command;
    SubsequenceTail(full, args);
  }

  /** Dropping a common first token keeps a subsequence. */
  lemma {:induction false} SubsequenceTail(a: seq<string>, b: seq<string>)
    requires |a| > 0 && |b| > 0 && a[0] == b[0] && IsSubsequence(a, b)
    ensures IsSubsequence(a[1..], b[1..])
  {
    if !IsSubsequence(a[1..], b[1..]) {
      assert IsSubsequence(a, b[1..]);
      SubsequenceDrop(a, b[1..]);
    }
  }

  lemma {:induction false} SubsequenceDrop(a: seq<string>, b: seq<string>)
    requires |a| > 0 && IsSubsequence(a, b)
    ensures IsSubsequence(a[1..], b)
    decreases |b|
  {
    if a[0] == b[0] && IsSubsequence(a[1..], b[1..]) {
      if |a| > 1 {
        assert IsSubsequence(a[1..], b[1..]);
      }
    } else {
      SubsequenceDrop(a, b[1..]);
    }
  }

  /** A missing binary is reported by the first token actually run: `sudo`
      for elevated runs, otherwise the caller's program. */
  lemma MissingBinaryNamesProgram(inv: Invocation, env: map<string, string>, probes: SudoProbes)
    requires Prepare(inv, env, probes).Success?
    ensures Run(inv, env, probes, BinaryMissing)
         == Failure(CommandNotFound("Command not found: " + (if inv.sudo then "sudo" else inv.command[0])))
  {
  }

  /** Only apt commands get the front-end overrides; `apt-get` is not one. */
  lemma EnvOverridesOnlyForApt(inv: Invocation, env: map<string, string>, probes: SudoProbes)
    requires Prepare(inv, env, probes).Success?
    ensures var plan := Prepare(inv, env, probes).value;
            (plan.env == env) || (AptIndex(Elevated(inv)).Some?
                                   && plan.env[FrontendVar] == "noninteractive"
                                   && plan.env[ListChangesVar] == "none")
    ensures Elevated(inv)[0] != "apt" && (|Elevated(inv)| < 2 || Elevated(inv)[1] != "apt") ==>
      Prepare(inv, env, probes).value.env == env
  {
  }

  /** In streamed mode the returned text is every non-blank line, stripped,
      joined by newlines, and the echoed lines are those carrying a marker. */
  lemma StreamedRunOutput(inv: Invocation, env: map<string, string>, probes: SudoProbes, rc: int, lines: seq<string>)
    requires inv.sudo && !inv.captureOutput && (!inv.check || rc == 0)
    requires Prepare(inv, env, probes).Success? && AptIndex(Elevated(inv)).Some?
    ensures var r := Run(inv, env, probes, Ran(rc, lines));
            && r.Success?
            && r.value.stdout == Some(Join(NonBlankStripped(lines), "\n"))
            && r.value.shownErrors == MarkedLines(NonBlankStripped(lines))
  {
  }

  /** `check=False` never raises `CalledProcessError`; with `check=True` every
      non-zero exit does. */
  lemma CheckDecidesRaise(inv: Invocation, env: map<string, string>, probes: SudoProbes, rc: int, lines: seq<string>)
    requires Prepare(inv, env, probes).Success?
    ensures var r := Run(inv, env, probes, Ran(rc, lines));
            (r.Failure? && r.error.CalledProcessError?) <==> inv.check && rc != 0
  {
  }

  /** `sudo apt update` on a host with passwordless sudo: the vector run and
      the forced environment. */
  lemma SudoAptUpdateScenario(env: map<string, string>)
    ensures var plan := Prepare(Invocation(["apt", "update"], true, false, true), env,
                                SudoProbes(Exited(0), Exited(0), Exited(0)));
            && plan.Success?
            && plan.value.args == ["sudo", "apt", "-qq", "-o", "APT::Status-Fd=/dev/null", "update"]
            && plan.value.mode == Streamed && !plan.value.passwordNotice
            && plan.value.env[FrontendVar] == "noninteractive"
  {
    assert ["sudo"] + ["apt", "update"] == ["sudo", "apt", "update"];
    SudoAptUpdateExample();
  }
}
