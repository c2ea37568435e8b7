/** The zsh installer of installers/zsh.py: the installed check, which
    asks the runner for `zsh --version` and then reads the login shell of
    the current user from the text of /etc/passwd, and the install steps,
    which fall back to a fixed path when `which zsh` fails and run `chsh`
    without sudo. */
module Zsh {
  import opened Wrappers
  import opened Text
  import opened Types
  import opened AptArgs
  import opened Runner

  /** The version probe: no sudo, no check, captured output. */
  const VersionInvocation := Invocation(["zsh", "--version"], false, true, false)

  /** Sudo probes are only consulted for elevated runs, so any value serves
      for the unelevated ones here. */
  const Unprobed := SudoProbes(Missing, Missing, Missing)

  /** `os.getenv("USER") or os.getenv("USERNAME")`. */
  function UserName(user: Option<string>, username: Option<string>): (name: Option<string>)
    ensures Truthy(user) ==> name == user
    ensures !Truthy(user) ==> name == username
  {
    if Truthy(user) then user else username
  }

  /** The position of the first line that starts with `prefix`. */
  function FirstLineWith(lines: seq<string>, prefix: string): (i: Option<nat>)
    ensures i.Some? ==> i.value < |lines| && StartsWith(lines[i.value], prefix)
    ensures i.Some? ==> forall j :: 0 <= j < i.value ==> !StartsWith(lines[j], prefix)
    ensures i.None? ==> forall j :: 0 <= j < |lines| ==> !StartsWith(lines[j], prefix)
    decreases |lines|
  {
    if |lines| == 0 then None
    else if StartsWith(lines[0], prefix) then Some(0)
    else
      match FirstLineWith(lines[1..], prefix)
      case None => None
      case Some(k) => Some(k + 1)
  }

  /** Line `i` is the first one that belongs to `name`. */
  predicate IsLoginLine(lines: seq<string>, name: string, i: nat) {
    && i < |lines| && StartsWith(lines[i], name + ":")
    && forall j :: 0 <= j < i ==> !StartsWith(lines[j], name + ":")
  }

  /** The last `:`-separated field of the first line that starts with
      `name:`; `None` when no line does. */
  function LoginShellIn(lines: seq<string>, name: string): (shell: Option<string>)
    ensures shell.None? <==> forall j :: 0 <= j < |lines| ==> !StartsWith(lines[j], name + ":")
    ensures shell.Some? ==> exists i: nat :: IsLoginLine(lines, name, i) && shell.value == LastField(lines[i], ':')
  {
    match FirstLineWith(lines, name + ":")
    case None => None
    case Some(i) =>
      assert IsLoginLine(lines, name, i);
      Some(LastField(lines[i], ':'))
  }

  /** The login shell recorded for `name` in the text of /etc/passwd: none
      exactly when no line starts with `name:`, otherwise the last field of
      the first such line, which holds neither a `:` nor a line break. */
  function LoginShell(passwd: string, name: string): (shell: Option<string>)
    ensures shell.None? <==> NoLoginLine(Split(passwd, '\n'), name)
    ensures shell.Some? ==> HasLoginShell(Split(passwd, '\n'), name, shell.value)
    ensures shell.Some? ==> ':' !in shell.value && '\n' !in shell.value
  {
    var lines := Split(passwd, '\n');
    LoginShellHasNoBreak(lines, name);
    LoginShellLines(lines, name);
    LoginShellIn(lines, name)
  }

  /** No line belongs to `name`. */
  predicate NoLoginLine(lines: seq<string>, name: string) {
    forall j :: 0 <= j < |lines| ==> !StartsWith(lines[j], name + ":")
  }

  /** `shell` is the last field of the first line that belongs to `name`. */
  ghost predicate HasLoginShell(lines: seq<string>, name: string, shell: string) {
    exists i: nat :: IsLoginLine(lines, name, i) && shell == LastField(lines[i], ':')
  }

  /** What `LoginShellIn` promises, stated for one fixed list of lines. */
  lemma LoginShellLines(lines: seq<string>, name: string)
    ensures LoginShellIn(lines, name).None? <==> NoLoginLine(lines, name)
    ensures LoginShellIn(lines, name).Some? ==> HasLoginShell(lines, name, LoginShellIn(lines, name).value)
  {
  }

  /** Lines without breaks give a shell without breaks or colons. */
  lemma LoginShellHasNoBreak(lines: seq<string>, name: string)
    requires forall j :: 0 <= j < |lines| ==> '\n' !in lines[j]
    ensures LoginShellIn(lines, name).Some? ==>
      ':' !in LoginShellIn(lines, name).value && '\n' !in LoginShellIn(lines, name).value
  {
    if LoginShellIn(lines, name).Some? {
      var i: nat :| IsLoginLine(lines, name, i) && LoginShellIn(lines, name).value == LastField(lines[i], ':');
      SuffixFree(lines[i], LastField(lines[i], ':'), '\n');
    }
  }

  /** A character missing from a text is missing from its suffixes. */
  lemma SuffixFree(s: string, f: string, c: char)
    requires c !in s && EndsWith(s, f)
    ensures c !in f
  {
  }

  /** `is_installed`. `versionRun` is what the runner did with the version
      probe; `passwd` is the text of /etc/passwd, `None` when it cannot be
      read. A failed or non-zero probe means not installed; otherwise zsh
      counts as installed unless the user's own passwd line names a
      different login shell. */
  function IsInstalled(versionRun: Result<Completed, RunError>, user: Option<string>,
                       username: Option<string>, passwd: Option<string>): (installed: bool)
    ensures versionRun.Failure? || versionRun.value.returncode != 0 ==> !installed
    ensures versionRun.Success? && versionRun.value.returncode == 0 ==>
      var name := UserName(user, username);
      (installed <==> !Truthy(name) || passwd.None?
                      || LoginShell(passwd.value, name.value).None?
                      || EndsWith(LoginShell(passwd.value, name.value).value, "/zsh"))
  {
    if versionRun.Failure? || versionRun.value.returncode != 0 then false
    else
      var name := UserName(user, username);
      if !Truthy(name) || passwd.None? then true
      else match LoginShell(passwd.value, name.value)
        case None => true
        case Some(shell) => EndsWith(shell, "/zsh")
  }

  /** With no zsh binary the probe raises and the answer is "not installed",
      whatever /etc/passwd says. */
  lemma MissingBinaryNotInstalled(env: map<string, string>, user: Option<string>,
                                  username: Option<string>, passwd: Option<string>)
    ensures !IsInstalled(Run(VersionInvocation, env, Unprobed, BinaryMissing), user, username, passwd)
  {
  }

  /** A probe that exits non-zero is "not installed"; one that exits zero
      hands the decision to /etc/passwd. The probe never raises on its exit
      status, since it runs with `check=False`. */
  lemma VersionExitDecides(env: map<string, string>, rc: int, lines: seq<string>,
                           user: Option<string>, username: Option<string>, passwd: Option<string>)
    ensures var r := Run(VersionInvocation, env, Unprobed, Ran(rc, lines));
            && r.Success? && r.value.returncode == rc
            && (rc != 0 ==> !IsInstalled(r, user, username, passwd))
            && (rc == 0 && passwd.None? ==> IsInstalled(r, user, username, passwd))
  {
    CheckDecidesRaise(VersionInvocation, env, Unprobed, rc, lines);
  }

  /** The example file joins its two lines with a newline. */
  lemma ExamplePasswdJoin()
    ensures Join(["r:/bin/sh", "al:/bin/zsh"], "\n") == "r:/bin/sh\nal:/bin/zsh"
  {
  }

  lemma ExamplePasswdLines()
    ensures Split("r:/bin/sh\nal:/bin/zsh", '\n') == ["r:/bin/sh", "al:/bin/zsh"]
  {
    ExamplePasswdJoin();
    SplitJoin(["r:/bin/sh", "al:/bin/zsh"], '\n');
  }

  /** In an /etc/passwd whose lines say `r` logs in with sh and `al` with
      zsh, `al` gets the shell of the second line... */
  lemma PasswdExample(lines: seq<string>)
    requires lines == ["r:/bin/sh", "al:/bin/zsh"]
    ensures LoginShellIn(lines, "al") == Some("/bin/zsh")
  {
    LoginLineOfSecondUser(lines);
    LastFieldExample(lines[1], "/bin/zsh");
  }

  lemma LoginLineOfSecondUser(lines: seq<string>)
    requires lines == ["r:/bin/sh", "al:/bin/zsh"]
    ensures LoginShellIn(lines, "al") == Some(LastField(lines[1], ':'))
  {
    var first := lines[0];
    var second := lines[1];
    assert first[0] == 'r';
    assert second[..3] == "al:";
    assert "al" + ":" == "al:";
    SecondLineMatches(lines, "al:");
  }

  /** With a prefix missing from the first line and present on the second,
      the second line is the first one with it. */
  lemma SecondLineMatches(lines: seq<string>, prefix: string)
    requires |lines| > 1 && !StartsWith(lines[0], prefix) && StartsWith(lines[1], prefix)
    ensures FirstLineWith(lines, prefix) == Some(1)
  {
    assert StartsWith(lines[1..][0], prefix);
  }

  lemma LastFieldExample(line: string, shell: string)
    requires (line == "al:/bin/zsh" && shell == "/bin/zsh") || (line == "r:/bin/sh" && shell == "/bin/sh")
    ensures LastField(line, ':') == shell
  {
    LastFieldUnique(line, ':', shell);
  }

  lemma LoginLineOfFirstUser(lines: seq<string>)
    requires lines == ["r:/bin/sh", "al:/bin/zsh"]
    ensures LoginShellIn(lines, "r") == Some(LastField(lines[0], ':'))
  {
    var line := lines[0];
    assert line[..2] == "r:";
    assert "r" + ":" == "r:";
    FirstLineMatches(lines, "r:");
  }

  /** A first line with the prefix is the first line with it. */
  lemma FirstLineMatches(lines: seq<string>, prefix: string)
    requires |lines| > 0 && StartsWith(lines[0], prefix)
    ensures FirstLineWith(lines, prefix) == Some(0)
  {
  }

  /** ...`r` the shell of the first line... */
  lemma PasswdFirstLineExample(lines: seq<string>)
    requires lines == ["r:/bin/sh", "al:/bin/zsh"]
    ensures LoginShellIn(lines, "r") == Some("/bin/sh")
  {
    LoginLineOfFirstUser(lines);
    LastFieldExample(lines[0], "/bin/sh");
  }

  /** ...and a user whose name is only a prefix of another's has none. */
  lemma PrefixUserHasNoLine(lines: seq<string>)
    requires lines == ["r:/bin/sh", "al:/bin/zsh"]
    ensures LoginShellIn(lines, "a") == None
  {
    assert lines[0][0] == 'r' && lines[1][1] == 'l';
    assert FirstLineWith(lines, "a:") == None;
  }

  // ---------------------------------------------------------------------
  // Installing

  const AptInstall := Invocation(["apt", "install", "-y", "zsh"], true, false, true)
  const FallbackPath := "/usr/bin/zsh"

  /** The shell path handed to `chsh`: the stripped output of `which zsh`,
      or the fixed fallback when that call raises (`None`). */
  function ZshPath(which: Option<string>): (path: string)
    ensures which.None? ==> path == FallbackPath
    ensures which.Some? ==> exists i: nat :: StrippedAt(which.value, path, i)
  {
    match which
    case None => FallbackPath
    case Some(out) => Strip(out)
  }

  function ChangeShell(path: string): Invocation {
    Invocation(["chsh", "-s", path], true, false, false)
  }

  const InstalledMessage := "zsh installed and set as default shell"
  const FailedMessage := "Failed to install zsh"

  /** `install`: the runner calls made, in order, and the result. `apt` and
      `chsh` say how the two runner calls end; an exception from either is
      caught and becomes a failed result carrying its text. */
  function Install(apt: StepOutcome, which: Option<string>, chsh: StepOutcome)
    : (r: (seq<Invocation>, InstallerResult))
    ensures 1 <= |r.0| <= 2 && r.0[0] == AptInstall
    ensures |r.0| == 2 <==> apt.Completes?
    ensures |r.0| == 2 ==> r.0[1] == ChangeShell(ZshPath(which)) && !r.0[1].sudo
    ensures r.1.success <==> apt.Completes? && chsh.Completes?
    ensures r.1.success ==> r.1 == InstallerResult(true, InstalledMessage, None)
    ensures apt.Raises? ==> r.1 == InstallerResult(false, FailedMessage, Some(apt.text))
    ensures apt.Completes? && chsh.Raises? ==> r.1 == InstallerResult(false, FailedMessage, Some(chsh.text))
  {
    match apt
    case Raises(text) => ([AptInstall], InstallerResult(false, FailedMessage, Some(text)))
    case Completes =>
      var calls := [AptInstall, ChangeShell(ZshPath(which))];
      match chsh
      case Raises(text) => (calls, InstallerResult(false, FailedMessage, Some(text)))
      case Completes => (calls, InstallerResult(true, InstalledMessage, None))
  }

  /** `chsh` is run exactly as written: no sudo prefix, no apt rewrite, the
      caller's environment, and whether sudo works does not matter. */
  lemma ChangeShellRunsAsGiven(path: string, env: map<string, string>, probes: SudoProbes)
    ensures var plan := Prepare(ChangeShell(path), env, probes);
            && plan.Success?
            && plan.value.args == ["chsh", "-s", path]
            && plan.value.env == env
            && plan.value.mode == Inherited
  {
  }

  /** The package install goes through sudo and the apt rewrite: `-qq`
      lands after `install`, the status option right after `apt`. */
  lemma AptInstallElevated(env: map<string, string>, probes: SudoProbes)
    requires SudoAvailable(probes.nonInteractive, probes.which) && probes.recheck.Exited?
    ensures var plan := Prepare(AptInstall, env, probes);
            && plan.Success?
            && plan.value.args == ["sudo", "apt", StatusOption, StatusValue, "install", QuietFlag, "-y", "zsh"]
            && plan.value.mode == Streamed
  {
    assert Elevated(AptInstall) == ["sudo", "apt", "install", "-y", "zsh"];
    SudoAptInstallExample();
  }
}
