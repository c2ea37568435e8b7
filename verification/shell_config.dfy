/** Automatic PATH setup of utils/shell_config.py: pick the user's shell,
    pick that shell's start-up file in the home directory, and append an
    `export PATH=...` line to it unless an equivalent line is already
    there. The home directory is a map from file name to file state; a
    name that is not a key does not exist. */
module ShellConfig {
  import opened Wrappers
  import opened Text

  /** `detect_shell`. `shellEnv` is `$SHELL` (`""` when unset);
      `passwdShell` is the login shell of the current uid, `None` when the
      lookup fails. The answer is always one of the two supported shells. */
  function DetectShell(shellEnv: string, passwdShell: Option<string>): (shell: string)
    ensures shell == "zsh" || shell == "bash"
    ensures Contains(Lower(shellEnv), "zsh") ==> shell == "zsh"
    ensures shell == "zsh" <==>
      || Contains(Lower(shellEnv), "zsh")
      || (&& !Contains(Lower(shellEnv), "bash")
          && passwdShell.Some? && Contains(Lower(passwdShell.value), "zsh"))
  {
    var env := Lower(shellEnv);
    if Contains(env, "zsh") then "zsh"
    else if Contains(env, "bash") then "bash"
    else if passwdShell.Some? && Contains(Lower(passwdShell.value), "zsh") then "zsh"
    else "bash"
  }

  const ZshFiles: seq<string> := [".zshrc", ".zprofile", ".zshenv"]
  const BashFiles: seq<string> := [".bashrc", ".bash_profile", ".profile"]

  /** The position of the first candidate that exists in `home`. */
  function FirstExisting<F>(candidates: seq<string>, home: map<string, F>): (i: Option<nat>)
    ensures i.Some? ==> i.value < |candidates| && candidates[i.value] in home
    ensures i.Some? ==> forall j :: 0 <= j < i.value ==> candidates[j] !in home
    ensures i.None? ==> forall j :: 0 <= j < |candidates| ==> candidates[j] !in home
    decreases |candidates|
  {
    if |candidates| == 0 then None
    else if candidates[0] in home then Some(0)
    else
      match FirstExisting(candidates[1..], home)
      case None => None
      case Some(k) => Some(k + 1)
  }

  /** The candidate start-up files of a shell, in the order they are tried. */
  function Candidates(shell: string): seq<string> {
    if shell == "zsh" then ZshFiles else if shell == "bash" then BashFiles else []
  }

  /** `get_shell_config_file`: the first existing candidate, else the
      shell's first candidate; `None` for a shell it does not know. */
  function ConfigFileFor<F>(shell: string, home: map<string, F>): (f: Option<string>)
    ensures f.None? <==> shell != "zsh" && shell != "bash"
    ensures f.Some? ==> f.value in Candidates(shell)
    ensures f.Some? && f.value !in home ==>
      f.value == Candidates(shell)[0] && forall j :: 0 <= j < 3 ==> Candidates(shell)[j] !in home
    ensures f.Some? ==> forall j :: 0 <= j < 3 && Candidates(shell)[j] in home ==>
      exists k :: 0 <= k <= j && Candidates(shell)[k] == f.value && f.value in home
  {
    var candidates := Candidates(shell);
    if |candidates| == 0 then None
    else match FirstExisting(candidates, home)
      case Some(i) => Some(candidates[i])
      case None => Some(candidates[0])
  }

  /** What a start-up file looks like to `add_to_path`. */
  datatype ConfigFile =
    | Readable(content: string)
    /** Exists but cannot be read as text (a directory, no permission). */
    | Unreadable

  /** The line `add_to_path` writes. */
  function PathExport(p: string): string {
    "export PATH=\"" + p + ":$PATH\""
  }

  /** The forms of the line that count as already present: the written one
      first, then its alternatives. */
  function PresentForms(p: string): seq<string> {
    [ PathExport(p),
      "export PATH=\"" + p + ":\\$PATH\"",
      "export PATH=" + p + ":$PATH",
      "export PATH=" + p + ":\\$PATH",
      "PATH=\"" + p + ":$PATH\"",
      "PATH=" + p + ":$PATH" ]
  }

  predicate AlreadyPresent(content: string, p: string) {
    exists i :: 0 <= i < |PresentForms(p)| && Contains(content, PresentForms(p)[i])
  }

  const Marker := "\n# Added by rig installer\n"

  /** The text appended after `content`: a newline to finish an
      unterminated last line, then the marker comment and the export. */
  function Appended(content: string, p: string): string {
    (if content != "" && !EndsWith(content, "\n") then "\n" else "") + Marker + PathExport(p) + "\n"
  }

  /** The content step of `add_to_path`: whether an entry is added, and the
      new text. Old text is only ever extended, never rewritten. */
  function AddEntry(content: string, p: string): (r: (bool, string))
    ensures r.0 <==> !AlreadyPresent(content, p)
    ensures !r.0 ==> r.1 == content
    ensures r.0 ==> content <= r.1 && EndsWith(r.1, Marker + PathExport(p) + "\n")
    ensures r.0 ==> Contains(r.1, PathExport(p))
    ensures r.0 ==> (content == "" || EndsWith(content, "\n") <==>
                     |r.1| == |content| + |Marker + PathExport(p) + "\n"|)
    ensures r.0 && content != "" && !EndsWith(content, "\n") ==>
      |r.1| == |content| + 1 + |Marker + PathExport(p) + "\n"| && r.1[|content|] == '\n'
  {
    if AlreadyPresent(content, p) then (false, content)
    else
      AppendedShape(content, p);
      (true, content + Appended(content, p))
  }

  lemma AppendedShape(content: string, p: string)
    ensures var next := content + Appended(content, p);
            && content <= next
            && EndsWith(next, Marker + PathExport(p) + "\n")
            && Contains(next, PathExport(p))
            && (content == "" || EndsWith(content, "\n") <==>
                |next| == |content| + |Marker + PathExport(p) + "\n"|)
            && (content != "" && !EndsWith(content, "\n") ==>
                |next| == |content| + 1 + |Marker + PathExport(p) + "\n"| && next[|content|] == '\n')
  {
    var gap: string := if content != "" && !EndsWith(content, "\n") then "\n" else "";
    var block := Marker + PathExport(p) + "\n";
    AppendedSplit(content, p, gap, block);
    if gap != "" {
      assert (content + gap)[|content|] == '\n';
    }
    EndsWithAppended(content + gap, block);
    AppendedContains(content + gap, p);
  }

  /** The appended text is the gap followed by the block, so the new
      content is `content + gap` followed by the block. */
  lemma AppendedSplit(content: string, p: string, gap: string, block: string)
    requires gap == (if content != "" && !EndsWith(content, "\n") then "\n" else "")
    requires block == Marker + PathExport(p) + "\n"
    ensures content + Appended(content, p) == (content + gap) + block
    ensures content <= content + Appended(content, p)
  {
    assert Appended(content, p) == gap + block;
    ConcatFacts(content, gap, block);
  }

  lemma ConcatFacts(a: string, b: string, c: string)
    ensures a + (b + c) == (a + b) + c
    ensures a <= a + (b + c)
  {
  }

  lemma EndsWithAppended(pre: string, block: string)
    ensures EndsWith(pre + block, block)
  {
    assert (pre + block)[|pre|..] == block;
  }

  lemma AppendedContains(pre: string, p: string)
    ensures Contains(pre + (Marker + PathExport(p) + "\n"), PathExport(p))
  {
    var a := pre + Marker;
    var t := PathExport(p);
    ContainsMiddle(a, t, "\n");
    assert pre + (Marker + t + "\n") == a + t + "\n";
  }

  /** The text `add_to_path` reads: a missing file reads as empty. */
  function ContentOf(file: Option<ConfigFile>): string {
    if file.Some? && file.value.Readable? then file.value.content else ""
  }

  /** `add_to_path` on one file. `writable` says whether creating the
      directory and writing succeed. Any I/O failure answers `false` and
      leaves the file as it was. */
  function AddToPath(file: Option<ConfigFile>, p: string, writable: bool): (r: (bool, Option<ConfigFile>))
    ensures !r.0 ==> r.1 == file
    ensures r.0 <==> writable && !(file.Some? && file.value.Unreadable?) && !AlreadyPresent(ContentOf(file), p)
    ensures r.0 ==> && r.1.Some? && r.1.value.Readable?
                    && ContentOf(file) <= r.1.value.content
                    && Contains(r.1.value.content, PathExport(p))
    ensures r.0 ==> r.1 == Some(Readable(AddEntry(ContentOf(file), p).1))
  {
    if file.Some? && file.value.Unreadable? then (false, file)
    else
      var (added, next) := AddEntry(ContentOf(file), p);
      if !added || !writable then (false, file) else (true, Some(Readable(next)))
  }

  /** Once added, an entry is present: a second `add_to_path` changes nothing. */
  lemma AddEntryIdempotent(content: string, p: string)
    ensures var (_, next) := AddEntry(content, p);
            AddEntry(next, p) == (false, next)
  {
    var (added, next) := AddEntry(content, p);
    if added {
      assert Contains(next, PresentForms(p)[0]);
    }
  }

  /** The entry `update_shell_config` adds for an install directory. */
  function HomeEntry(installDir: string): string {
    "$HOME/" + installDir
  }

  function Lookup(home: map<string, ConfigFile>, name: string): Option<ConfigFile> {
    if name in home then Some(home[name]) else None
  }

  /** The start-up file the PATH setup works on. */
  function Chosen(shellEnv: string, passwdShell: Option<string>, home: map<string, ConfigFile>): (name: string)
    ensures name in Candidates(DetectShell(shellEnv, passwdShell))
  {
    ConfigFileFor(DetectShell(shellEnv, passwdShell), home).GetOr("")
  }

  /** `update_shell_config`: detect the shell, choose its start-up file and
      add `$HOME/<installDir>` to PATH there. Only that one file may change,
      and it changes exactly when `true` is answered. */
  function UpdateShellConfig(shellEnv: string, passwdShell: Option<string>,
                             home: map<string, ConfigFile>, installDir: string, writable: bool)
    : (r: (bool, map<string, ConfigFile>))
    ensures !r.0 ==> r.1 == home
    ensures forall name :: name in home && name != Chosen(shellEnv, passwdShell, home) ==>
      name in r.1 && r.1[name] == home[name]
    ensures r.1.Keys <= home.Keys + {Chosen(shellEnv, passwdShell, home)}
    ensures r.0 <==> AddToPath(Lookup(home, Chosen(shellEnv, passwdShell, home)), HomeEntry(installDir), writable).0
    ensures r.0 ==> var name := Chosen(shellEnv, passwdShell, home);
                    && name in r.1 && r.1[name].Readable?
                    && Contains(r.1[name].content, PathExport(HomeEntry(installDir)))
    ensures r.0 ==> var name := Chosen(shellEnv, passwdShell, home);
                    r.1 == home[name := AddToPath(Lookup(home, name), HomeEntry(installDir), writable).1.value]
  {
    var shell := DetectShell(shellEnv, passwdShell);
    match ConfigFileFor(shell, home)
    case None => (false, home)
    case Some(name) =>
      var (ok, file) := AddToPath(Lookup(home, name), HomeEntry(installDir), writable);
      if ok then (true, home[name := file.value]) else (false, home)
  }

  /** The "could not determine config file" branch cannot be reached:
      detection only ever names a shell that has start-up files. */
  lemma ConfigFileAlwaysFound(shellEnv: string, passwdShell: Option<string>, home: map<string, ConfigFile>)
    ensures ConfigFileFor(DetectShell(shellEnv, passwdShell), home).Some?
  {
  }

  /** Running the PATH setup a second time finds the entry it wrote and
      leaves every file alone: the second run picks the same file, since
      the file written first is now the first existing candidate. */
  lemma UpdateShellConfigIdempotent(shellEnv: string, passwdShell: Option<string>,
                                    home: map<string, ConfigFile>, installDir: string, writable: bool)
    ensures var (_, home1) := UpdateShellConfig(shellEnv, passwdShell, home, installDir, writable);
            UpdateShellConfig(shellEnv, passwdShell, home1, installDir, writable) == (false, home1)
  {
    var shell := DetectShell(shellEnv, passwdShell);
    var p := HomeEntry(installDir);
    var (ok, home1) := UpdateShellConfig(shellEnv, passwdShell, home, installDir, writable);
    if ok {
      var name := ConfigFileFor(shell, home).value;
      var file := Lookup(home, name);
      var content := if file.None? then "" else file.value.content;
      SameFileAfterWrite(shell, home, name, home1[name]);
      AddEntryIdempotent(content, p);
      assert Lookup(home1, name) == Some(Readable(AddEntry(content, p).1));
    }
  }

  /** Writing the chosen file does not change which file is chosen. */
  lemma SameFileAfterWrite(shell: string, home: map<string, ConfigFile>, name: string, written: ConfigFile)
    requires ConfigFileFor(shell, home) == Some(name)
    ensures ConfigFileFor(shell, home[name := written]) == Some(name)
  {
    var candidates := Candidates(shell);
    var home1 := home[name := written];
    match FirstExisting(candidates, home)
    case Some(i) =>
      FirstExistingAfterWrite(candidates, home, name, written, i);
    case None =>
      assert name == candidates[0];
      assert FirstExisting(candidates, home1) == Some(0);
  }

  lemma {:induction false} FirstExistingAfterWrite(candidates: seq<string>, home: map<string, ConfigFile>,
                                                   name: string, written: ConfigFile, i: nat)
    requires FirstExisting(candidates, home) == Some(i) && candidates[i] == name
    ensures FirstExisting(candidates, home[name := written]) == Some(i)
    decreases |candidates|
  {
    if i > 0 {
      assert candidates[0] !in home && candidates[0] != name;
      FirstExistingAfterWrite(candidates[1..], home, name, written, i - 1);
    }
  }

  /** A line written in one of the other accepted forms stops the write. */
  lemma AlternativeFormCounts(before: string, after: string, p: string)
    ensures AddEntry(before + "PATH=" + p + ":$PATH" + after, p).0 == false
  {
    var form := "PATH=" + p + ":$PATH";
    ContainsMiddle(before, form, after);
    assert before + "PATH=" + p + ":$PATH" + after == before + form + after;
    assert Contains(before + form + after, PresentForms(p)[5]);
  }
}
