/** The interactive session of main.py: bootstrap first and alone, then
    one question per remaining tool that is not installed yet, then the
    chosen installers in menu order, then the summary table. Whether a
    tool is installed, the user's answer and how its installer ends are
    given with each menu entry, in the place of the calls that produce
    them. */
module Setup {
  import opened Wrappers
  import opened Text
  import opened Types

  /** How one `installer.install()` call ends. */
  datatype Outcome =
    | Returned(result: InstallerResult)
    | Raised(text: string)
    /** `KeyboardInterrupt`. */
    | Interrupted

  /** A menu entry with the answers the environment gives about it. */
  datatype Choice = Choice(name: string, installed: bool, wanted: bool, outcome: Outcome)

  /** How `run` ends. */
  datatype Ending =
    /** The bootstrap reported failure; nothing else is asked or installed. */
    | BootstrapFailed
    /** The user chose nothing; no summary is shown. */
    | NothingSelected
    /** The chosen installers ran and the summary was shown. */
    | Summarized
    /** The bootstrap raised; the exception leaves `run`. */
    | Escaped

  /** The `(name, result)` pairs recorded, the menu positions whose
      installer was called, in call order, and how the session ended. */
  datatype Session = Session(results: seq<(string, InstallerResult)>, attempted: seq<nat>, ending: Ending)

  /** An entry the user is asked about and says yes to. */
  predicate Offered(c: Choice) {
    !c.installed && c.wanted
  }

  predicate Increasing(xs: seq<nat>) {
    forall i, j :: 0 <= i < j < |xs| ==> xs[i] < xs[j]
  }

  /** The selection loop over `install_options[from:]`: the positions of the
      entries that are not installed and that the user wants, in menu order. */
  function Selection(options: seq<Choice>, from: nat): (sel: seq<nat>)
    requires from <= |options|
    ensures Increasing(sel)
    ensures forall k :: 0 <= k < |sel| ==> from <= sel[k] < |options| && Offered(options[sel[k]])
    ensures forall i :: from <= i < |options| && Offered(options[i]) ==> i in sel
    decreases |options| - from
  {
    if from == |options| then []
    else
      var rest := Selection(options, from + 1);
      if Offered(options[from]) then [from] + rest else rest
  }

  const UnexpectedPrefix := "Unexpected error: "

  /** The pair recorded for an installer call that did not interrupt: the
      returned result, or a failure built from the exception's text. */
  function Entry(c: Choice): (e: (string, InstallerResult))
    requires !c.outcome.Interrupted?
    ensures e.0 == c.name
    ensures c.outcome.Returned? ==> e.1 == c.outcome.result
    ensures c.outcome.Raised? ==>
      && !e.1.success && e.1.error == Some(c.outcome.text)
      && Between(e.1.message, UnexpectedPrefix, "") == Some(c.outcome.text)
  {
    match c.outcome
    case Returned(r) => (c.name, r)
    case Raised(text) =>
      BetweenFilled(UnexpectedPrefix, text, "");
      assert UnexpectedPrefix + text + "" == UnexpectedPrefix + text;
      (c.name, InstallerResult(false, UnexpectedPrefix + text, Some(text)))
  }

  /** What the install loop leaves behind: the recorded pairs, the
      positions whose installer was called, and whether it was cut short. */
  datatype Installs = Installs(entries: seq<(string, InstallerResult)>, tried: seq<nat>, interrupted: bool)

  /** The loop's result describes a run over `sel`. */
  predicate InstallsOver(options: seq<Choice>, sel: seq<nat>, r: Installs) {
    && |r.tried| <= |sel| && r.tried == sel[..|r.tried|]
    && (forall k :: 0 <= k < |r.tried| ==> r.tried[k] < |options|)
    && (!r.interrupted ==> r.tried == sel && |r.entries| == |sel|)
    && (r.interrupted ==> |r.tried| >= 1 && |r.entries| == |r.tried| - 1
                          && options[r.tried[|r.tried| - 1]].outcome.Interrupted?)
    && (forall k :: 0 <= k < |r.entries| ==>
          !options[r.tried[k]].outcome.Interrupted? && r.entries[k] == Entry(options[r.tried[k]]))
  }

  /** The install loop over the selected positions: every call that
      completes or raises is recorded and the loop goes on; an interrupt
      records nothing and ends the loop. */
  function InstallSelected(options: seq<Choice>, sel: seq<nat>): (r: Installs)
    requires forall k :: 0 <= k < |sel| ==> sel[k] < |options|
    ensures InstallsOver(options, sel, r)
    decreases |sel|
  {
    if |sel| == 0 then Installs([], [], false)
    else
      var c := options[sel[0]];
      if c.outcome.Interrupted? then Installs([], [sel[0]], true)
      else
        var rest := InstallSelected(options, sel[1..]);
        InstallsCons(options, sel, rest);
        Installs([Entry(c)] + rest.entries, [sel[0]] + rest.tried, rest.interrupted)
  }

  /** One completed call in front of the rest of the loop. */
  lemma InstallsCons(options: seq<Choice>, sel: seq<nat>, rest: Installs)
    requires |sel| >= 1 && sel[0] < |options| && !options[sel[0]].outcome.Interrupted?
    requires InstallsOver(options, sel[1..], rest)
    ensures InstallsOver(options, sel,
              Installs([Entry(options[sel[0]])] + rest.entries, [sel[0]] + rest.tried, rest.interrupted))
  {
    var entries := [Entry(options[sel[0]])] + rest.entries;
    var tried := [sel[0]] + rest.tried;
    assert tried == sel[..|tried|] by {
      assert sel[1..][..|rest.tried|] == sel[1..|rest.tried| + 1];
    }
    assert forall k :: 1 <= k < |tried| ==> tried[k] == rest.tried[k - 1];
    assert forall k :: 1 <= k < |entries| ==> entries[k] == rest.entries[k - 1];
  }

  /** No entry of `sel` is interrupted: every call completes or raises. */
  predicate NoneInterrupted(options: seq<Choice>, sel: seq<nat>)
    requires forall k :: 0 <= k < |sel| ==> sel[k] < |options|
  {
    forall k :: 0 <= k < |sel| ==> !options[sel[k]].outcome.Interrupted?
  }

  /** The calls and records of a session line up: the bootstrap (position 0)
      is called first, later calls are for offered entries in menu order,
      and record `k` comes from call `k`, which completed or raised. */
  predicate CallsAndRecords(options: seq<Choice>, s: Session) {
    && |s.attempted| >= 1 && s.attempted[0] == 0
    && Increasing(s.attempted)
    && (forall k :: 0 <= k < |s.attempted| ==> s.attempted[k] < |options|)
    && (forall k :: 1 <= k < |s.attempted| ==> Offered(options[s.attempted[k]]))
    && |s.results| <= |s.attempted|
    && (forall k :: 1 <= k < |s.results| ==>
          !options[s.attempted[k]].outcome.Interrupted? && s.results[k] == Entry(options[s.attempted[k]]))
  }

  /** The calls after the bootstrap follow the selection: they are a prefix
      of it, and all of it, each with a record, when no selected installer
      is interrupted. The loop stops early only at an interrupt: when every
      call has a record, all of the selection was called, and a call
      without a record is the last one and was interrupted. */
  predicate CoversSelection(options: seq<Choice>, s: Session)
    requires |options| >= 1 && CallsAndRecords(options, s)
  {
    var sel := Selection(options, 1);
    && |s.attempted| - 1 <= |sel| && s.attempted[1..] == sel[..|s.attempted| - 1]
    && (NoneInterrupted(options, sel) ==> s.attempted[1..] == sel && |s.results| == |s.attempted|)
    && (|s.results| == |s.attempted| ==> s.attempted[1..] == sel)
    && (|s.results| < |s.attempted| ==>
          |s.results| == |s.attempted| - 1 && options[s.attempted[|s.attempted| - 1]].outcome.Interrupted?)
  }

  /** The part of `run` after a successful bootstrap recorded as `first`:
      ask about every other entry, then install the chosen ones. */
  function AfterBootstrap(options: seq<Choice>, first: (string, InstallerResult)): (s: Session)
    requires |options| >= 1
    ensures s.ending == NothingSelected || s.ending == Summarized
    ensures s.ending == NothingSelected <==> forall i :: 1 <= i < |options| ==> !Offered(options[i])
    ensures s.ending == NothingSelected ==> s.attempted == [0]
    ensures |s.results| >= 1 && s.results[0] == first
    ensures CallsAndRecords(options, s) && CoversSelection(options, s)
  {
    var sel := Selection(options, 1);
    if |sel| == 0 then
      Session([first], [0], NothingSelected)
    else
      var r := InstallSelected(options, sel);
      var s := Session([first] + r.entries, [0] + r.tried, Summarized);
      SummarizedSession(options, first, sel, r, s);
      s
  }

  /** The session `AfterBootstrap` builds when something was selected. */
  lemma SummarizedSession(options: seq<Choice>, first: (string, InstallerResult), sel: seq<nat>, r: Installs,
                          s: Session)
    requires |options| >= 1 && sel == Selection(options, 1)
    requires InstallsOver(options, sel, r)
    requires s == Session([first] + r.entries, [0] + r.tried, Summarized)
    ensures CallsAndRecords(options, s) && CoversSelection(options, s)
  {
    SelectedRunShape(options, first, sel, r.entries, r.tried, s.results, s.attempted);
    LoopCoversSelection(options, sel, r, s.results, s.attempted);
  }

  /** The calls after the bootstrap follow the selection; all of it is called
      and recorded unless an interrupt cut the loop short, which leaves the
      interrupted call last and unrecorded. */
  lemma LoopCoversSelection(options: seq<Choice>, sel: seq<nat>, r: Installs,
                            results: seq<(string, InstallerResult)>, attempted: seq<nat>)
    requires forall k :: 0 <= k < |sel| ==> sel[k] < |options|
    requires InstallsOver(options, sel, r)
    requires |results| == 1 + |r.entries| && attempted == [0] + r.tried
    ensures |attempted| - 1 <= |sel| && attempted[1..] == sel[..|attempted| - 1]
    ensures NoneInterrupted(options, sel) ==> attempted[1..] == sel && |results| == |attempted|
    ensures |results| == |attempted| ==> attempted[1..] == sel
    ensures |results| < |attempted| ==>
      |results| == |attempted| - 1 && options[attempted[|attempted| - 1]].outcome.Interrupted?
  {
    assert attempted[1..] == r.tried;
    if r.interrupted {
      assert r.tried[|r.tried| - 1] == sel[|r.tried| - 1];
    }
  }

  /** The pieces `AfterBootstrap` assembles line up: the bootstrap's pair
      and position first, then the install loop's, one for one. */
  lemma SelectedRunShape(options: seq<Choice>, first: (string, InstallerResult), sel: seq<nat>,
                         entries: seq<(string, InstallerResult)>, tried: seq<nat>,
                         results: seq<(string, InstallerResult)>, attempted: seq<nat>)
    requires |options| >= 1 && Increasing(sel)
    requires forall k :: 0 <= k < |sel| ==> 1 <= sel[k] < |options| && Offered(options[sel[k]])
    requires |tried| <= |sel| && tried == sel[..|tried|] && |entries| <= |tried|
    requires forall k :: 0 <= k < |entries| ==>
      !options[tried[k]].outcome.Interrupted? && entries[k] == Entry(options[tried[k]])
    requires attempted == [0] + tried && results == [first] + entries
    ensures Increasing(attempted)
    ensures forall k :: 0 <= k < |attempted| ==> attempted[k] < |options|
    ensures forall k :: 1 <= k < |attempted| ==> Offered(options[attempted[k]])
    ensures forall k :: 1 <= k < |results| ==>
      && !options[attempted[k]].outcome.Interrupted?
      && results[k] == Entry(options[attempted[k]])
  {
    assert forall k :: 0 <= k < |tried| ==> tried[k] == sel[k];
    assert forall k :: 1 <= k < |attempted| ==> attempted[k] == tried[k - 1];
    assert forall k :: 1 <= k < |results| ==> results[k] == entries[k - 1];
  }

  /** `SetupManager.run` from the bootstrap to the summary. The bootstrap
      is position 0 and is called outside any handler. */
  function Run(options: seq<Choice>): (s: Session)
    requires |options| >= 1
    ensures s.ending == Escaped <==> !options[0].outcome.Returned?
    ensures s.ending == BootstrapFailed <==>
      options[0].outcome.Returned? && !options[0].outcome.result.success
    ensures s.ending == NothingSelected <==>
      && options[0].outcome.Returned? && options[0].outcome.result.success
      && forall i :: 1 <= i < |options| ==> !Offered(options[i])
    ensures s.ending != Summarized ==> s.attempted == [0]
    ensures s.ending != Escaped ==> |s.results| >= 1 && s.results[0] == (options[0].name, options[0].outcome.result)
    ensures s.ending == Escaped ==> s.results == []
    ensures CallsAndRecords(options, s)
    ensures s.ending == Summarized || s.ending == NothingSelected ==> CoversSelection(options, s)
  {
    var boot := options[0];
    match boot.outcome
    case Raised(_) => Session([], [0], Escaped)
    case Interrupted => Session([], [0], Escaped)
    case Returned(r) =>
      if !r.success then Session([(boot.name, r)], [0], BootstrapFailed)
      else AfterBootstrap(options, (boot.name, r))
  }

  /** An entry that is already installed is never asked about and its
      installer is never called, whatever the user would have answered. */
  lemma InstalledNeverReinstalled(options: seq<Choice>, i: nat)
    requires |options| >= 1 && 1 <= i < |options| && options[i].installed
    ensures i !in Run(options).attempted
  {
  }

  /** An interrupt ends the session's installs: no entry after the
      interrupted one is attempted, the interrupted one records nothing,
      and the summary still follows. */
  lemma InterruptStopsInstalls(options: seq<Choice>, k: nat)
    requires |options| >= 1
    ensures var s := Run(options);
            1 <= k < |s.attempted| && options[s.attempted[k]].outcome.Interrupted? ==>
              && k == |s.attempted| - 1
              && |s.results| == k
              && s.ending == Summarized
  {
    var s := Run(options);
    if 1 <= k < |s.attempted| && options[s.attempted[k]].outcome.Interrupted? {
      var sel := Selection(options, 1);
      assert s.attempted == [0] + InstallSelected(options, sel).tried;
    }
  }

  // ---------------------------------------------------------------------
  // The summary table

  const TruncateAt := 50

  /** The message cell: the result's message, then the error in
      parentheses when there is one, cut to 50 characters plus `...`.
      The cell always starts with the message; a short error can be read
      back whole, a long one by its first 50 characters. */
  function RowMessage(r: InstallerResult): (cell: string)
    ensures StartsWith(cell, r.message)
    ensures !Truthy(r.error) ==> cell == r.message
    ensures Truthy(r.error) && |r.error.value| <= TruncateAt ==>
      Between(cell, r.message + " (", ")") == Some(r.error.value)
    ensures Truthy(r.error) && |r.error.value| > TruncateAt ==>
      Between(cell, r.message + " (", "...)") == Some(r.error.value[..TruncateAt])
      && |cell| == |r.message| + TruncateAt + 6
  {
    if !Truthy(r.error) then r.message
    else
      var e := r.error.value;
      var shown := if |e| > TruncateAt then e[..TruncateAt] else e;
      var post := if |e| > TruncateAt then "...)" else ")";
      BetweenFilled(r.message + " (", shown, post);
      r.message + " (" + shown + post
  }

  datatype Row = Row(tool: string, succeeded: bool, message: string)

  /** The number of successful results. */
  function Successes(results: seq<(string, InstallerResult)>): (n: nat)
    ensures n <= |results|
  {
    if |results| == 0 then 0
    else Successes(results[..|results| - 1]) + (if results[|results| - 1].1.success then 1 else 0)
  }

  /** The table row of one recorded result. */
  function RowOf(entry: (string, InstallerResult)): Row {
    Row(entry.0, entry.1.success, RowMessage(entry.1))
  }

  /** One row per result, in order, each with the result's name, status and message cell. */
  predicate RowsFor(rows: seq<Row>, results: seq<(string, InstallerResult)>) {
    |rows| == |results| && forall k :: 0 <= k < |rows| ==> rows[k] == RowOf(results[k])
  }

  lemma RowsForSnoc(rows: seq<Row>, results: seq<(string, InstallerResult)>, entry: (string, InstallerResult))
    requires RowsFor(rows, results)
    ensures RowsFor(rows + [RowOf(entry)], results + [entry])
  {
  }

  /** `show_summary`: one row per recorded result, in order, and the tallies
      printed under the table. */
  method ShowSummary(results: seq<(string, InstallerResult)>)
    returns (rows: seq<Row>, succeeded: nat, failed: nat, total: nat)
    ensures RowsFor(rows, results)
    ensures succeeded == Successes(results)
    ensures succeeded + failed == total == |results|
  {
    rows := [];
    succeeded := 0;
    failed := 0;
    var i := 0;
    while i < |results|
      invariant 0 <= i <= |results|
      invariant RowsFor(rows, results[..i])
      invariant succeeded == Successes(results[..i])
      invariant succeeded + failed == i
    {
      var (name, result) := results[i];
      if result.success {
        succeeded := succeeded + 1;
      } else {
        failed := failed + 1;
      }
      RowsForSnoc(rows, results[..i], results[i]);
      rows := rows + [Row(name, result.success, RowMessage(result))];
      assert results[..i + 1] == results[..i] + [results[i]];
      i := i + 1;
    }
    assert results[..i] == results;
    total := |results|;
  }

  /** The success tally counts exactly the results that succeeded: it grows
      by one for each successful result appended and stays for a failed one. */
  lemma {:induction false} SuccessesAppend(a: seq<(string, InstallerResult)>, b: seq<(string, InstallerResult)>)
    ensures Successes(a + b) == Successes(a) + Successes(b)
    decreases |b|
  {
    if |b| > 0 {
      var b0 := b[..|b| - 1];
      SuccessesAppend(a, b0);
      assert (a + b)[..|a + b| - 1] == a + b0;
    } else {
      assert a + b == a;
    }
  }

  /** A session whose bootstrap succeeds and whose every chosen installer
      succeeds shows no failure. */
  lemma AllSucceededNoFailures(options: seq<Choice>)
    requires |options| >= 1
    requires forall i :: 0 <= i < |options| ==> options[i].outcome.Returned? && options[i].outcome.result.success
    ensures Successes(Run(options).results) == |Run(options).results|
  {
    var s := Run(options);
    SessionResultsSucceed(options, s);
    AllSuccessful(s.results);
  }

  /** The records of a session over all-successful choices are successful;
      stated over the shape `Run` guarantees, not over `Run` itself. */
  lemma SessionResultsSucceed(options: seq<Choice>, s: Session)
    requires |options| >= 1
    requires forall i :: 0 <= i < |options| ==> options[i].outcome.Returned? && options[i].outcome.result.success
    requires s.ending == Escaped <==> !options[0].outcome.Returned?
    requires s.ending != Escaped ==> |s.results| >= 1 && s.results[0] == (options[0].name, options[0].outcome.result)
    requires |s.results| <= |s.attempted|
    requires forall k :: 0 <= k < |s.attempted| ==> s.attempted[k] < |options|
    requires forall k :: 1 <= k < |s.results| ==>
      !options[s.attempted[k]].outcome.Interrupted? && s.results[k] == Entry(options[s.attempted[k]])
    ensures forall k :: 0 <= k < |s.results| ==> s.results[k].1.success
  {
    forall k | 0 <= k < |s.results|
      ensures s.results[k].1.success
    {
      if k >= 1 {
        assert options[s.attempted[k]].outcome.Returned?;
      }
    }
  }

  lemma {:induction false} AllSuccessful(results: seq<(string, InstallerResult)>)
    requires forall k :: 0 <= k < |results| ==> results[k].1.success
    ensures Successes(results) == |results|
    decreases |results|
  {
    if |results| > 0 {
      AllSuccessful(results[..|results| - 1]);
    }
  }
}
