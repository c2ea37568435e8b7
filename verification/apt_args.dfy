/** The apt quiet-mode rewriting of utils/runner.py (lines 91-121): for a
    vector whose token 0 or 1 is exactly `apt`, add `-qq` (after the apt
    token when `update` occurs, else after the first `install`) unless a
    quiet flag is already present, then add `-o APT::Status-Fd=/dev/null`
    after the run of `-`-prefixed tokens following the apt token unless
    `-o` is already present. The Python code mutates its list in place;
    here the rewrite returns a new sequence. */
module AptArgs {
  import opened Wrappers

  const QuietFlag := "-qq"
  const StatusOption := "-o"
  const StatusValue := "APT::Status-Fd=/dev/null"

  /** `token.startswith("-")`. */
  predicate IsFlag(token: string) {
    |token| > 0 && token[0] == '-'
  }

  /** Where the apt token sits: index 0, or index 1 behind a prefix such as `sudo`.
      Only the exact token `apt` counts, so `apt-get` vectors are never apt commands. */
  function AptIndex(c: seq<string>): (a: Option<nat>)
    ensures a.Some? <==> (|c| > 0 && c[0] == "apt") || (|c| > 1 && c[1] == "apt")
    ensures a.Some? ==> a.value <= 1 && a.value < |c| && c[a.value] == "apt" && (a.value == 0 <==> c[0] == "apt")
  {
    if |c| > 0 && c[0] == "apt" then Some(0)
    else if |c| > 1 && c[1] == "apt" then Some(1)
    else None
  }

  /** Some quiet flag of apt is already in the vector. */
  predicate HasQuiet(c: seq<string>) {
    "-q" in c || "-qq" in c || "-qqq" in c
  }

  /** `list.insert` of the tokens `xs` at index `i`. */
  function Insert(c: seq<string>, i: nat, xs: seq<string>): (r: seq<string>)
    requires i <= |c|
    ensures |r| == |c| + |xs|
    ensures r[..i] == c[..i] && r[i..i + |xs|] == xs && r[i + |xs|..] == c[i..]
  {
    c[..i] + xs + c[i..]
  }

  /** A token is in the result of an insertion iff it was in the vector or was inserted. */
  lemma InsertMember(c: seq<string>, i: nat, xs: seq<string>, t: string)
    requires i <= |c|
    ensures t in Insert(c, i, xs) <==> t in c || t in xs
  {
    assert c == c[..i] + c[i..];
  }

  /** `list.index(t)`: the first position of `t`. */
  function FirstIndex(c: seq<string>, t: string): (i: nat)
    requires t in c
    ensures i < |c| && c[i] == t && t !in c[..i]
  {
    if c[0] == t then 0
    else
      var i := FirstIndex(c[1..], t) + 1;
      assert c[..i] == [c[0]] + c[1..][..i - 1];
      i
  }

  /** The index at which `-qq` is inserted, or `None` when it is not. */
  function QuietPosition(c: seq<string>, a: nat): (p: Option<nat>)
    requires a < |c|
    ensures p.Some? <==> !HasQuiet(c) && ("update" in c || "install" in c)
    ensures p.Some? ==> 1 <= p.value <= |c|
  {
    if HasQuiet(c) then None
    else if "update" in c then Some(a + 1)
    else if "install" in c then Some(FirstIndex(c, "install") + 1)
    else None
  }

  function AddQuiet(c: seq<string>, a: nat): seq<string>
    requires a < |c|
  {
    match QuietPosition(c, a)
    case None => c
    case Some(p) => Insert(c, p, [QuietFlag])
  }

  /** The end of the run of flags that starts at index `j`. */
  function FlagRunEnd(c: seq<string>, j: nat): (k: nat)
    requires j <= |c|
    ensures j <= k <= |c|
    ensures forall m :: j <= m < k ==> IsFlag(c[m])
    ensures k == |c| || !IsFlag(c[k])
    decreases |c| - j
  {
    if j < |c| && IsFlag(c[j]) then FlagRunEnd(c, j + 1) else j
  }

  function AddStatusOption(c: seq<string>, a: nat): seq<string>
    requires a < |c|
  {
    if StatusOption in c then c
    else Insert(c, FlagRunEnd(c, a + 1), [StatusOption, StatusValue])
  }

  /** The complete rewrite applied to every vector `run` is asked to
      execute. It only inserts: the input survives as a subsequence, at most
      three tokens are added, index 0 is never touched, and a vector that is
      not an apt command passes through unchanged. */
  function Normalize(c: seq<string>): (r: seq<string>)
    ensures IsSubsequence(c, r)
    ensures |c| <= |r| <= |c| + 3
    ensures |c| > 0 ==> r[0] == c[0]
    ensures AptIndex(c).None? ==> r == c
  {
    match AptIndex(c)
    case None =>
      SubsequenceRefl(c);
      c
    case Some(a) =>
      var c1 := AddQuiet(c, a);
      QuietStepInserts(c, a);
      StatusStepInserts(c1, a);
      SubsequenceTrans(c, c1, AddStatusOption(c1, a));
      AddStatusOption(c1, a)
  }

  // ---------------------------------------------------------------------
  // Subsequences

  /** `a` can be obtained from `b` by deleting tokens. */
  predicate IsSubsequence(a: seq<string>, b: seq<string>)
    decreases |b|
  {
    if |a| == 0 then true
    else if |b| == 0 then false
    else (a[0] == b[0] && IsSubsequence(a[1..], b[1..])) || IsSubsequence(a, b[1..])
  }

  lemma {:induction false} SubsequenceRefl(a: seq<string>)
    ensures IsSubsequence(a, a)
    decreases |a|
  {
    if |a| > 0 {
      SubsequenceRefl(a[1..]);
    }
  }

  lemma {:induction false} SubsequenceTrans(a: seq<string>, b: seq<string>, c: seq<string>)
    requires IsSubsequence(a, b) && IsSubsequence(b, c)
    ensures IsSubsequence(a, c)
    decreases |c|
  {
    if |a| > 0 {
      if IsSubsequence(b, c[1..]) {
        SubsequenceTrans(a, b, c[1..]);
      } else if a[0] == b[0] && IsSubsequence(a[1..], b[1..]) {
        SubsequenceTrans(a[1..], b[1..], c[1..]);
      } else {
        SubsequenceTrans(a, b[1..], c[1..]);
      }
    }
  }

  /** Inserting tokens keeps the original as a subsequence. */
  lemma InsertKeepsSubsequence(c: seq<string>, i: nat, xs: seq<string>)
    requires i <= |c|
    ensures IsSubsequence(c, Insert(c, i, xs))
  {
    MiddleKeepsSubsequence(c[..i], xs, c[i..]);
    assert c[..i] + c[i..] == c;
  }

  /** Putting tokens between two parts keeps their concatenation as a subsequence. */
  lemma {:induction false} MiddleKeepsSubsequence(p: seq<string>, xs: seq<string>, q: seq<string>)
    ensures IsSubsequence(p + q, p + xs + q)
    decreases |p|
  {
    if |p| > 0 {
      MiddleKeepsSubsequence(p[1..], xs, q);
      assert (p + q)[1..] == p[1..] + q;
      assert (p + xs + q)[1..] == p[1..] + xs + q;
    } else {
      SubsequenceRefl(q);
      SubsequenceAfter(q, xs);
      assert p + q == q && p + xs + q == xs + q;
    }
  }

  /** Tokens in front keep a subsequence. */
  lemma {:induction false} SubsequenceAfter(a: seq<string>, pre: seq<string>)
    requires IsSubsequence(a, a)
    ensures IsSubsequence(a, pre + a)
    decreases |pre|
  {
    if |pre| > 0 {
      SubsequenceAfter(a, pre[1..]);
      assert (pre + a)[1..] == pre[1..] + a;
    } else {
      assert pre + a == a;
    }
  }

  /** The `-qq` step adds at most one token, after the first. */
  lemma QuietStepInserts(c: seq<string>, a: nat)
    requires a < |c|
    ensures var c1 := AddQuiet(c, a);
            && IsSubsequence(c, c1) && |c| <= |c1| <= |c| + 1 && c1[0] == c[0]
  {
    if QuietPosition(c, a).Some? {
      var p := QuietPosition(c, a).value;
      InsertKeepsSubsequence(c, p, [QuietFlag]);
    } else {
      SubsequenceRefl(c);
    }
  }

  /** The status-option step adds at most two tokens, after the apt token. */
  lemma StatusStepInserts(c1: seq<string>, a: nat)
    requires a < |c1|
    ensures var r := AddStatusOption(c1, a);
            && IsSubsequence(c1, r) && |c1| <= |r| <= |c1| + 2 && r[0] == c1[0]
  {
    if StatusOption !in c1 {
      InsertKeepsSubsequence(c1, FlagRunEnd(c1, a + 1), [StatusOption, StatusValue]);
    } else {
      SubsequenceRefl(c1);
    }
  }

  /** Which tokens the rewrite can add, and when. */
  lemma NormalizeMember(c: seq<string>, t: string)
    requires AptIndex(c).Some?
    ensures t in Normalize(c) <==>
      || t in c
      || (t == QuietFlag && QuietPosition(c, AptIndex(c).value).Some?)
      || (StatusOption !in c && (t == StatusOption || t == StatusValue))
  {
    var a := AptIndex(c).value;
    var c1 := AddQuiet(c, a);
    if QuietPosition(c, a).Some? {
      InsertMember(c, QuietPosition(c, a).value, [QuietFlag], t);
      InsertMember(c, QuietPosition(c, a).value, [QuietFlag], StatusOption);
    }
    assert StatusOption in c1 <==> StatusOption in c;
    if StatusOption !in c1 {
      InsertMember(c1, FlagRunEnd(c1, a + 1), [StatusOption, StatusValue], t);
    }
  }

  /** The exact growth: one token for `-qq` when it is added, two for the
      status option when `-o` was absent. */
  lemma NormalizeLength(c: seq<string>)
    requires AptIndex(c).Some?
    ensures |Normalize(c)| == |c|
      + (if !HasQuiet(c) && ("update" in c || "install" in c) then 1 else 0)
      + (if StatusOption !in c then 2 else 0)
  {
    var a := AptIndex(c).value;
    if QuietPosition(c, a).Some? {
      InsertMember(c, QuietPosition(c, a).value, [QuietFlag], StatusOption);
    }
  }

  // ---------------------------------------------------------------------
  // Idempotence

  /** Running the rewrite on its own output changes nothing. */
  lemma NormalizeIdempotent(c: seq<string>)
    ensures Normalize(Normalize(c)) == Normalize(c)
  {
    var r := Normalize(c);
    if AptIndex(c).Some? && AptIndex(r).Some? {
      var a := AptIndex(c).value;
      NormalizeMember(c, StatusOption);
      NormalizeMember(c, "-q");
      NormalizeMember(c, "-qq");
      NormalizeMember(c, "-qqq");
      NormalizeMember(c, "update");
      NormalizeMember(c, "install");
      assert HasQuiet(r) || ("update" !in r && "install" !in r);
      assert QuietPosition(r, AptIndex(r).value).None?;
    }
  }

  // ---------------------------------------------------------------------
  // Positions

  /** With `update` anywhere and no quiet flag, `-qq` lands right after the apt token. */
  lemma QuietAfterAptOnUpdate(c: seq<string>)
    requires AptIndex(c).Some? && !HasQuiet(c) && "update" in c
    ensures Normalize(c)[AptIndex(c).value + 1] == QuietFlag
  {
    var a := AptIndex(c).value;
    var c1 := AddQuiet(c, a);
    assert c1[a + 1] == QuietFlag;
    if StatusOption !in c1 {
      var k := FlagRunEnd(c1, a + 1);
      assert k > a + 1;
    }
  }

  /** The status option inserted before the first `install` shifts it and
      its `-qq` by two. */
  lemma StatusBeforeInstall(c1: seq<string>, i: nat, k: nat)
    requires i + 1 < |c1| && c1[i] == "install" && c1[i + 1] == QuietFlag && "install" !in c1[..i]
    requires k <= i
    ensures var r := Insert(c1, k, [StatusOption, StatusValue]);
            "install" in r && FirstIndex(r, "install") == i + 2 && r[i + 3] == QuietFlag
  {
    var r := Insert(c1, k, [StatusOption, StatusValue]);
    assert r[i + 2] == "install" && r[i + 3] == QuietFlag;
    forall m | 0 <= m < i + 2
      ensures r[m] != "install"
    {
      if m < k {
        assert r[m] == c1[..i][m];
      } else if m >= k + 2 {
        assert r[m] == c1[..i][m - 2];
      }
    }
    FirstIndexUnique(r, "install", i + 2);
  }

  /** The status option inserted after the `-qq` leaves both in place. */
  lemma StatusAfterInstall(c1: seq<string>, i: nat, k: nat)
    requires i + 1 < |c1| && c1[i] == "install" && c1[i + 1] == QuietFlag && "install" !in c1[..i]
    requires i + 1 < k <= |c1|
    ensures var r := Insert(c1, k, [StatusOption, StatusValue]);
            "install" in r && FirstIndex(r, "install") == i && r[i + 1] == QuietFlag
  {
    var r := Insert(c1, k, [StatusOption, StatusValue]);
    assert r[..i] == c1[..i];
    assert r[i] == "install" && r[i + 1] == QuietFlag;
    FirstIndexUnique(r, "install", i);
  }

  /** A position holding `t` with no earlier `t` is the first index of `t`. */
  lemma FirstIndexUnique(c: seq<string>, t: string, i: nat)
    requires i < |c| && c[i] == t && t !in c[..i]
    ensures FirstIndex(c, t) == i
  {
  }

  /** Without `update`, `-qq` lands right after the first `install`. */
  lemma QuietAfterFirstInstall(c: seq<string>)
    requires AptIndex(c).Some? && !HasQuiet(c) && "update" !in c && "install" in c
    ensures var r := Normalize(c);
            && "install" in r && FirstIndex(r, "install") + 1 < |r|
            && r[FirstIndex(r, "install") + 1] == QuietFlag
  {
    var a := AptIndex(c).value;
    var i := FirstIndex(c, "install");
    var c1 := AddQuiet(c, a);
    assert c1 == Insert(c, i + 1, [QuietFlag]);
    assert c1[i] == "install" && c1[i + 1] == QuietFlag;
    assert c1[..i] == c[..i];
    var r := Normalize(c);
    if StatusOption in c1 {
      FirstIndexUnique(c1, "install", i);
    } else {
      var k := FlagRunEnd(c1, a + 1);
      assert r == Insert(c1, k, [StatusOption, StatusValue]);
      if k <= i {
        StatusBeforeInstall(c1, i, k);
      } else {
        StatusAfterInstall(c1, i, k);
      }
    }
  }

  /** With neither `update` nor `install`, no quiet flag is added. */
  lemma NoQuietWithoutSubcommand(c: seq<string>)
    requires AptIndex(c).Some? && "update" !in c && "install" !in c
    ensures QuietFlag in Normalize(c) <==> QuietFlag in c
  {
  }

  /** `-o APT::Status-Fd=/dev/null` sits at index `k` of `r`, right after the
      maximal run of flags that follows index `apt`. */
  predicate StatusOptionAt(r: seq<string>, apt: nat, k: nat) {
    var from := apt + 1;
    && from <= k && k + 2 <= |r|
    && r[k] == StatusOption && r[k + 1] == StatusValue
    && (forall m :: from <= m < k ==> IsFlag(r[m]))
    && (k + 2 == |r| || !IsFlag(r[k + 2]))
  }

  /** When `-o` is absent, the status option is inserted right after the
      maximal run of flags that follows the apt token. */
  lemma StatusOptionPlacement(c: seq<string>)
    requires AptIndex(c).Some? && StatusOption !in c
    ensures exists k :: StatusOptionAt(Normalize(c), AptIndex(c).value, k)
  {
    var a := AptIndex(c).value;
    var c1 := AddQuiet(c, a);
    assert StatusOption !in c1;
    var k := FlagRunEnd(c1, a + 1);
    var r := Normalize(c);
    assert r[..k] == c1[..k];
    assert forall m :: a + 1 <= m < k ==> r[m] == c1[m];
    assert k + 2 < |r| ==> r[k + 2] == c1[k];
    assert StatusOptionAt(r, a, k);
  }

  /** The apt token keeps its index, so the rewritten vector is still an apt
      command at the same place, unless the first `install` stands before the
      apt token (token 0 is `install`, token 1 is `apt`). */
  lemma AptTokenStays(c: seq<string>)
    requires AptIndex(c).Some? && c[0] != "install"
    ensures AptIndex(Normalize(c)) == AptIndex(c)
  {
    var a := AptIndex(c).value;
    var c1 := AddQuiet(c, a);
    match QuietPosition(c, a)
    case None =>
    case Some(p) =>
      assert p > a by {
        if "update" !in c {
          var i := FirstIndex(c, "install");
          assert i != 0;
        }
      }
      assert c1[..p] == c[..p];
    assert c1[a] == "apt" && c1[0] == c[0];
    var r := Normalize(c);
    if StatusOption !in c1 {
      var k := FlagRunEnd(c1, a + 1);
      assert r[..k] == c1[..k];
    }
  }

  /** The exception to `AptTokenStays`: both insertions go in front of `apt`. */
  lemma InstallBeforeAptMovesToken()
    ensures Normalize(["install", "apt"])
         == ["install", QuietFlag, StatusOption, StatusValue, "apt"]
    ensures AptIndex(Normalize(["install", "apt"])).None?
  {
    var c := ["install", "apt"];
    var c1 := ["install", QuietFlag, "apt"];
    assert AptIndex(c) == Some(1);
    InstallFirstQuietStep(c, c1);
    InstallFirstStatusStep(c1);
  }

  lemma InstallFirstQuietStep(c: seq<string>, c1: seq<string>)
    requires c == ["install", "apt"] && c1 == ["install", QuietFlag, "apt"]
    ensures AddQuiet(c, 1) == c1
  {
    assert "update" !in c;
    assert FirstIndex(c, "install") == 0;
  }

  lemma InstallFirstStatusStep(c1: seq<string>)
    requires c1 == ["install", QuietFlag, "apt"]
    ensures AddStatusOption(c1, 1) == ["install", QuietFlag, StatusOption, StatusValue, "apt"]
  {
    assert StatusOption !in c1;
    assert FlagRunEnd(c1, 2) == 2;
  }

  /** `sudo apt update` becomes `sudo apt -qq -o APT::Status-Fd=/dev/null update`. */
  lemma SudoAptUpdateExample()
    ensures Normalize(["sudo", "apt", "update"])
         == ["sudo", "apt", QuietFlag, StatusOption, StatusValue, "update"]
  {
    var c := ["sudo", "apt", "update"];
    var c1 := ["sudo", "apt", QuietFlag, "update"];
    assert AptIndex(c) == Some(1);
    UpdateQuietStep(c, c1);
    UpdateStatusStep(c1);
  }

  lemma UpdateQuietStep(c: seq<string>, c1: seq<string>)
    requires c == ["sudo", "apt", "update"] && c1 == ["sudo", "apt", QuietFlag, "update"]
    ensures AddQuiet(c, 1) == c1
  {
    assert !HasQuiet(c) && "update" in c;
  }

  lemma UpdateStatusStep(c1: seq<string>)
    requires c1 == ["sudo", "apt", QuietFlag, "update"]
    ensures AddStatusOption(c1, 1) == ["sudo", "apt", QuietFlag, StatusOption, StatusValue, "update"]
  {
    assert StatusOption !in c1;
    assert FlagRunEnd(c1, 2) == 3 by {
      assert IsFlag(c1[2]) && !IsFlag(c1[3]);
    }
  }

  /** `sudo apt install -y zsh`: `-qq` goes after `install`, and the status
      option after `apt`, ahead of the sub-command. */
  lemma SudoAptInstallExample()
    ensures Normalize(["sudo", "apt", "install", "-y", "zsh"])
         == ["sudo", "apt", StatusOption, StatusValue, "install", QuietFlag, "-y", "zsh"]
  {
    var c := ["sudo", "apt", "install", "-y", "zsh"];
    var c1 := ["sudo", "apt", "install", QuietFlag, "-y", "zsh"];
    assert AptIndex(c) == Some(1);
    InstallQuietStep(c, c1);
    InstallStatusStep(c1);
  }

  lemma InstallQuietStep(c: seq<string>, c1: seq<string>)
    requires c == ["sudo", "apt", "install", "-y", "zsh"]
    requires c1 == ["sudo", "apt", "install", QuietFlag, "-y", "zsh"]
    ensures AddQuiet(c, 1) == c1
  {
    assert !HasQuiet(c) && "update" !in c;
    assert FirstIndex(c, "install") == 2 by {
      assert c[2] == "install" && "install" !in c[..2];
    }
  }

  lemma InstallStatusStep(c1: seq<string>)
    requires c1 == ["sudo", "apt", "install", QuietFlag, "-y", "zsh"]
    ensures AddStatusOption(c1, 1) == ["sudo", "apt", StatusOption, StatusValue, "install", QuietFlag, "-y", "zsh"]
  {
    assert StatusOption !in c1;
    assert FlagRunEnd(c1, 2) == 2 by {
      assert !IsFlag(c1[2]);
    }
  }
}
