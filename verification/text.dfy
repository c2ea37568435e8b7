/** The Python `str` operations the core relies on, over `seq<char>`:
    `rstrip`/`strip`, `lower`, `in`, `startswith`/`endswith`,
    `split(c)`, `sep.join(...)` and `str(int)`. */
module Text {
  import opened Wrappers


  /** Python's `str.isspace` for one character (whitespace and the
      separators of bidirectional class B and S). */
  predicate IsSpace(c: char) {
    || c == ' ' || c == '\t' || c == '\n' || c == '\r'
    || c == '\U{0B}' || c == '\U{0C}'
    || ('\U{1C}' <= c <= '\U{1F}')
    || c == '\U{85}' || c == '\U{A0}' || c == '\U{1680}'
    || ('\U{2000}' <= c <= '\U{200A}')
    || c == '\U{2028}' || c == '\U{2029}' || c == '\U{202F}'
    || c == '\U{205F}' || c == '\U{3000}'
  }

  /** `s.rstrip()`: the longest prefix of `s` after which only whitespace follows. */
  function RStrip(s: string): (r: string)
    ensures r <= s
    ensures r == [] || !IsSpace(r[|r| - 1])
    ensures forall k :: |r| <= k < |s| ==> IsSpace(s[k])
  {
    if |s| > 0 && IsSpace(s[|s| - 1]) then RStrip(s[..|s| - 1]) else s
  }

  /** The number of whitespace characters `s` starts with. */
  function LeadingSpaces(s: string): (n: nat)
    ensures n <= |s|
    ensures forall k :: 0 <= k < n ==> IsSpace(s[k])
    ensures n == |s| || !IsSpace(s[n])
    decreases |s|
  {
    if |s| > 0 && IsSpace(s[0]) then 1 + LeadingSpaces(s[1..]) else 0
  }

  /** `s.lstrip()`: `s` without its leading whitespace. */
  function LStrip(s: string): (r: string)
    ensures |r| <= |s| && r == s[|s| - |r|..]
    ensures r == [] || !IsSpace(r[0])
    ensures forall k :: 0 <= k < |s| - |r| ==> IsSpace(s[k])
  {
    s[LeadingSpaces(s)..]
  }

  /** `r` is `s` without the whitespace at its two ends: a slice of `s`
      starting at `i`, with only whitespace around it and none at its own
      ends. */
  predicate StrippedAt(s: string, r: string, i: nat) {
    && i + |r| <= |s| && r == s[i..i + |r|]
    && (forall k :: 0 <= k < i ==> IsSpace(s[k]))
    && (forall k :: i + |r| <= k < |s| ==> IsSpace(s[k]))
    && (r == [] || (!IsSpace(r[0]) && !IsSpace(r[|r| - 1])))
  }

  /** `s.strip()`. */
  function Strip(s: string): (r: string)
    ensures |r| <= |RStrip(s)| && StrippedAt(s, r, |RStrip(s)| - |r|)
  {
    var t := RStrip(s);
    var r := LStrip(t);
    assert s[|t| - |r|..|t|] == t[|t| - |r|..];
    r
  }

  predicate IsUpper(c: char) {
    'A' <= c <= 'Z'
  }

  function LowerChar(c: char): char {
    if IsUpper(c) then (c as int + 32) as char else c
  }

  /** `s.lower()` restricted to ASCII letters; every needle the core
      looks for in lower-cased text is ASCII, so only these letters
      can change a match. */
  function Lower(s: string): (r: string)
    ensures |r| == |s|
    ensures forall k :: 0 <= k < |s| ==> r[k] == LowerChar(s[k])
  {
    if |s| == 0 then [] else [LowerChar(s[0])] + Lower(s[1..])
  }

  predicate StartsWith(s: string, p: string) {
    p <= s
  }

  predicate EndsWith(s: string, q: string) {
    |q| <= |s| && s[|s| - |q|..] == q
  }

  /** Python's substring test `t in s`. */
  predicate Contains(s: string, t: string)
    decreases |s|
  {
    t <= s || (|s| > 0 && Contains(s[1..], t))
  }

  /** A string occurring between two others is a substring of the whole. */
  lemma {:induction false} ContainsMiddle(a: string, t: string, b: string)
    ensures Contains(a + t + b, t)
  {
    if |a| == 0 {
      assert a + t + b == t + b;
      assert t <= t + b;
    } else {
      ContainsMiddle(a[1..], t, b);
      assert (a + t + b)[1..] == a[1..] + t + b;
    }
  }

  /** Text without upper-case letters never contains a needle that has one. */
  lemma {:induction false} NoUpperNoMatch(s: string, t: string, j: nat)
    requires forall k :: 0 <= k < |s| ==> !IsUpper(s[k])
    requires j < |t| && IsUpper(t[j])
    ensures !Contains(s, t)
  {
    if |s| > 0 {
      NoUpperNoMatch(s[1..], t, j);
    }
  }

  /** `sep.join(parts)`. */
  function Join(parts: seq<string>, sep: string): string
    decreases |parts|
  {
    if |parts| == 0 then []
    else if |parts| == 1 then parts[0]
    else parts[0] + sep + Join(parts[1..], sep)
  }

  /** A non-empty join starts with its first part and ends with its last. */
  lemma {:induction false} JoinEnds(parts: seq<string>, sep: string)
    requires |parts| >= 1
    ensures StartsWith(Join(parts, sep), parts[0])
    ensures EndsWith(Join(parts, sep), parts[|parts| - 1])
  {
    if |parts| > 1 {
      JoinEnds(parts[1..], sep);
      var rest := Join(parts[1..], sep);
      var whole := parts[0] + sep + rest;
      assert whole[|whole| - |rest|..] == rest;
      assert whole[|whole| - |parts[|parts| - 1]|..]
          == rest[|rest| - |parts[|parts| - 1]|..];
    }
  }

  /** `s.split(sep)` for a one-character separator. */
  function Split(s: string, sep: char): (parts: seq<string>)
    ensures |parts| >= 1
    ensures forall i :: 0 <= i < |parts| ==> sep !in parts[i]
    ensures Join(parts, [sep]) == s
    decreases |s|
  {
    if |s| == 0 then [[]]
    else if s[0] == sep then
      var rest := Split(s[1..], sep);
      assert [[]] + rest == [[]] + rest;
      assert ([[]] + rest)[1..] == rest;
      [[]] + rest
    else
      var rest := Split(s[1..], sep);
      var parts := [[s[0]] + rest[0]] + rest[1..];
      assert parts[1..] == rest[1..];
      assert Join(parts, [sep]) == [s[0]] + Join(rest, [sep]);
      parts
  }

  /** The last piece of `s.split(sep)` is the text after the last `sep`
      (all of `s` when `sep` does not occur). */
  lemma {:induction false} SplitLast(s: string, sep: char)
    ensures var parts := Split(s, sep);
            var last := parts[|parts| - 1];
            && sep !in last
            && EndsWith(s, last)
            && (last == s || s[|s| - |last| - 1] == sep)
  {
    var parts := Split(s, sep);
    JoinEnds(parts, [sep]);
    var last := parts[|parts| - 1];
    if |parts| > 1 {
      LastJoin(parts, [sep]);
    }
  }

  lemma {:induction false} LastJoin(parts: seq<string>, sep: string)
    requires |parts| > 1
    ensures var j := Join(parts, sep);
            var last := parts[|parts| - 1];
            |last| + |sep| <= |j| && j[|j| - |last| - |sep|..|j| - |last|] == sep
  {
    if |parts| > 2 {
      LastJoin(parts[1..], sep);
      var rest := Join(parts[1..], sep);
      var j := parts[0] + sep + rest;
      var last := parts[|parts| - 1];
      assert j[|j| - |rest|..] == rest;
      SliceOfSuffix(j, rest, |rest| - |last| - |sep|, |rest| - |last|);
    } else {
      var j := parts[0] + sep + parts[1];
      assert j[|parts[0]|..|parts[0]| + |sep|] == sep;
    }
  }

  /** A slice of a suffix is the same slice of the whole, shifted. */
  lemma SliceOfSuffix(s: string, suffix: string, a: nat, b: nat)
    requires |suffix| <= |s| && s[|s| - |suffix|..] == suffix && a <= b <= |suffix|
    ensures s[|s| - |suffix| + a..|s| - |suffix| + b] == suffix[a..b]
  {
    assert forall k :: a <= k < b ==> s[|s| - |suffix| + k] == suffix[k];
  }

  /** Joining pieces that do not contain the separator loses nothing:
      splitting the result gives the pieces back. With `Split`'s own
      `Join(Split(s)) == s` this makes the two inverse. */
  lemma SplitJoin(parts: seq<string>, sep: char)
    requires |parts| >= 1
    requires forall i :: 0 <= i < |parts| ==> sep !in parts[i]
    ensures Split(Join(parts, [sep]), sep) == parts
  {
    var s := Join(parts, [sep]);
    JoinInjective(Split(s, sep), parts, sep);
  }

  /** Two sequences of separator-free pieces with the same join are equal. */
  lemma {:induction false} JoinInjective(p: seq<string>, q: seq<string>, sep: char)
    requires |p| >= 1 && |q| >= 1
    requires forall i :: 0 <= i < |p| ==> sep !in p[i]
    requires forall i :: 0 <= i < |q| ==> sep !in q[i]
    requires Join(p, [sep]) == Join(q, [sep])
    ensures p == q
    decreases |p|
  {
    var s := Join(p, [sep]);
    if |p| > 1 && |q| > 1 {
      assert s == p[0] + [sep] + Join(p[1..], [sep]);
      assert s == q[0] + [sep] + Join(q[1..], [sep]);
      FirstSeparator(p[0], Join(p[1..], [sep]), sep);
      FirstSeparator(q[0], Join(q[1..], [sep]), sep);
      if |p[0]| != |q[0]| {
        assert false;
      }
      assert p[0] == s[..|p[0]|] == q[0];
      assert Join(p[1..], [sep]) == s[|p[0]| + 1..] == Join(q[1..], [sep]);
      JoinInjective(p[1..], q[1..], sep);
      assert p == [p[0]] + p[1..] && q == [q[0]] + q[1..];
    } else if |p| > 1 || |q| > 1 {
      assert false;
    }
  }

  /** In `x + [sep] + rest` with `sep` not in `x`, the first separator is at `|x|`. */
  lemma FirstSeparator(x: string, rest: string, sep: char)
    requires sep !in x
    ensures (x + [sep] + rest)[|x|] == sep
    ensures forall k :: 0 <= k < |x| ==> (x + [sep] + rest)[k] != sep
  {
  }

  /** The last `sep`-separated field of `s` (`s.split(sep)[-1]`). */
  function LastField(s: string, sep: char): (f: string)
    ensures sep !in f && EndsWith(s, f)
    ensures f == s || s[|s| - |f| - 1] == sep
  {
    SplitLast(s, sep);
    var parts := Split(s, sep);
    parts[|parts| - 1]
  }

  /** The last field is the only separator-free suffix that is all of `s`
      or follows a separator. */
  lemma LastFieldUnique(s: string, sep: char, f: string)
    requires sep !in f && EndsWith(s, f)
    requires f == s || s[|s| - |f| - 1] == sep
    ensures LastField(s, sep) == f
  {
    var g := LastField(s, sep);
    if |g| != |f| {
      assert false;
    }
    assert f == s[|s| - |f|..] == g;
  }

  /** The text strictly between `pre` and `post` in `s`, if `s` has that shape;
      used to read a context value back out of a template. */
  function Between(s: string, pre: string, post: string): Option<string> {
    if |pre| + |post| <= |s| && StartsWith(s, pre) && EndsWith(s, post)
    then Some(s[|pre|..|s| - |post|])
    else None
  }

  /** A template filled with `x` gives `x` back. */
  lemma BetweenFilled(pre: string, x: string, post: string)
    ensures Between(pre + x + post, pre, post) == Some(x)
  {
    var s := pre + x + post;
    assert s[..|pre|] == pre;
    assert s[|s| - |post|..] == post;
    assert s[|pre|..|s| - |post|] == x;
  }

  function DigitChar(d: nat): char
    requires d < 10
  {
    "0123456789"[d]
  }

  function DigitValue(c: char): int {
    c as int - '0' as int
  }

  predicate IsDigit(c: char) {
    '0' <= c <= '9'
  }

  /** Decimal rendering of a natural number, as `str(n)` prints it. */
  function NatToString(n: nat): (r: string)
    ensures |r| >= 1
    ensures forall k :: 0 <= k < |r| ==> IsDigit(r[k])
    decreases n
  {
    if n < 10 then [DigitChar(n)] else NatToString(n / 10) + [DigitChar(n % 10)]
  }

  /** The value of a string of decimal digits. */
  function DigitsValue(s: string): int
    decreases |s|
  {
    if |s| == 0 then 0 else DigitsValue(s[..|s| - 1]) * 10 + DigitValue(s[|s| - 1])
  }

  /** Reading back the decimal rendering gives the number. */
  lemma {:induction false} NatToStringRoundTrip(n: nat)
    ensures DigitsValue(NatToString(n)) == n
    decreases n
  {
    if n >= 10 {
      NatToStringRoundTrip(n / 10);
      var s := NatToString(n);
      assert s[..|s| - 1] == NatToString(n / 10);
    }
  }

  /** `str(n)` for any Python int: a minus sign before negative values. */
  function IntToString(n: int): string {
    if n < 0 then "-" + NatToString(-n) else NatToString(n)
  }

  function ParseInt(s: string): int {
    if |s| > 0 && s[0] == '-' then -DigitsValue(s[1..]) else DigitsValue(s)
  }

  /** The exit code printed in a message can be read back exactly. */
  lemma IntToStringRoundTrip(n: int)
    ensures ParseInt(IntToString(n)) == n
  {
    if n < 0 {
      NegativeRoundTrip(n);
    } else {
      NonNegativeRoundTrip(n);
    }
  }

  /** A negative number is printed with a minus sign and reads back. */
  lemma NegativeRoundTrip(n: int)
    requires n < 0
    ensures ParseInt(IntToString(n)) == n
  {
    SignedDigits(-n, IntToString(n));
  }

  /** Digits after a minus sign read back negated. */
  lemma SignedDigits(m: nat, s: string)
    requires s == "-" + NatToString(m)
    ensures ParseInt(s) == -(m as int)
  {
    assert s[1..] == NatToString(m);
    NatToStringRoundTrip(m);
  }

  /** A non-negative number is printed as bare digits and reads back. */
  lemma NonNegativeRoundTrip(n: int)
    requires n >= 0
    ensures ParseInt(IntToString(n)) == n
  {
    var digits := NatToString(n);
    assert IsDigit(digits[0]);
    NatToStringRoundTrip(n);
  }
}
