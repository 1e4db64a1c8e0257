/** The Python `str` operations the backend relies on: `startswith`, a greedy
    character-class run, `strip`, `lower` and `split`. */
module Strings {
  import opened Chars

  /** `str.startswith`: `s` agrees with `prefix` on all of its positions. */
  predicate StartsWith(s: string, prefix: string) {
    |prefix| <= |s| && forall i | 0 <= i < |prefix| :: s[i] == prefix[i]
  }

  /** Length of the longest prefix of `s` made of `cls` characters: what a
      greedy `cls*` consumes. */
  function RunLen(s: string, cls: Class): (n: nat)
    ensures n <= |s|
    ensures forall i | 0 <= i < n :: In(cls, s[i])
    ensures n < |s| ==> !In(cls, s[n])
  {
    if |s| == 0 || !In(cls, s[0]) then 0 else 1 + RunLen(s[1..], cls)
  }

  /** A run is pinned down by where the class first fails: a greedy match
      stops exactly there. */
  lemma RunLenIs(s: string, cls: Class, k: nat)
    requires k <= |s|
    requires forall i | 0 <= i < k :: In(cls, s[i])
    requires k < |s| ==> !In(cls, s[k])
    ensures RunLen(s, cls) == k
  {
  }

  /** A class without the space cannot run across a space: what follows the
      space does not lengthen the run. */
  lemma RunLenBeforeSpace(v: string, rest: string, cls: Class)
    requires !In(cls, ' ')
    ensures RunLen(v + (" " + rest), cls) == RunLen(v, cls)
  {
    var t := v + (" " + rest);
    var n := RunLen(v, cls);
    assert forall i | 0 <= i < n :: t[i] == v[i];
    assert n < |v| ==> t[n] == v[n];
    assert n == |v| ==> t[n] == ' ';
    RunLenIs(t, cls, n);
  }

  /** A run that starts with `k` class characters is `k` longer than the
      run after them. */
  lemma RunLenSkip(s: string, cls: Class, k: nat)
    requires k <= |s|
    requires forall i | 0 <= i < k :: In(cls, s[i])
    ensures RunLen(s, cls) == k + RunLen(s[k..], cls)
  {
    var n := RunLen(s[k..], cls);
    forall i | 0 <= i < k + n
      ensures In(cls, s[i])
    {
      if k <= i {
        assert s[i] == s[k..][i - k];
      }
    }
    if k + n < |s| {
      assert s[k + n] == s[k..][n];
    }
    RunLenIs(s, cls, k + n);
  }

  lemma AppendAssociates(a: string, b: string, c: string)
    ensures a + b + c == a + (b + c)
  {
  }

  /** Moving one character across a concatenation boundary. */
  lemma SnocAppend(s: string, k: nat, y: string)
    requires 0 < k <= |s|
    ensures s[..k - 1] + ([s[k - 1]] + y) == s[..k] + y
  {
    assert s[..k - 1] + [s[k - 1]] == s[..k];
  }

  predicate AllSpace(s: string) {
    forall i | 0 <= i < |s| :: IsSpace(s[i])
  }

  /** Number of whitespace characters at the front of `s`. */
  function Leading(s: string): (n: nat)
    ensures n <= |s|
  {
    RunLen(s, Space)
  }

  /** Number of whitespace characters at the back of `s`. */
  function Trailing(s: string): (n: nat)
    ensures n <= |s|
    ensures forall i | |s| - n <= i < |s| :: IsSpace(s[i])
    ensures n < |s| ==> !IsSpace(s[|s| - n - 1])
  {
    if |s| > 0 && IsSpace(s[|s| - 1]) then 1 + Trailing(s[..|s| - 1]) else 0
  }

  /** `str.strip()` with no argument: `r` is the slice of `s` starting at
      `Leading(s)`, everything cut away is whitespace, and `r` neither starts
      nor ends with whitespace. */
  function Strip(s: string): (r: string)
    ensures Leading(s) + |r| <= |s|
    ensures forall i | 0 <= i < |r| :: r[i] == s[Leading(s) + i]
    ensures forall i | 0 <= i < |s| && !(Leading(s) <= i < Leading(s) + |r|) :: IsSpace(s[i])
    ensures r == [] || (!IsSpace(r[0]) && !IsSpace(r[|r| - 1]))
  {
    var a := Leading(s);
    if a == |s| then [] else s[a..|s| - Trailing(s)]
  }

  /** `not s.strip()` holds exactly for all-whitespace strings. */
  lemma StripEmptyIffBlank(s: string)
    ensures Strip(s) == [] <==> AllSpace(s)
  {
    var r := Strip(s);
    if r != [] {
      assert s[Leading(s)] == r[0];
    }
  }

  /** A string that neither starts nor ends with whitespace is its own strip. */
  lemma StripOfTrimmed(s: string)
    requires s == [] || (!IsSpace(s[0]) && !IsSpace(s[|s| - 1]))
    ensures Strip(s) == s
  {
    if s != [] {
      assert Leading(s) == 0 && Trailing(s) == 0;
    }
  }

  /** `str.lower()`, character by character. */
  function Lower(s: string): (r: string)
    ensures |r| == |s|
    ensures forall i | 0 <= i < |s| :: r[i] == ToLower(s[i])
  {
    seq(|s|, i requires 0 <= i < |s| => ToLower(s[i]))
  }

  /** Lower-casing is idempotent, and a string without upper-case letters
      is its own lower-case form. */
  lemma LowerIdempotent(s: string)
    ensures Lower(Lower(s)) == Lower(s)
    ensures (forall i | 0 <= i < |s| :: !IsUpper(s[i])) ==> Lower(s) == s
  {
  }

  /** The inverse of `Split`: the parts glued back together with `sep`. */
  function Join(parts: seq<string>, sep: char): string
    requires |parts| >= 1
  {
    if |parts| == 1 then parts[0] else parts[0] + [sep] + Join(parts[1..], sep)
  }

  /** `str.split(sep)` for a one-character separator: always at least one
      part (`"".split("\n") == [""]`), no part contains `sep`, and joining
      the parts restores `s`. */
  function Split(s: string, sep: char): (parts: seq<string>)
    ensures |parts| >= 1
    ensures forall i | 0 <= i < |parts| :: sep !in parts[i]
    ensures Join(parts, sep) == s
  {
    if |s| == 0 then [[]]
    else
      var rest := Split(s[1..], sep);
      if s[0] == sep then
        [[]] + rest
      else
        var parts := [[s[0]] + rest[0]] + rest[1..];
        assert parts[1..] == rest[1..];
        assert s == [s[0]] + s[1..];
        parts
  }

  /** The other round trip: splitting a join of `sep`-free parts gives the
      parts back. */
  lemma {:induction false} SplitJoin(parts: seq<string>, sep: char)
    requires |parts| >= 1
    requires forall i | 0 <= i < |parts| :: sep !in parts[i]
    ensures Split(Join(parts, sep), sep) == parts
    decreases |parts|
  {
    if |parts| == 1 {
      SplitFree(parts[0], sep);
    } else {
      SplitJoin(parts[1..], sep);
      SplitPrefix(parts[0], sep, Join(parts[1..], sep));
      assert parts == [parts[0]] + parts[1..];
    }
  }

  /** A `sep`-free string splits into itself. */
  lemma {:induction false} SplitFree(s: string, sep: char)
    requires sep !in s
    ensures Split(s, sep) == [s]
    decreases |s|
  {
    if |s| > 0 {
      SplitFree(s[1..], sep);
      assert s == [s[0]] + s[1..];
    }
  }

  /** Splitting `a + sep + t` for a `sep`-free `a` yields `a` and then the parts of `t`. */
  lemma {:induction false} SplitPrefix(a: string, sep: char, t: string)
    requires sep !in a
    ensures Split(a + [sep] + t, sep) == [a] + Split(t, sep)
    decreases |a|
  {
    if |a| == 0 {
      assert a + [sep] + t == [sep] + t;
      assert ([sep] + t)[1..] == t;
    } else {
      var s := a + [sep] + t;
      assert s[0] == a[0] != sep;
      assert s[1..] == a[1..] + [sep] + t;
      SplitPrefix(a[1..], sep, t);
      var rest := Split(s[1..], sep);
      assert rest[0] == a[1..] && rest[1..] == Split(t, sep);
      assert Split(s, sep) == [[a[0]] + rest[0]] + rest[1..];
      assert [a[0]] + a[1..] == a;
    }
  }
}
