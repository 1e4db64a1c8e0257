/**
 The text normaliser `clean_text` (backend/app.py, lines 62-66): three
 deletion passes, then `lower()` and `strip()`.
 */
module Normalizer {
  import opened Chars
  import opened Strings

  /** The two deletion patterns applied before punctuation removal:
      `http\S+|www\S+|https\S+` (URLs) and `@\w+|\#\w+` (mentions and
      hashtags). Each alternative is a literal marker followed by a
      non-empty greedy run of one character class. */
  datatype Pattern = Urls | Handles {

    /** The markers, in the order the alternation tries them. The third URL
        alternative never decides a match: wherever `https\S+` matches,
        `http\S+` matches first with the same extent. */
    function Markers(): seq<string> {
      match this
      case Urls => ["http", "www", "https"]
      case Handles => ["@", "#"]
    }

    /** The class of the run after the marker: `\S` for URLs, `\w` for handles. */
    function Run(): Class {
      match this
      case Urls => NotSpace
      case Handles => Word
    }
  }

  /** Alternative `k` of `p` matches at the start of `t`: its marker is there,
      case-sensitively, and at least one run character follows it. */
  predicate MarkerAt(p: Pattern, t: string, k: nat)
    requires k < |p.Markers()|
  {
    var m := p.Markers()[k];
    StartsWith(t, m) && |m| < |t| && In(p.Run(), t[|m|])
  }

  /** Some alternative from `k` on matches at the start of `t`. */
  predicate SomeMarkerAt(p: Pattern, t: string, k: nat)
    requires k <= |p.Markers()|
  {
    exists j | k <= j < |p.Markers()| :: MarkerAt(p, t, j)
  }

  /** Length of the match of the alternatives `k..` anchored at the start of
      `t`, 0 when there is none. */
  function MatchFrom(p: Pattern, t: string, k: nat): (n: nat)
    requires k <= |p.Markers()|
    ensures n <= |t|
    ensures n > 0 <==> SomeMarkerAt(p, t, k)
    ensures 0 < n < |t| ==> !In(p.Run(), t[n])
    ensures n > 0 ==> n == 1 + RunLen(t[1..], p.Run())
    decreases |p.Markers()| - k
  {
    if k == |p.Markers()| then 0
    else if MarkerAt(p, t, k) then
      var m := p.Markers()[k];
      MatchExtent(p, t, k);
      |m| + RunLen(t[|m|..], p.Run())
    else MatchFrom(p, t, k + 1)
  }

  /** The match of alternative `k` reaches as far as the run class goes
      after the first character: every marker character after the first
      belongs to the run class. */
  lemma MatchExtent(p: Pattern, t: string, k: nat)
    requires k < |p.Markers()| && MarkerAt(p, t, k)
    ensures |p.Markers()[k]| + RunLen(t[|p.Markers()[k]|..], p.Run()) == 1 + RunLen(t[1..], p.Run())
  {
    var m := p.Markers()[k];
    MatchedWindowInRun(p, t, k);
    forall i | 0 <= i < |m| - 1
      ensures In(p.Run(), t[1..][i])
    {
      assert t[1..][i] == t[i + 1];
    }
    RunLenSkip(t[1..], p.Run(), |m| - 1);
    assert t[1..][|m| - 1..] == t[|m|..];
  }

  /** Length of the match of `p` anchored at the start of `t`: positive
      exactly when some marker is followed by a run character, and the match
      always ends at the end of `t` or before a character outside the run. */
  function MatchLen(p: Pattern, t: string): (n: nat)
    ensures n <= |t|
    ensures n > 0 <==> SomeMarkerAt(p, t, 0)
    ensures 0 < n < |t| ==> !In(p.Run(), t[n])
    ensures n > 0 ==> n == 1 + RunLen(t[1..], p.Run())
  {
    MatchFrom(p, t, 0)
  }

  /** No match of `p` starts at position `i` of `s`. */
  predicate ClearAt(p: Pattern, s: string, i: nat)
    requires i <= |s|
  {
    MatchLen(p, s[i..]) == 0
  }

  /** No match of `p` starts anywhere in `s`. */
  predicate NoMatch(p: Pattern, s: string) {
    forall i | 0 <= i < |s| :: ClearAt(p, s, i)
  }

  /** `re.sub(p, '', s)`: scanning left to right, a match is deleted and the
      scan resumes right after it; any other character is kept. */
  function Substitute(p: Pattern, s: string): (r: string)
    ensures |r| <= |s|
    decreases |s|
  {
    if |s| == 0 then []
    else
      var n := MatchLen(p, s);
      if n > 0 then Substitute(p, s[n..]) else [s[0]] + Substitute(p, s[1..])
  }

  /** Characters before the first position where a match starts are kept. */
  lemma {:induction false} KeepsClearPrefix(p: Pattern, s: string, k: nat)
    requires k <= |s|
    requires forall i | 0 <= i < k :: ClearAt(p, s, i)
    ensures Substitute(p, s) == s[..k] + Substitute(p, s[k..])
    decreases k
  {
    if k == 0 {
      assert s[..0] + s[0..] == s;
    } else {
      KeepsClearPrefix(p, s, k - 1);
      var v := s[k - 1..];
      assert ClearAt(p, s, k - 1);
      assert v[1..] == s[k..];
      assert Substitute(p, v) == [s[k - 1]] + Substitute(p, s[k..]);
      SnocAppend(s, k, Substitute(p, s[k..]));
    }
  }

  /** The markers are non-empty and their characters after the first belong
      to the run class, so a match can never begin inside a marker's tail. */
  lemma MarkerTailInRun(p: Pattern, k: nat, i: nat)
    requires k < |p.Markers()|
    ensures |p.Markers()[k]| >= 1
    ensures 1 <= i < |p.Markers()[k]| ==> In(p.Run(), p.Markers()[k][i])
  {
  }

  /** Substituting a string that is empty or starts outside the run class
      yields such a string again. */
  lemma {:induction false} StartsOutsideRun(p: Pattern, v: string)
    requires v == [] || !In(p.Run(), v[0])
    ensures Substitute(p, v) == [] || !In(p.Run(), Substitute(p, v)[0])
    decreases |v|
  {
    if |v| > 0 {
      var n := MatchLen(p, v);
      if n > 0 {
        StartsOutsideRun(p, v[n..]);
      }
    }
  }

  /** What is left after a deleted match is empty or starts outside the run class. */
  lemma AfterMatch(p: Pattern, v: string)
    requires MatchLen(p, v) > 0
    ensures Substitute(p, v) == [] || !In(p.Run(), Substitute(p, v)[0])
  {
    var n := MatchLen(p, v);
    assert Substitute(p, v) == Substitute(p, v[n..]);
    StartsOutsideRun(p, v[n..]);
  }

  /** Where alternative `k` matches, every character after the marker's first,
      up to and including the first run character, is in the run class. */
  lemma MatchedWindowInRun(p: Pattern, u: string, k: nat)
    requires k < |p.Markers()| && MarkerAt(p, u, k)
    ensures |p.Markers()[k]| >= 1
    ensures forall i | 1 <= i <= |p.Markers()[k]| :: In(p.Run(), u[i])
  {
    var m := p.Markers()[k];
    MarkerTailInRun(p, k, 0);
    forall i | 1 <= i <= |m|
      ensures In(p.Run(), u[i])
    {
      if i < |m| {
        MarkerTailInRun(p, k, i);
        assert u[..|m|][i] == m[i];
      }
    }
  }

  /** Whether alternative `k` matches depends only on the first `|marker| + 1` characters. */
  lemma MarkerAtPrefix(p: Pattern, u: string, s: string, k: nat)
    requires k < |p.Markers()| && MarkerAt(p, u, k)
    requires |p.Markers()[k]| < |s| && u[..|p.Markers()[k]| + 1] == s[..|p.Markers()[k]| + 1]
    ensures MarkerAt(p, s, k)
  {
    var L := |p.Markers()[k]|;
    forall i | 0 <= i <= L
      ensures s[i] == u[i]
    {
      assert u[..L + 1][i] == s[..L + 1][i];
    }
  }

  /** The first position below `limit` where a match starts in `t`, or
      the nearer of `limit` and `|t|` when no match starts before them. */
  lemma {:induction false} FirstMatchBefore(p: Pattern, t: string, limit: nat, from: nat) returns (j: nat)
    requires from <= limit && from <= |t|
    requires forall i | 0 <= i < from :: ClearAt(p, t, i)
    ensures from <= j <= limit && j <= |t|
    ensures forall i | 0 <= i < j :: ClearAt(p, t, i)
    ensures j < limit && j < |t| ==> !ClearAt(p, t, j)
    decreases limit - from
  {
    if from == limit || from == |t| {
      j := from;
    } else if !ClearAt(p, t, from) {
      j := from;
    } else {
      assert forall i | 0 <= i < from + 1 :: ClearAt(p, t, i);
      j := FirstMatchBefore(p, t, limit, from + 1);
    }
  }

  /** After a kept prefix `a`, a remainder that is empty or starts outside
      the run class puts a non-run character, or the end, at `|a| + 1`. */
  lemma WindowBroken(u: string, c: char, a: string, rest: string, run: Class)
    requires u == [c] + (a + rest)
    requires rest == [] || !In(run, rest[0])
    ensures |u| <= |a| + 1 || !In(run, u[|a| + 1])
  {
    if |rest| > 0 {
      assert u[|a| + 1] == rest[0];
    }
  }

  /** Alternative `k` cannot match where position `i` of its window,
      `1 <= i <= |marker|`, is missing or holds a non-run character. */
  lemma MarkerBlocked(p: Pattern, u: string, k: nat, i: nat)
    requires k < |p.Markers()|
    requires 1 <= i <= |p.Markers()[k]|
    requires |u| <= i || !In(p.Run(), u[i])
    ensures !MarkerAt(p, u, k)
  {
    if i < |p.Markers()[k]| {
      MarkerTailInRun(p, k, i);
    }
  }

  /** Keeping the head and the first `L` characters of the tail keeps the first `L + 1`. */
  lemma HeadAndPrefix(s: string, r: string, rest: string, L: nat)
    requires 0 < |s| && L < |s| && r == s[1..][..L] + rest
    ensures ([s[0]] + r)[..L + 1] == s[..L + 1]
  {
    assert ([s[0]] + r)[..L + 1] == [s[0]] + s[1..][..L];
  }

  /** No alternative matches at a kept first character followed by what the
      substitution leaves of the rest. Either a match in the rest starts
      within the marker's window, and its deletion leaves a non-run
      character or the end there; or the text is too short; or the window
      is kept whole, and then it did not match in the original either. */
  lemma HeadMarkerBlocked(p: Pattern, s: string, k: nat)
    requires |s| > 0 && MatchLen(p, s) == 0
    requires k < |p.Markers()|
    ensures !MarkerAt(p, [s[0]] + Substitute(p, s[1..]), k)
  {
    var t := s[1..];
    var r := Substitute(p, t);
    var L := |p.Markers()[k]|;
    var j := KeptWindow(p, t, L);
    var rest := Substitute(p, t[j..]);
    if j < L && j < |t| {
      BlockedByDeletion(p, [s[0]] + r, s[0], t[..j], rest, k);
    } else if |t| < L {
      assert t[j..] == [];
      TooShortForMarker(p, [s[0]] + r, k);
    } else {
      BlockedByHead(p, s, r, rest, k);
    }
  }

  /** The substitution keeps `t` up to the first match that starts before
      `limit`, and what it leaves of that match and after is empty or starts
      outside the run class. */
  lemma KeptWindow(p: Pattern, t: string, limit: nat) returns (j: nat)
    ensures j <= limit && j <= |t|
    ensures Substitute(p, t) == t[..j] + Substitute(p, t[j..])
    ensures j < limit && j < |t| ==> Substitute(p, t[j..]) == [] || !In(p.Run(), Substitute(p, t[j..])[0])
  {
    j := FirstMatchBefore(p, t, limit, 0);
    KeepsClearPrefix(p, t, j);
    if j < limit && j < |t| {
      AfterMatch(p, t[j..]);
    }
  }

  /** A deletion inside the window leaves a non-run character or the end in it. */
  lemma BlockedByDeletion(p: Pattern, u: string, c: char, a: string, rest: string, k: nat)
    requires k < |p.Markers()| && |a| < |p.Markers()[k]|
    requires u == [c] + (a + rest)
    requires rest == [] || !In(p.Run(), rest[0])
    ensures !MarkerAt(p, u, k)
  {
    WindowBroken(u, c, a, rest, p.Run());
    MarkerBlocked(p, u, k, |a| + 1);
  }

  /** A text no longer than a marker holds no match of it. */
  lemma TooShortForMarker(p: Pattern, u: string, k: nat)
    requires k < |p.Markers()| && |u| <= |p.Markers()[k]|
    ensures !MarkerAt(p, u, k)
  {
  }

  /** A window kept whole matched in the original text already. */
  lemma BlockedByHead(p: Pattern, s: string, r: string, rest: string, k: nat)
    requires |s| > 0 && MatchLen(p, s) == 0
    requires k < |p.Markers()| && |p.Markers()[k]| < |s|
    requires r == s[1..][..|p.Markers()[k]|] + rest
    ensures !MarkerAt(p, [s[0]] + r, k)
  {
    var L := |p.Markers()[k]|;
    HeadAndPrefix(s, r, rest, L);
    assert !SomeMarkerAt(p, s, 0);
    if MarkerAt(p, [s[0]] + r, k) {
      MarkerAtPrefix(p, [s[0]] + r, s, k);
    }
  }

  /** A kept first character cannot start a match together with what the
      substitution leaves after it. */
  lemma HeadStaysUnmatched(p: Pattern, s: string)
    requires |s| > 0 && MatchLen(p, s) == 0
    ensures MatchLen(p, [s[0]] + Substitute(p, s[1..])) == 0
  {
    var u := [s[0]] + Substitute(p, s[1..]);
    forall k | 0 <= k < |p.Markers()|
      ensures !MarkerAt(p, u, k)
    {
      HeadMarkerBlocked(p, s, k);
    }
    assert !SomeMarkerAt(p, u, 0);
  }

  /** After `re.sub` deletes the matches of `p`, no match of `p` is left:
      deleting a URL or a handle never glues two pieces into a new one. */
  lemma {:induction false} SubstituteLeavesNoMatch(p: Pattern, s: string)
    ensures NoMatch(p, Substitute(p, s))
    decreases |s|
  {
    if |s| > 0 {
      var n := MatchLen(p, s);
      if n > 0 {
        SubstituteLeavesNoMatch(p, s[n..]);
      } else {
        var r := Substitute(p, s[1..]);
        SubstituteLeavesNoMatch(p, s[1..]);
        var u := [s[0]] + r;
        forall i | 0 <= i < |u|
          ensures ClearAt(p, u, i)
        {
          if i == 0 {
            HeadStaysUnmatched(p, s);
            assert u[0..] == u;
          } else {
            assert ClearAt(p, r, i - 1);
            assert u[i..] == r[i - 1..];
          }
        }
      }
    }
  }

  /** The third pass, `re.sub(r'[^\w\s]', '', s)`: only word characters
      and whitespace are left, and a string made of them is left alone. */
  function KeepWordsAndSpaces(s: string): (r: string)
    ensures forall i | 0 <= i < |r| :: IsWord(r[i]) || IsSpace(r[i])
    ensures (forall i | 0 <= i < |s| :: IsWord(s[i]) || IsSpace(s[i])) ==> r == s
  {
    if |s| == 0 then []
    else
      var rest := KeepWordsAndSpaces(s[1..]);
      if IsWord(s[0]) || IsSpace(s[0]) then [s[0]] + rest else rest
  }

  /** The third pass deletes exactly the characters outside `\w` and `\s`:
      every word or whitespace character keeps its multiplicity. */
  lemma {:induction false} KeepWordsAndSpacesCounts(s: string, c: char)
    ensures IsWord(c) || IsSpace(c) ==> multiset(KeepWordsAndSpaces(s))[c] == multiset(s)[c]
    ensures !(IsWord(c) || IsSpace(c)) ==> multiset(KeepWordsAndSpaces(s))[c] == 0
    decreases |s|
  {
    if |s| > 0 {
      var rest := KeepWordsAndSpaces(s[1..]);
      KeepWordsAndSpacesCounts(s[1..], c);
      assert s == [s[0]] + s[1..];
      assert multiset(s) == multiset{s[0]} + multiset(s[1..]);
      if IsWord(s[0]) || IsSpace(s[0]) {
        assert multiset(KeepWordsAndSpaces(s)) == multiset{s[0]} + multiset(rest);
      } else {
        assert KeepWordsAndSpaces(s) == rest;
      }
    }
  }

  /** `clean_text`: URLs and then handles are deleted, then every character
      other than word characters and whitespace, and the rest is lower-cased
      and stripped. The result holds only lower-case word characters and
      whitespace, so no `@`, `#` or punctuation, and neither starts nor ends
      with whitespace. */
  function CleanText(text: string): (r: string)
    ensures forall i | 0 <= i < |r| :: (IsWord(r[i]) || IsSpace(r[i])) && !IsUpper(r[i])
    ensures r == [] || (!IsSpace(r[0]) && !IsSpace(r[|r| - 1]))
  {
    Finish(Substitute(Handles, Substitute(Urls, text)))
  }

  /** The steps after the two substitutions: punctuation removal, `lower()`, `strip()`. */
  function Finish(s: string): (r: string)
    ensures forall i | 0 <= i < |r| :: (IsWord(r[i]) || IsSpace(r[i])) && !IsUpper(r[i])
    ensures r == [] || (!IsSpace(r[0]) && !IsSpace(r[|r| - 1]))
  {
    var lowered := Lower(KeepWordsAndSpaces(s));
    LowerKeepsWords(KeepWordsAndSpaces(s));
    StripKeepsWords(lowered);
    Strip(lowered)
  }

  /** Lower-case word characters and whitespace only. */
  predicate LowerWords(s: string) {
    forall i | 0 <= i < |s| :: (IsWord(s[i]) || IsSpace(s[i])) && !IsUpper(s[i])
  }

  lemma LowerKeepsWords(s: string)
    requires forall i | 0 <= i < |s| :: IsWord(s[i]) || IsSpace(s[i])
    ensures LowerWords(Lower(s))
  {
  }

  lemma StripKeepsWords(s: string)
    requires LowerWords(s)
    ensures LowerWords(Strip(s))
  {
  }

  /** A normal-form text: lower-case word characters and whitespace only,
      no leading or trailing whitespace, and no `http`/`www` run. */
  predicate Normal(text: string) {
    && (forall i | 0 <= i < |text| :: (IsLower(text[i]) || IsDigit(text[i]) || text[i] == '_' || IsSpace(text[i])))
    && (text == [] || (!IsSpace(text[0]) && !IsSpace(text[|text| - 1])))
    && NoMatch(Urls, text)
  }

  /** The characters a marker of `p` can begin with. */
  predicate MarkerHead(p: Pattern, c: char) {
    match p
    case Urls => c == 'h' || c == 'w'
    case Handles => c == '@' || c == '#'
  }

  /** Where no character can begin a marker, no match starts anywhere. */
  lemma NoMarkerHead(p: Pattern, s: string)
    requires forall i | 0 <= i < |s| :: !MarkerHead(p, s[i])
    ensures NoMatch(p, s)
  {
    forall i | 0 <= i < |s|
      ensures ClearAt(p, s, i)
    {
      forall k | 0 <= k < |p.Markers()|
        ensures !MarkerAt(p, s[i..], k)
      {
        assert s[i..][0] == s[i];
      }
    }
  }

  /** The leftmost match is deleted whole, and the scan resumes right after
      it: the text before it is kept and the rest is substituted afresh. */
  lemma SubstituteDeletesMatch(p: Pattern, s: string, k: nat)
    requires k < |s| && MatchLen(p, s[k..]) > 0
    requires forall i | 0 <= i < k :: ClearAt(p, s, i)
    ensures Substitute(p, s) == s[..k] + Substitute(p, s[k + MatchLen(p, s[k..])..])
  {
    KeepsClearPrefix(p, s, k);
    SkipsMatchAt(p, s, k);
  }

  /** The match at `k` is skipped whole. */
  lemma SkipsMatchAt(p: Pattern, s: string, k: nat)
    requires k < |s| && MatchLen(p, s[k..]) > 0
    ensures Substitute(p, s[k..]) == Substitute(p, s[k + MatchLen(p, s[k..])..])
  {
    SubstituteSkipsMatch(p, s[k..], s[k + MatchLen(p, s[k..])..]);
  }

  /** A match at the very front is dropped and substitution carries on after it. */
  lemma SubstituteSkipsMatch(p: Pattern, u: string, v: string)
    requires u != [] && MatchLen(p, u) > 0 && v == u[MatchLen(p, u)..]
    ensures Substitute(p, u) == Substitute(p, v)
  {
  }

  /** Substitution changes nothing where no match starts. */
  lemma SubstituteUnmatched(p: Pattern, s: string)
    requires NoMatch(p, s)
    ensures Substitute(p, s) == s
  {
    KeepsClearPrefix(p, s, |s|);
    assert s[|s|..] == [];
  }

  /** The last three steps leave a normal-form text alone. */
  lemma FinishKeepsNormal(text: string)
    requires Normal(text)
    ensures Finish(text) == text
  {
    assert KeepWordsAndSpaces(text) == text;
    assert Lower(text) == text;
    StripOfTrimmed(text);
  }

  /** `clean_text` deletes nothing from a text already in normal form: only
      URLs, handles, punctuation, case and outer whitespace are touched. */
  lemma CleanTextKeepsNormal(text: string)
    requires Normal(text)
    ensures CleanText(text) == text
  {
    SubstituteUnmatched(Urls, text);
    NoMarkerHead(Handles, text);
    SubstituteUnmatched(Handles, text);
    FinishKeepsNormal(text);
  }

  /** The third pass works character by character, so it distributes over concatenation. */
  lemma {:induction false} KeepWordsAndSpacesAppend(a: string, b: string)
    ensures KeepWordsAndSpaces(a + b) == KeepWordsAndSpaces(a) + KeepWordsAndSpaces(b)
    decreases |a|
  {
    if |a| > 0 {
      KeepWordsAndSpacesAppend(a[1..], b);
      assert (a + b)[1..] == a[1..] + b;
    } else {
      assert a + b == b;
    }
  }

  /** A string of punctuation vanishes entirely in the third pass. */
  lemma {:induction false} DropsPunctuation(s: string)
    requires forall i | 0 <= i < |s| :: !IsWord(s[i]) && !IsSpace(s[i])
    ensures KeepWordsAndSpaces(s) == []
    decreases |s|
  {
    if |s| > 0 {
      DropsPunctuation(s[1..]);
    }
  }

  /** An upper-case URL is not removed: the URL pass is case-sensitive and
      runs before lower-casing, and punctuation removal then glues the
      scheme to the host, so `HTTP://HOST` comes out as `http` followed by
      the lower-cased host, which is again a URL-shaped run. */
  lemma UpperCaseUrlSurvives(scheme: string, sep: string, host: string)
    requires scheme == "HTTP" && sep == "://"
    requires host != [] && forall i | 0 <= i < |host| :: IsUpper(host[i])
    ensures CleanText(scheme + sep + host) == "http" + Lower(host)
    ensures MatchLen(Urls, CleanText(scheme + sep + host)) > 0
  {
    var raw := scheme + sep + host;
    UpperUrlUnmatched(scheme, sep, host);
    assert CleanText(raw) == Finish(raw);
    UpperUrlGlued(scheme, sep, host);
    var lowered := Lower(scheme + host);
    UpperUrlLowered(scheme, host);
    StripOfTrimmed(lowered);
    assert CleanText(raw) == lowered;
    UrlAtHead(lowered);
  }

  /** The three characters of `://` are punctuation and the scheme and host are word characters. */
  lemma UpperUrlGlued(scheme: string, sep: string, host: string)
    requires scheme == "HTTP" && sep == "://"
    requires forall i | 0 <= i < |host| :: IsUpper(host[i])
    ensures KeepWordsAndSpaces(scheme + sep + host) == scheme + host
  {
    GluedAcrossPunctuation(scheme, sep, host);
  }

  /** A text that starts with `http` and a further non-space character
      starts with a URL match. */
  lemma UrlAtHead(t: string)
    requires |t| > 4 && t[0] == 'h' && t[1] == 't' && t[2] == 't' && t[3] == 'p'
    requires !IsSpace(t[4])
    ensures MatchLen(Urls, t) > 0
  {
    assert MarkerAt(Urls, t, 0);
  }

  /** Punctuation removal glues two runs of word characters that only
      punctuation separates. */
  lemma GluedAcrossPunctuation(front: string, sep: string, back: string)
    requires forall i | 0 <= i < |front| :: IsWord(front[i])
    requires forall i | 0 <= i < |sep| :: !IsWord(sep[i]) && !IsSpace(sep[i])
    requires forall i | 0 <= i < |back| :: IsWord(back[i])
    ensures KeepWordsAndSpaces(front + sep + back) == front + back
  {
    var tail := sep + back;
    KeepWordsAndSpacesAppend(sep, back);
    DropsPunctuation(sep);
    assert KeepWordsAndSpaces(back) == back;
    assert KeepWordsAndSpaces(tail) == back;
    KeepWordsAndSpacesAppend(front, tail);
    assert KeepWordsAndSpaces(front) == front;
    AppendAssociates(front, sep, back);
  }

  /** Lower-casing the glued scheme and host gives `http` and the lower-cased host. */
  lemma UpperUrlLowered(scheme: string, host: string)
    requires scheme == "HTTP"
    requires host != [] && forall i | 0 <= i < |host| :: IsUpper(host[i])
    ensures Lower(scheme + host) == "http" + Lower(host)
    ensures !IsSpace(Lower(scheme + host)[0]) && !IsSpace(Lower(scheme + host)[|scheme + host| - 1])
    ensures var l := Lower(scheme + host);
      l[0] == 'h' && l[1] == 't' && l[2] == 't' && l[3] == 'p' && !IsSpace(l[4])
  {
    var l := Lower(scheme + host);
    forall i | 0 <= i < |l| ensures l[i] == ("http" + Lower(host))[i] {
      if i >= 4 {
        assert (scheme + host)[i] == host[i - 4];
      }
    }
  }

  /** Neither deletion pattern matches in `HTTP://HOST` for an upper-case host. */
  lemma UpperUrlUnmatched(scheme: string, sep: string, host: string)
    requires scheme == "HTTP" && sep == "://"
    requires forall i | 0 <= i < |host| :: IsUpper(host[i])
    ensures Substitute(Handles, Substitute(Urls, scheme + sep + host)) == scheme + sep + host
  {
    var raw := scheme + sep + host;
    forall i | 0 <= i < |raw|
      ensures !MarkerHead(Urls, raw[i]) && !MarkerHead(Handles, raw[i])
    {
      if i >= |scheme + sep| {
        assert raw[i] == host[i - |scheme + sep|];
      }
    }
    NoMarkerHead(Urls, raw);
    SubstituteUnmatched(Urls, raw);
    NoMarkerHead(Handles, raw);
    SubstituteUnmatched(Handles, raw);
  }

  /** No marker contains whitespace, and the space belongs to neither run
      class, so no match ever spans a space. */
  lemma MarkerHasNoSpace(p: Pattern, k: nat)
    requires k < |p.Markers()|
    ensures forall i | 0 <= i < |p.Markers()[k]| :: !IsSpace(p.Markers()[k][i])
    ensures !In(p.Run(), ' ')
  {
  }

  /** Alternative `k` matches at the start of a word followed by a space
      exactly when it matches in the word alone. */
  lemma MarkerBeforeSpace(p: Pattern, u: string, rest: string, k: nat)
    requires k < |p.Markers()|
    ensures MarkerAt(p, u + (" " + rest), k) <==> MarkerAt(p, u, k)
  {
    var t := u + (" " + rest);
    var L := |p.Markers()[k]|;
    MarkerHasNoSpace(p, k);
    if MarkerAt(p, t, k) {
      assert t[|u|] == ' ';
      assert L < |u|;
      assert u[..L + 1] == t[..L + 1];
      MarkerAtPrefix(p, t, u, k);
    }
    if MarkerAt(p, u, k) {
      assert u[..L + 1] == t[..L + 1];
      MarkerAtPrefix(p, u, t, k);
    }
  }

  /** The match at the start of a word followed by a space is the match in
      the word alone: nothing after the space counts. */
  lemma MatchLenBeforeSpace(p: Pattern, u: string, rest: string)
    ensures MatchLen(p, u + (" " + rest)) == MatchLen(p, u)
  {
    MatchFromBeforeSpace(p, u, rest, 0);
  }

  /** The same for the alternatives from `k` on, one alternative at a time. */
  lemma {:induction false} MatchFromBeforeSpace(p: Pattern, u: string, rest: string, k: nat)
    requires k <= |p.Markers()|
    ensures MatchFrom(p, u + (" " + rest), k) == MatchFrom(p, u, k)
    decreases |p.Markers()| - k
  {
    if k < |p.Markers()| {
      var t := u + (" " + rest);
      var L := |p.Markers()[k]|;
      MarkerBeforeSpace(p, u, rest, k);
      if MarkerAt(p, u, k) {
        assert t[L..] == u[L..] + (" " + rest);
        MarkerHasNoSpace(p, k);
        RunLenBeforeSpace(u[L..], rest, p.Run());
      } else {
        MatchFromBeforeSpace(p, u, rest, k + 1);
      }
    }
  }

  /** A space is a barrier for `re.sub`: the text before it and the text
      after it are substituted separately, and the space itself is kept. */
  lemma {:induction false} SubstituteAcrossSpace(p: Pattern, u: string, rest: string)
    ensures Substitute(p, u + (" " + rest)) == Substitute(p, u) + (" " + Substitute(p, rest))
    decreases |u|
  {
    var t := u + (" " + rest);
    MatchLenBeforeSpace(p, u, rest);
    if u == [] {
      assert t == " " + rest;
      SubstituteKeepsFirst(p, t, rest);
    } else {
      var n := MatchLen(p, u);
      if MatchLen(p, u) > 0 {
        SubstituteAcrossSpace(p, u[MatchLen(p, u)..], rest);
        AcrossSpaceAfterMatch(p, u, rest);
      } else {
        SubstituteAcrossSpace(p, u[1..], rest);
        AcrossSpaceAfterKept(p, u, rest);
      }
    }
  }

  /** The step of `SubstituteAcrossSpace` where a match starts the text. */
  lemma AcrossSpaceAfterMatch(p: Pattern, u: string, rest: string)
    requires u != [] && MatchLen(p, u) > 0
    requires var v := u[MatchLen(p, u)..];
      Substitute(p, v + (" " + rest)) == Substitute(p, v) + (" " + Substitute(p, rest))
    ensures Substitute(p, u + (" " + rest)) == Substitute(p, u) + (" " + Substitute(p, rest))
  {
    var n := MatchLen(p, u);
    MatchLenBeforeSpace(p, u, rest);
    SpacedSuffix(u, rest, n);
    SubstituteSkipsMatch(p, u + (" " + rest), u[n..] + (" " + rest));
    SubstituteSkipsMatch(p, u, u[n..]);
  }

  /** The step of `SubstituteAcrossSpace` where the first character is kept. */
  lemma AcrossSpaceAfterKept(p: Pattern, u: string, rest: string)
    requires u != [] && MatchLen(p, u) == 0
    requires Substitute(p, u[1..] + (" " + rest)) == Substitute(p, u[1..]) + (" " + Substitute(p, rest))
    ensures Substitute(p, u + (" " + rest)) == Substitute(p, u) + (" " + Substitute(p, rest))
  {
    MatchLenBeforeSpace(p, u, rest);
    SpacedSuffix(u, rest, 1);
    SubstituteKeepsFirst(p, u + (" " + rest), u[1..] + (" " + rest));
    SubstituteKeepsFirst(p, u, u[1..]);
    AppendAssociates([u[0]], Substitute(p, u[1..]), " " + Substitute(p, rest));
  }

  /** Dropping a prefix of the word in front of a space. */
  lemma SpacedSuffix(u: string, rest: string, n: nat)
    requires 0 < n <= |u|
    ensures (u + (" " + rest))[0] == u[0]
    ensures (u + (" " + rest))[n..] == u[n..] + (" " + rest)
  {
  }

  /** Where no match starts, the first character is kept and the scan moves on by one. */
  lemma SubstituteKeepsFirst(p: Pattern, u: string, v: string)
    requires u != [] && MatchLen(p, u) == 0 && v == u[1..]
    ensures Substitute(p, u) == [u[0]] + Substitute(p, v)
  {
  }

  /** One pass over a word standing between two texts in which the pattern
      matches nowhere: only the word can change. */
  lemma PassAroundWord(p: Pattern, a: string, m: string, b: string)
    requires NoMatch(p, a) && NoMatch(p, b)
    ensures Substitute(p, a + (" " + (m + (" " + b)))) == a + (" " + (Substitute(p, m) + (" " + b)))
  {
    SubstituteAcrossSpace(p, a, m + (" " + b));
    SubstituteAcrossSpace(p, m, b);
    SubstituteUnmatched(p, a);
    SubstituteUnmatched(p, b);
  }

  /** Both deletion passes over a word standing between two normal-form
      texts change only the word. */
  lemma BothPassesAroundWord(a: string, m: string, b: string)
    requires Normal(a) && Normal(b)
    ensures var s := a + (" " + (m + (" " + b)));
      Substitute(Handles, Substitute(Urls, s))
      == a + (" " + (Substitute(Handles, Substitute(Urls, m)) + (" " + b)))
  {
    PassAroundWord(Urls, a, m, b);
    NoMarkerHead(Handles, a);
    NoMarkerHead(Handles, b);
    PassAroundWord(Handles, a, Substitute(Urls, m), b);
  }

  /** A mention or hashtag: `@` or `#` followed only by word characters. */
  predicate HandleShaped(t: string) {
    t != [] && (t[0] == '@' || t[0] == '#') && forall i | 1 <= i < |t| :: IsWord(t[i])
  }

  /** A whole match of the handle pattern is handle-shaped. */
  lemma WholeHandleShaped(m: string)
    requires MatchLen(Handles, m) == |m| > 0
    ensures HandleShaped(m)
  {
    forall i | 1 <= i < |m|
      ensures IsWord(m[i])
    {
      assert m[1..][i - 1] == m[i];
    }
  }

  /** The handle pass deletes a mark followed by word characters, and leaves
      a bare `@` or `#` alone. */
  lemma HandlePass(t: string)
    requires HandleShaped(t)
    ensures Substitute(Handles, t) == if |t| >= 2 then [] else t
  {
    if |t| >= 2 {
      HandleMatchesWhole(t);
      SubstituteSkipsMatch(Handles, t, t[|t|..]);
    } else {
      assert !SomeMarkerAt(Handles, t, 0);
    }
  }

  /** A handle-shaped text of two or more characters is one whole match. */
  lemma HandleMatchesWhole(t: string)
    requires HandleShaped(t) && |t| >= 2
    ensures MatchLen(Handles, t) == |t|
  {
    var k := if t[0] == '@' then 0 else 1;
    assert MarkerAt(Handles, t, k);
    forall i | 0 <= i < |t| - 1
      ensures In(Word, t[1..][i])
    {
      assert t[1..][i] == t[i + 1];
    }
    RunLenIs(t[1..], Word, |t| - 1);
  }

  /** The URL pass leaves a non-empty prefix of a handle: at most a URL that
      starts inside it is cut off, and its mark is never touched. */
  lemma UrlPassInHandle(m: string) returns (j: nat)
    requires HandleShaped(m)
    ensures 1 <= j <= |m| && Substitute(Urls, m) == m[..j]
  {
    HandleStartsClear(m);
    j := FirstMatchBefore(Urls, m, |m|, 1);
    if j == |m| {
      UrlPassNone(m, j);
    } else {
      UrlCutsAt(m, j);
    }
  }

  /** No URL starts at a handle's mark. */
  lemma HandleStartsClear(m: string)
    requires HandleShaped(m)
    ensures ClearAt(Urls, m, 0)
  {
    assert m[0..][0] == m[0];
  }

  /** In a text without whitespace, the URL pass keeps what comes before the
      first URL and deletes the rest. */
  lemma UrlCutsAt(m: string, j: nat)
    requires forall i | 0 <= i < |m| :: !IsSpace(m[i])
    requires j < |m| && MatchLen(Urls, m[j..]) > 0
    requires forall i | 0 <= i < j :: ClearAt(Urls, m, i)
    ensures Substitute(Urls, m) == m[..j]
  {
    UrlRunsToEnd(m, j);
    SubstituteDeletesMatch(Urls, m, j);
    NothingAfterEnd(m, j + MatchLen(Urls, m[j..]), m[..j]);
  }

  /** A text in which no URL starts is kept whole. */
  lemma UrlPassNone(m: string, j: nat)
    requires j == |m| && forall i | 0 <= i < j :: ClearAt(Urls, m, i)
    ensures Substitute(Urls, m) == m[..j]
  {
    SubstituteUnmatched(Urls, m);
    assert m[..j] == m;
  }

  /** Substituting past the end leaves nothing to add. */
  lemma NothingAfterEnd(m: string, k: nat, x: string)
    requires k == |m|
    ensures x + Substitute(Urls, m[k..]) == x
  {
    assert m[k..] == [];
  }

  /** A URL that starts inside a text without whitespace runs to its end. */
  lemma UrlRunsToEnd(m: string, j: nat)
    requires forall i | 0 <= i < |m| :: !IsSpace(m[i])
    requires j < |m| && MatchLen(Urls, m[j..]) > 0
    ensures j + MatchLen(Urls, m[j..]) == |m|
  {
    var v := m[j..][1..];
    forall i | 0 <= i < |v|
      ensures In(NotSpace, v[i])
    {
      assert v[i] == m[j + 1 + i];
    }
    RunLenIs(v, NotSpace, |v|);
  }

  /** Of a handle, the two passes together leave at most its `@` or `#`. */
  lemma HandleLeavesAtMostMark(m: string)
    requires HandleShaped(m)
    ensures var r := Substitute(Handles, Substitute(Urls, m));
      forall i | 0 <= i < |r| :: !IsWord(r[i]) && !IsSpace(r[i])
  {
    var j := UrlPassInHandle(m);
    PrefixHandleShaped(m, j);
    HandlePass(m[..j]);
  }

  /** A non-empty prefix of a handle is a handle. */
  lemma PrefixHandleShaped(m: string, j: nat)
    requires HandleShaped(m) && 1 <= j <= |m|
    ensures HandleShaped(m[..j])
  {
    assert forall i | 1 <= i < j :: m[..j][i] == m[i];
  }

  /** Of a whole URL or a whole handle, the two passes together leave at
      most a lone `@` or `#`. */
  lemma WholeMatchLeavesMarks(p: Pattern, m: string)
    requires m != [] && MatchLen(p, m) == |m|
    ensures var r := Substitute(Handles, Substitute(Urls, m));
      forall i | 0 <= i < |r| :: !IsWord(r[i]) && !IsSpace(r[i])
  {
    if p == Urls {
      assert m[|m|..] == [];
      SubstituteSkipsMatch(Urls, m, m[|m|..]);
    } else {
      WholeHandleShaped(m);
      HandleLeavesAtMostMark(m);
    }
  }

  /** Punctuation removal on two normal-form texts with only punctuation
      between two spaces: the punctuation goes and everything else stays. */
  lemma KeepAroundMarks(a: string, r: string, b: string)
    requires Normal(a) && Normal(b)
    requires forall i | 0 <= i < |r| :: !IsWord(r[i]) && !IsSpace(r[i])
    ensures KeepWordsAndSpaces(a + (" " + (r + (" " + b)))) == a + "  " + b
  {
    var tail := " " + b;
    var mid := r + tail;
    assert KeepWordsAndSpaces(mid) == tail by {
      KeepWordsAndSpacesAppend(r, tail);
      DropsPunctuation(r);
      assert forall i | 1 <= i < |tail| :: tail[i] == b[i - 1];
    }
    assert KeepWordsAndSpaces(" " + mid) == " " + tail by {
      KeepWordsAndSpacesAppend(" ", mid);
    }
    assert KeepWordsAndSpaces(a + (" " + mid)) == a + (" " + tail) by {
      KeepWordsAndSpacesAppend(a, " " + mid);
    }
    SpacesRegrouped(a, b);
  }

  lemma SpacesRegrouped(a: string, b: string)
    ensures a + (" " + (" " + b)) == a + "  " + b
  {
    assert " " + (" " + b) == "  " + b;
  }

  /** Punctuation removal, `lower()` and `strip()` on two normal-form texts
      with only punctuation between two spaces: the punctuation goes and
      the rest is only stripped. */
  lemma FinishAroundMarks(a: string, r: string, b: string)
    requires Normal(a) && Normal(b)
    requires forall i | 0 <= i < |r| :: !IsWord(r[i]) && !IsSpace(r[i])
    ensures Finish(a + (" " + (r + (" " + b)))) == Strip(a + "  " + b)
  {
    var x := a + "  " + b;
    KeepAroundMarks(a, r, b);
    TwoSpaced(a, b);
    LowerIdempotent(x);
  }

  /** Two normal-form texts joined by two spaces hold only lower-case word
      characters and whitespace, and are trimmed when neither is empty. */
  lemma TwoSpaced(a: string, b: string)
    requires Normal(a) && Normal(b)
    ensures var x := a + "  " + b;
      forall i | 0 <= i < |x| :: (IsWord(x[i]) || IsSpace(x[i])) && !IsUpper(x[i])
    ensures var x := a + "  " + b;
      a != [] && b != [] ==> !IsSpace(x[0]) && !IsSpace(x[|x| - 1])
  {
    var x := a + "  " + b;
    forall i | 0 <= i < |x|
      ensures (IsWord(x[i]) || IsSpace(x[i])) && !IsUpper(x[i])
    {
      if i < |a| {
        assert x[i] == a[i];
      } else if i >= |a| + 2 {
        assert x[i] == b[i - |a| - 2];
      }
    }
    if a != [] && b != [] {
      assert x[0] == a[0];
      assert x[|x| - 1] == b[|b| - 1];
    }
  }

  /** `clean_text` deletes a URL, or a mention or hashtag, standing as its
      own word between two normal-form texts: the two spaces around it are
      all that is left of it, and the ends are stripped as usual. */
  lemma CleanTextDeletesMatch(p: Pattern, a: string, m: string, b: string)
    requires Normal(a) && Normal(b)
    requires m != [] && MatchLen(p, m) == |m|
    ensures CleanText(a + " " + m + " " + b) == Strip(a + "  " + b)
    ensures a != [] && b != [] ==> CleanText(a + " " + m + " " + b) == a + "  " + b
  {
    CleanTextAroundMatch(p, a, m, b);
    if a != [] && b != [] {
      StripTwoSpaced(a, b);
    }
  }

  /** The word is deleted and the two spaces around it meet. */
  lemma CleanTextAroundMatch(p: Pattern, a: string, m: string, b: string)
    requires Normal(a) && Normal(b)
    requires m != [] && MatchLen(p, m) == |m|
    ensures CleanText(a + " " + m + " " + b) == Strip(a + "  " + b)
  {
    WordBetween(a, m, b);
    BothPassesAroundWord(a, m, b);
    WholeMatchLeavesMarks(p, m);
    FinishAroundMarks(a, Substitute(Handles, Substitute(Urls, m)), b);
  }

  /** Two non-empty normal-form texts joined by two spaces need no strip. */
  lemma StripTwoSpaced(a: string, b: string)
    requires Normal(a) && Normal(b) && a != [] && b != []
    ensures Strip(a + "  " + b) == a + "  " + b
  {
    TwoSpaced(a, b);
    StripOfTrimmed(a + "  " + b);
  }

  lemma WordBetween(a: string, m: string, b: string)
    ensures a + " " + m + " " + b == a + (" " + (m + (" " + b)))
  {
  }
}
