/**
 Reading the language model's reply: the reply is stripped and split into
 lines, each stripped line that starts with `Positive:`, `Neutral:` or
 `Negative:` (case-sensitive) is searched with
 `<Label>:\s*(\d+\.?\d*)%?` under IGNORECASE, a later reading of a label
 overwrites an earlier one, and the three readings are validated and
 rescaled to percentages.
 */
module ResponseParser {
  import opened Chars
  import opened Strings
  import opened Options
  import opened Numbers
  import opened Sentiment

  /** The prefix a line must start with, which is also the literal part of
      the label pattern. */
  function Keyword(l: Label): (k: string)
    ensures |k| > 0 && IsUpper(k[0])
  {
    match l
    case Positive => "Positive:"
    case Neutral => "Neutral:"
    case Negative => "Negative:"
  }

  /** The keyword occurs at position `i` of `t`, letters compared without
      regard to case. */
  predicate KeywordAt(t: string, l: Label, i: nat) {
    var k := Keyword(l);
    i + |k| <= |t| && forall j | 0 <= j < |k| :: ToLower(t[i + j]) == ToLower(k[j])
  }

  /** The whole pattern tried at position `i`: the keyword, any whitespace,
      and a number, whose value is the result. It matches exactly when the
      keyword is there and the first character after it and the whitespace
      following it is a digit. */
  function MatchAt(t: string, l: Label, i: nat): (r: Option<real>)
    requires i <= |t|
    ensures r.Some? ==> r.value >= 0.0
    ensures r.Some? <==>
              KeywordAt(t, l, i)
              && var b := i + |Keyword(l)| + RunLen(t[i + |Keyword(l)|..], Space);
                 b < |t| && IsDigit(t[b])
  {
    if KeywordAt(t, l, i) then
      var after := i + |Keyword(l)|;
      NumberAt(t[after + RunLen(t[after..], Space)..])
    else None
  }

  /** `re.search` from position `i`: the leftmost position where the pattern
      matches, or None when it matches nowhere. */
  function SearchFrom(t: string, l: Label, i: nat): (r: Option<nat>)
    requires i <= |t|
    ensures r.Some? ==> i <= r.value <= |t| && MatchAt(t, l, r.value).Some?
    decreases |t| - i
  {
    if MatchAt(t, l, i).Some? then Some(i)
    else if i == |t| then None
    else SearchFrom(t, l, i + 1)
  }

  /** The search finds the leftmost match: the pattern matches at no
      position before the one found, nor anywhere when nothing is found. */
  lemma {:induction false} NoEarlierMatch(t: string, l: Label, i: nat, j: nat)
    requires i <= j <= |t|
    requires SearchFrom(t, l, i).None? || j < SearchFrom(t, l, i).value
    ensures MatchAt(t, l, j).None?
    decreases j - i
  {
    var found := SearchFrom(t, l, i);
    if i == j {
      assert found != Some(i);
    } else {
      assert found != Some(i);
      assert found == SearchFrom(t, l, i + 1);
      NoEarlierMatch(t, l, i + 1, j);
    }
  }

  /** `float(match.group(1))` of the leftmost match, if there is one. */
  function Search(t: string, l: Label): (r: Option<real>)
    ensures r.Some? ==> r.value >= 0.0
  {
    match SearchFrom(t, l, 0)
    case None => None
    case Some(i) => MatchAt(t, l, i)
  }

  /** `re.search` reads the leftmost match: there is no result exactly when
      the pattern matches nowhere, and a result is the value of a match at a
      position before which the pattern matches nowhere. */
  lemma SearchIsLeftmost(t: string, l: Label)
    ensures Search(t, l).None? <==> forall j | 0 <= j <= |t| :: MatchAt(t, l, j).None?
    ensures Search(t, l).Some? ==>
              var i := SearchFrom(t, l, 0).value;
              Search(t, l) == MatchAt(t, l, i) && forall j | 0 <= j < i :: MatchAt(t, l, j).None?
  {
    forall j | 0 <= j <= |t| && (SearchFrom(t, l, 0).None? || j < SearchFrom(t, l, 0).value)
      ensures MatchAt(t, l, j).None?
    {
      NoEarlierMatch(t, l, 0, j);
    }
  }

  /** A number read for a label. */
  datatype Reading = Reading(sentiment: Label, value: real)

  function ReadingOf(line: string, l: Label): Option<Reading> {
    match Search(line, l)
    case None => None
    case Some(v) => Some(Reading(l, v))
  }

  /** One pass of the line loop: the line is stripped, its case-sensitive
      prefix picks the label, and the search picks the number. A reading
      only comes from a line that starts with its keyword exactly, and its
      value is never negative. */
  function LineReading(raw: string): (r: Option<Reading>)
    ensures r.Some? ==> StartsWith(Strip(raw), Keyword(r.value.sentiment)) && r.value.value >= 0.0
  {
    var line := Strip(raw);
    if StartsWith(line, Keyword(Positive)) then ReadingOf(line, Positive)
    else if StartsWith(line, Keyword(Neutral)) then ReadingOf(line, Neutral)
    else if StartsWith(line, Keyword(Negative)) then ReadingOf(line, Negative)
    else None
  }

  /** A line whose first non-blank character is not an upper-case letter,
      such as `positive: 50`, is ignored. */
  lemma LowercaseLabelIgnored(raw: string)
    requires Strip(raw) != [] && !IsUpper(Strip(raw)[0])
    ensures LineReading(raw) == None
  {
    var line := Strip(raw);
    assert !StartsWith(line, Keyword(Positive)) by {
      assert Keyword(Positive)[0] == 'P';
    }
    assert !StartsWith(line, Keyword(Neutral)) by {
      assert Keyword(Neutral)[0] == 'N';
    }
    assert !StartsWith(line, Keyword(Negative)) by {
      assert Keyword(Negative)[0] == 'N';
    }
  }

  /** The three variables `positive`, `neutral` and `negative`, each None
      until a line sets it. */
  datatype Seen = Seen(positive: Option<real>, neutral: Option<real>, negative: Option<real>) {

    function Get(l: Label): Option<real> {
      match l
      case Positive => positive
      case Neutral => neutral
      case Negative => negative
    }

    function Set(l: Label, v: real): (r: Seen)
      ensures r.Get(l) == Some(v)
      ensures forall m: Label | m != l :: r.Get(m) == Get(m)
    {
      match l
      case Positive => this.(positive := Some(v))
      case Neutral => this.(neutral := Some(v))
      case Negative => this.(negative := Some(v))
    }

    predicate NonNegative() {
      forall l: Label :: Get(l).Some? ==> Get(l).value >= 0.0
    }
  }

  const Unseen := Seen(None, None, None)

  /** One iteration's assignment: a reading overwrites its variable. */
  function Absorb(seen: Seen, reading: Option<Reading>): Seen {
    match reading
    case None => seen
    case Some(rd) => seen.Set(rd.sentiment, rd.value)
  }

  /** The `for line in lines` loop, fed with each line's reading. Values
      read from the reply are never negative, so neither is anything the
      loop has collected. */
  function Collect(seen: Seen, readings: seq<Option<Reading>>): (r: Seen)
    ensures seen.NonNegative() && (forall i | 0 <= i < |readings| :: readings[i].Some? ==> readings[i].value.value >= 0.0)
            ==> r.NonNegative()
    decreases |readings|
  {
    if readings == [] then seen else Collect(Absorb(seen, readings[0]), readings[1..])
  }

  /** Reference definition of the loop's outcome for one label: the last
      reading of that label. */
  function LastReading(readings: seq<Option<Reading>>, l: Label): Option<real>
    decreases |readings|
  {
    if readings == [] then None
    else
      var last := readings[|readings| - 1];
      if last.Some? && last.value.sentiment == l then Some(last.value.value)
      else LastReading(readings[..|readings| - 1], l)
  }

  /** Looking from the front: the last reading of `[x] + rest` is the last
      one of `rest`, or else `x` itself. */
  lemma {:induction false} LastReadingCons(x: Option<Reading>, rest: seq<Option<Reading>>, l: Label)
    ensures LastReading([x] + rest, l)
         == if LastReading(rest, l).Some? then LastReading(rest, l)
            else Absorb(Unseen, x).Get(l)
    decreases |rest|
  {
    var all := [x] + rest;
    if rest == [] {
      assert all[..0] == [];
    } else {
      assert all[|all| - 1] == rest[|rest| - 1];
      assert all[..|all| - 1] == [x] + rest[..|rest| - 1];
      LastReadingCons(x, rest[..|rest| - 1], l);
    }
  }

  /** The loop, run from any starting state, leaves each variable at the
      last reading of its label, or where it was when no line reads it. */
  lemma {:induction false} CollectIsLast(seen: Seen, readings: seq<Option<Reading>>, l: Label)
    ensures Collect(seen, readings).Get(l)
         == if LastReading(readings, l).Some? then LastReading(readings, l) else seen.Get(l)
    decreases |readings|
  {
    if readings != [] {
      CollectIsLast(Absorb(seen, readings[0]), readings[1..], l);
      LastReadingCons(readings[0], readings[1..], l);
      assert [readings[0]] + readings[1..] == readings;
    }
  }

  /** `response.text.strip().split('\n')`: at least one line, none holding
      a line break, and joined back with line breaks they are the stripped
      reply. */
  function ResponseLines(response: string): (lines: seq<string>)
    ensures |lines| >= 1 && forall i | 0 <= i < |lines| :: '\n' !in lines[i]
    ensures Join(lines, '\n') == Strip(response)
  {
    Split(Strip(response), '\n')
  }

  /** Applies a line reader to every line, in order. */
  function ReadAll(read: string -> Option<Reading>, lines: seq<string>): (r: seq<Option<Reading>>)
    ensures |r| == |lines|
    ensures forall i | 0 <= i < |lines| :: r[i] == read(lines[i])
  {
    seq(|lines|, i requires 0 <= i < |lines| => read(lines[i]))
  }

  /** The reading of each line of the reply, line by line and in order.
      None of them is negative. */
  function LineReadings(response: string): (r: seq<Option<Reading>>)
    ensures |r| == |ResponseLines(response)|
    ensures forall i | 0 <= i < |r| :: r[i] == LineReading(ResponseLines(response)[i])
    ensures forall i | 0 <= i < |r| :: r[i].Some? ==> r[i].value.value >= 0.0
  {
    ReadAll(LineReading, ResponseLines(response))
  }

  /** What the parse-and-validate block produces. */
  datatype ParseResult = FormatError | ZeroSum | Scores(dist: Dist)

  /** The values the line loop leaves in `positive`, `neutral` and `negative`. */
  function Readings(response: string): (r: Seen)
    ensures r.NonNegative()
  {
    Collect(Unseen, LineReadings(response))
  }

  /** The validation after the loop: a missing value is a format error, a
      zero total is the sum-is-0 error, and otherwise the values are
      rescaled to percentages. For non-negative values the total is 0
      exactly when all three are 0, and the percentages lie in [0, 100]. */
  function Validate(seen: Seen): (r: ParseResult)
    ensures r.FormatError? <==> exists l: Label :: seen.Get(l).None?
    ensures r.Scores? ==> r.dist.Total() == 100.0
    ensures seen.NonNegative() ==> (r.ZeroSum? <==> forall l: Label :: seen.Get(l) == Some(0.0))
    ensures seen.NonNegative() && r.Scores? ==> forall l: Label :: 0.0 <= r.dist.Value(l) <= 100.0
  {
    assert seen.Get(Positive) == seen.positive && seen.Get(Neutral) == seen.neutral;
    assert seen.Get(Negative) == seen.negative;
    if seen.positive.Some? && seen.neutral.Some? && seen.negative.Some? then
      var raw := Dist(seen.positive.value, seen.neutral.value, seen.negative.value);
      if raw.Total() > 0.0 then Scores(Rescale(raw)) else ZeroSum
    else FormatError
  }

  /** The parse, validate and rescale block. Any scores it returns are
      percentages: each in [0, 100] and adding up to 100. */
  function ParseResponse(response: string): (r: ParseResult)
    ensures r.Scores? ==> r.dist.Total() == 100.0
    ensures r.Scores? ==> forall l: Label :: 0.0 <= r.dist.Value(l) <= 100.0
  {
    Validate(Readings(response))
  }

  /** Each variable ends at the last reading of its label in the reply. */
  lemma ReadingsAreLast(response: string, l: Label)
    ensures Readings(response).Get(l) == LastReading(LineReadings(response), l)
  {
    CollectIsLast(Unseen, LineReadings(response), l);
  }

  /** The parse in terms of the last reading of each label: a format error
      exactly when some label has no reading, the sum-is-0 error exactly
      when all three readings are 0, and otherwise the three readings
      rescaled. */
  lemma ParseResponseMeaning(response: string)
    ensures var readings := LineReadings(response);
            ParseResponse(response).FormatError?
            <==> LastReading(readings, Positive).None? || LastReading(readings, Neutral).None?
                 || LastReading(readings, Negative).None?
    ensures var readings := LineReadings(response);
            ParseResponse(response).ZeroSum?
            <==> LastReading(readings, Positive) == Some(0.0) && LastReading(readings, Neutral) == Some(0.0)
                 && LastReading(readings, Negative) == Some(0.0)
    ensures ParseResponse(response).Scores? ==>
              var readings := LineReadings(response);
              var p, n, g := LastReading(readings, Positive), LastReading(readings, Neutral), LastReading(readings, Negative);
              p.Some? && n.Some? && g.Some? &&
              var raw := Dist(p.value, n.value, g.value);
              raw.Total() > 0.0 && ParseResponse(response).dist == Rescale(raw)
  {
    var readings := LineReadings(response);
    var seen := Readings(response);
    forall l: Label ensures seen.Get(l) == LastReading(readings, l) {
      ReadingsAreLast(response, l);
    }
    ValidateAgrees(seen, LastReading(readings, Positive), LastReading(readings, Neutral), LastReading(readings, Negative));
  }

  /** Validation seen through three values that agree with the variables. */
  lemma ValidateAgrees(seen: Seen, p: Option<real>, n: Option<real>, g: Option<real>)
    requires seen.NonNegative()
    requires seen.Get(Positive) == p && seen.Get(Neutral) == n && seen.Get(Negative) == g
    ensures Validate(seen).FormatError? <==> p.None? || n.None? || g.None?
    ensures Validate(seen).ZeroSum? <==> p == Some(0.0) && n == Some(0.0) && g == Some(0.0)
    ensures Validate(seen).Scores? ==>
              p.Some? && n.Some? && g.Some? &&
              var raw := Dist(p.value, n.value, g.value);
              raw.Total() > 0.0 && Validate(seen).dist == Rescale(raw)
  {
  }

  /** A line in the format the prompt asks for: `Positive: 80%`. */
  function FormatLine(l: Label, v: nat): string {
    Keyword(l) + " " + ShowNat(v) + "%"
  }

  /** A line in the requested format has no surrounding whitespace. */
  lemma FormatLineTrimmed(l: Label, v: nat)
    ensures Strip(FormatLine(l, v)) == FormatLine(l, v)
  {
    var line := FormatLine(l, v);
    assert line[|line| - 1] == '%';
    assert line[0] == Keyword(l)[0];
    StripOfTrimmed(line);
  }

  /** The label pattern matches a line in the requested format at its very
      start, with the line's number. */
  lemma FormatLineMatches(l: Label, v: nat)
    ensures MatchAt(FormatLine(l, v), l, 0) == Some(v as real)
  {
    var k := Keyword(l);
    var line := FormatLine(l, v);
    KeywordLineParts(k, ShowNat(v), line);
    assert KeywordAt(line, l, 0);
  }

  /** `kw` is the keyword of `l` spelled in any mix of cases, as IGNORECASE
      accepts it. */
  predicate SpellsKeyword(kw: string, l: Label) {
    |kw| == |Keyword(l)| && forall j | 0 <= j < |kw| :: ToLower(kw[j]) == ToLower(Keyword(l)[j])
  }

  /** Wherever the keyword stands, in any case, and is followed by any
      whitespace and a decimal number, the number is read with its
      fractional part. */
  lemma ReadsDecimalAfterKeyword(l: Label, pre: string, kw: string, ws: string, whole: string, frac: string, rest: string)
    requires SpellsKeyword(kw, l)
    requires AllSpace(ws) && whole != [] && AllDigits(whole) && AllDigits(frac)
    requires rest == [] || !IsDigit(rest[0])
    ensures MatchAt(pre + kw + ws + (whole + ['.'] + frac + rest), l, |pre|) == Some(DecimalValue(whole, frac))
  {
    var num := whole + ['.'] + frac + rest;
    KeywordThenSpace(l, pre, kw, ws, num);
    NumberOfDecimal(whole, frac, rest);
  }

  /** Wherever the keyword stands, in any case, and is followed by any
      whitespace and a whole number not followed by a digit or a point,
      that number is read. */
  lemma ReadsWholeAfterKeyword(l: Label, pre: string, kw: string, ws: string, whole: string, rest: string)
    requires SpellsKeyword(kw, l)
    requires AllSpace(ws) && whole != [] && AllDigits(whole)
    requires rest == [] || (!IsDigit(rest[0]) && rest[0] != '.')
    ensures MatchAt(pre + kw + ws + (whole + rest), l, |pre|) == Some(DigitsValue(whole) as real)
  {
    KeywordThenSpace(l, pre, kw, ws, whole + rest);
    NumberOfWhole(whole, rest);
  }

  /** The keyword in any case, followed by whitespace and then a digit: the
      pattern tried there reads the number that follows the whitespace. */
  lemma KeywordThenSpace(l: Label, pre: string, kw: string, ws: string, num: string)
    requires SpellsKeyword(kw, l)
    requires AllSpace(ws) && num != [] && IsDigit(num[0])
    ensures MatchAt(pre + kw + ws + num, l, |pre|) == NumberAt(num)
  {
    var k := Keyword(l);
    var i := |pre|;
    var t := pre + kw + ws + num;
    assert forall j | 0 <= j < |k| :: t[i + j] == kw[j];
    assert KeywordAt(t, l, i);
    assert t[i + |k|..] == ws + num;
    RunLenIs(ws + num, Space, |ws|);
    assert t[i + |k| + |ws|..] == num;
  }

  /** The pieces of `k + " " + digits + "%"`: the keyword at the front, one
      space after it, and then a whole number. */
  lemma KeywordLineParts(k: string, digits: string, line: string)
    requires line == k + " " + digits + "%"
    requires digits != [] && AllDigits(digits)
    ensures forall j | 0 <= j < |k| :: line[j] == k[j]
    ensures |k| < |line| && RunLen(line[|k|..], Space) == 1
    ensures NumberAt(line[|k| + 1..]) == Some(DigitsValue(digits) as real)
  {
    var tail := " " + digits + "%";
    assert line[|k|..] == tail;
    RunLenIs(tail, Space, 1);
    assert line[|k| + 1..] == digits + "%";
    NumberOfWhole(digits, "%");
  }

  /** A line in the requested format is read back as its label and number. */
  lemma ReadsFormatLine(l: Label, v: nat)
    ensures LineReading(FormatLine(l, v)) == Some(Reading(l, v as real))
  {
    FormatLineTrimmed(l, v);
    FormatLineMatches(l, v);
    FormatLineStarts(l, v);
    ReadsMatchingLine(FormatLine(l, v), l, v as real);
  }

  lemma FormatLineStarts(l: Label, v: nat)
    ensures StartsWith(FormatLine(l, v), Keyword(l))
  {
  }

  /** A trimmed line that starts with a keyword and matches the pattern at
      its start is read as that match. */
  lemma ReadsMatchingLine(line: string, l: Label, v: real)
    requires Strip(line) == line && StartsWith(line, Keyword(l))
    requires MatchAt(line, l, 0) == Some(v)
    ensures LineReading(line) == Some(Reading(l, v))
  {
    DispatchesOn(line, l);
    assert SearchFrom(line, l, 0) == Some(0);
  }

  /** A line that starts with a keyword is searched for that keyword's label. */
  lemma DispatchesOn(raw: string, l: Label)
    requires StartsWith(Strip(raw), Keyword(l))
    ensures LineReading(raw) == ReadingOf(Strip(raw), l)
  {
    KeywordsExclusive(Strip(raw), l);
  }

  /** No line starts with two different keywords. */
  lemma KeywordsExclusive(line: string, l: Label)
    requires StartsWith(line, Keyword(l))
    ensures forall m: Label | m != l :: !StartsWith(line, Keyword(m))
  {
    assert Keyword(Positive)[0] == 'P' && Keyword(Neutral)[0] == 'N';
    assert Keyword(Neutral)[1] == 'e' && Keyword(Negative)[1] == 'e';
    assert Keyword(Neutral)[2] == 'u' && Keyword(Negative)[2] == 'g';
  }

  /** The reply the prompt asks for, three lines in the order Positive,
      Neutral, Negative. */
  function FormatResponse(p: nat, n: nat, g: nat): string {
    Join([FormatLine(Positive, p), FormatLine(Neutral, n), FormatLine(Negative, g)], '\n')
  }

  /** Three lines without line breaks, the first starting and the last
      ending in a non-blank character, are split back apart after
      stripping their join. */
  lemma ThreeLines(a: string, b: string, c: string)
    requires '\n' !in a && '\n' !in b && '\n' !in c
    requires a != [] && !IsSpace(a[0]) && c != [] && !IsSpace(c[|c| - 1])
    ensures Split(Strip(Join([a, b, c], '\n')), '\n') == [a, b, c]
  {
    var joined := Join([a, b, c], '\n');
    assert [a, b, c][1..] == [b, c] && [b, c][1..] == [c];
    assert Join([c], '\n') == c;
    assert Join([b, c], '\n') == b + ['\n'] + c;
    assert joined == a + ['\n'] + Join([b, c], '\n');
    assert joined[0] == a[0];
    assert joined[|joined| - 1] == c[|c| - 1];
    StripOfTrimmed(joined);
    SplitJoin([a, b, c], '\n');
  }

  /** The lines of a reply in the requested format are its three lines. */
  lemma FormatResponseLines(p: nat, n: nat, g: nat)
    ensures ResponseLines(FormatResponse(p, n, g))
            == [FormatLine(Positive, p), FormatLine(Neutral, n), FormatLine(Negative, g)]
  {
    FormatLineHasNoBreak(Positive, p);
    FormatLineHasNoBreak(Neutral, n);
    FormatLineHasNoBreak(Negative, g);
    FormatLineTrimmed(Positive, p);
    FormatLineTrimmed(Negative, g);
    ThreeLines(FormatLine(Positive, p), FormatLine(Neutral, n), FormatLine(Negative, g));
  }

  /** A reply in the requested format is parsed to its three numbers,
      rescaled; all three being 0 is the sum-is-0 error. */
  lemma ParsesFormatResponse(p: nat, n: nat, g: nat)
    ensures p + n + g > 0 ==> ParseResponse(FormatResponse(p, n, g)) == Scores(Rescale(Dist(p as real, n as real, g as real)))
    ensures p + n + g == 0 ==> ParseResponse(FormatResponse(p, n, g)) == ZeroSum
  {
    FormatResponseLines(p, n, g);
    ReadsFormatLine(Positive, p);
    ReadsFormatLine(Neutral, n);
    ReadsFormatLine(Negative, g);
    ReadsThreeLines(FormatResponse(p, n, g), FormatLine(Positive, p), FormatLine(Neutral, n), FormatLine(Negative, g),
                    p as real, n as real, g as real);
    ValidatesThree(p as real, n as real, g as real);
  }

  /** A reply of three lines that read as the three labels, in order. */
  lemma ReadsThreeLines(response: string, a: string, b: string, c: string, p: real, n: real, g: real)
    requires ResponseLines(response) == [a, b, c]
    requires LineReading(a) == Some(Reading(Positive, p))
    requires LineReading(b) == Some(Reading(Neutral, n))
    requires LineReading(c) == Some(Reading(Negative, g))
    ensures Readings(response) == Seen(Some(p), Some(n), Some(g))
  {
    ReadsThree(LineReading, a, b, c);
    CollectsThree(p, n, g);
  }

  /** A reader applied to three lines. */
  lemma ReadsThree(read: string -> Option<Reading>, a: string, b: string, c: string)
    ensures ReadAll(read, [a, b, c]) == [read(a), read(b), read(c)]
  {
  }

  /** Validation of three collected values. */
  lemma ValidatesThree(p: real, n: real, g: real)
    ensures p + n + g > 0.0 ==> Validate(Seen(Some(p), Some(n), Some(g))) == Scores(Rescale(Dist(p, n, g)))
    ensures p + n + g <= 0.0 ==> Validate(Seen(Some(p), Some(n), Some(g))) == ZeroSum
  {
  }

  /** Readings of the three labels, in order, fill all three variables. */
  lemma CollectsThree(p: real, n: real, g: real)
    ensures Collect(Unseen, [Some(Reading(Positive, p)), Some(Reading(Neutral, n)), Some(Reading(Negative, g))])
            == Seen(Some(p), Some(n), Some(g))
  {
    var readings := [Some(Reading(Positive, p)), Some(Reading(Neutral, n)), Some(Reading(Negative, g))];
    var rest1, rest2 := readings[1..], readings[2..];
    assert rest1[1..] == rest2 && rest2[1..] == [];
    var s1 := Absorb(Unseen, readings[0]);
    var s2 := Absorb(s1, readings[1]);
    var s3 := Absorb(s2, readings[2]);
    assert Collect(s3, rest2[1..]) == s3;
    assert Collect(s2, rest2) == s3;
    assert Collect(s1, rest1) == s3;
  }

  lemma FormatLineHasNoBreak(l: Label, v: nat)
    ensures '\n' !in FormatLine(l, v)
  {
    NoBreakInLine(Keyword(l), ShowNat(v), FormatLine(l, v));
  }

  lemma NoBreakInLine(k: string, digits: string, line: string)
    requires line == k + " " + digits + "%"
    requires '\n' !in k && AllDigits(digits)
    ensures '\n' !in line
  {
    forall i | 0 <= i < |line| ensures line[i] != '\n' {
      if |k| + 1 <= i < |line| - 1 {
        assert line[i] == digits[i - |k| - 1];
      }
    }
  }
}
