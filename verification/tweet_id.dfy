/**
 `extract_tweet_id`: `re.search(r'status/(\d+)', url)`, returning the digit
 run after the leftmost `status/` that a digit follows.
 */
module TweetId {
  import opened Chars
  import opened Strings
  import opened Options
  import opened Numbers

  const Marker: string := "status/"

  /** The pattern matches at `i`: `status/` and then at least one digit. */
  predicate StatusAt(url: string, i: nat) {
    i + |Marker| < |url|
    && (forall j | 0 <= j < |Marker| :: url[i + j] == Marker[j])
    && IsDigit(url[i + |Marker|])
  }

  /** The leftmost match position at or after `i`. */
  function FindStatus(url: string, i: nat): (r: Option<nat>)
    requires i <= |url|
    ensures r.Some? ==> i <= r.value < |url| && StatusAt(url, r.value)
    ensures r.Some? ==> forall j | i <= j < r.value :: !StatusAt(url, j)
    ensures r.None? ==> forall j | i <= j < |url| :: !StatusAt(url, j)
    decreases |url| - i
  {
    if i == |url| then None
    else if StatusAt(url, i) then Some(i)
    else FindStatus(url, i + 1)
  }

  /** `match.group(1)`: the greedy digit run after the leftmost match. There
      is an id exactly when some `status/` is followed by a digit, and an id
      is never empty and holds only digits. */
  function ExtractTweetId(url: string): (r: Option<string>)
    ensures r.None? <==> forall i | 0 <= i < |url| :: !StatusAt(url, i)
    ensures r.Some? ==> r.value != [] && AllDigits(r.value)
  {
    match FindStatus(url, 0)
    case None => None
    case Some(i) =>
      var start := i + |Marker|;
      Some(url[start..start + RunLen(url[start..], Digit)])
  }

  /** The id of a URL whose first `status/`-and-digit is the one in front of
      `digits` is all of `digits`, up to the first non-digit after them. */
  lemma ExtractsDigits(prefix: string, digits: string, rest: string)
    requires digits != [] && AllDigits(digits)
    requires rest == [] || !IsDigit(rest[0])
    requires forall i | 0 <= i < |prefix| :: !StatusAt(prefix + Marker + digits + rest, i)
    ensures ExtractTweetId(prefix + Marker + digits + rest) == Some(digits)
  {
    var url := prefix + Marker + digits + rest;
    var start := |prefix| + |Marker|;
    assert url[start] == digits[0];
    assert StatusAt(url, |prefix|);
    assert FindStatus(url, 0) == Some(|prefix|);
    assert url[start..] == digits + rest;
    RunLenIs(digits + rest, Digit, |digits|);
    assert url[start..start + |digits|] == digits;
  }
}
