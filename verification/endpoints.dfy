/**
 The two HTTP handlers, `/analyze` (a tweet URL) and `/analyze-text` (a
 text), as functions from the request body and the external services to
 the response: the checks in their order, the status codes and messages,
 and the assembly of both scorers' results with their overall labels.
 */
module Endpoints {
  import opened Options
  import opened Strings
  import opened Sentiment
  import opened TweetId
  import opened Normalizer
  import opened Scorers

  /** A JSON value as `request.get_json()` decodes it. */
  datatype Json =
    | JNull
    | JBool(b: bool)
    | JNumber(n: real)
    | JString(s: string)
    | JArray(items: seq<Json>)
    | JObject(fields: map<string, Json>)

  /** The request body: decoded JSON, or the error Flask raised for a body
      it could not decode. */
  datatype Body = Undecodable(reason: string) | Decoded(data: Json)

  /** Python's `not data`. */
  predicate Falsy(data: Json) {
    match data
    case JNull => true
    case JBool(b) => !b
    case JNumber(n) => n == 0.0
    case JString(s) => s == []
    case JArray(items) => items == []
    case JObject(fields) => fields == map[]
  }

  /** `t in s` for strings: `t` occurs somewhere in `s`. */
  predicate Contains(s: string, t: string) {
    exists i | 0 <= i <= |s| :: StartsWith(s[i..], t)
  }

  /** An exception that escapes into the handler's `except Exception`
      branch, which answers 500 with `Unexpected error: ` and the
      exception's text. */
  datatype Fault =
    | BodyRejected(reason: string)
    | NotIterable
    | NotSubscriptable
    | NotAString
    | FetchRaised(reason: string)
    | LocalModel(failure: LocalFailure)

  /** How `not data or key not in data`, `data[key]` and `.strip()` turn out. */
  datatype Field = Missing | Blank | Given(value: string) | Broken(fault: Fault)

  /** Reading one string field of the body. A falsy body or an absent key is
      a missing field; a blank string is blank; a key found in something
      other than an object, a body `in` cannot search, and a value that is
      not a string raise. */
  function ReadField(body: Body, key: string): (r: Field)
    ensures r.Given? <==>
              body.Decoded? && body.data.JObject? && key in body.data.fields
              && body.data.fields[key].JString? && Strip(body.data.fields[key].s) != []
    ensures r.Given? ==> body.data.fields[key] == JString(r.value)
    ensures r.Blank? <==>
              body.Decoded? && body.data.JObject? && key in body.data.fields
              && body.data.fields[key].JString? && Strip(body.data.fields[key].s) == []
    ensures r.Missing? <==>
              body.Decoded? &&
              (Falsy(body.data)
               || (body.data.JObject? && key !in body.data.fields)
               || (body.data.JString? && !Contains(body.data.s, key))
               || (body.data.JArray? && JString(key) !in body.data.items))
    ensures body.Undecodable? ==> r == Broken(BodyRejected(body.reason))
  {
    match body
    case Undecodable(e) => Broken(BodyRejected(e))
    case Decoded(data) =>
      if Falsy(data) then Missing
      else
        match data
        case JObject(fields) =>
          if key !in fields then Missing
          else (
            match fields[key]
            case JString(s) => if Strip(s) == [] then Blank else Given(s)
            case _ => Broken(NotAString))
        case JString(s) => if Contains(s, key) then Broken(NotSubscriptable) else Missing
        case JArray(items) => if JString(key) in items then Broken(NotSubscriptable) else Missing
        case _ => Broken(NotIterable)
  }

  /** What `get_tweet` gives: no data, the rate-limit exception, another
      tweepy exception, any other exception, or the tweet's text. */
  datatype Fetch = NotFound | RateLimited | ApiError(message: string) | FetchFailed(reason: string) | Fetched(text: string)

  /** What the handlers call: whether the Twitter client was configured at
      start-up, the tweet lookup, and the two scorers. */
  datatype Services = Services(
    twitterReady: bool,
    fetch: string -> Fetch,
    local: string -> LocalResult,
    gemini: string -> GeminiResult)

  /** The services of the running application: the scorers are
      `predict_local_sentiment` over the classifier and
      `predict_gemini_sentiment` over the configured model. */
  function Wire(twitterReady: bool, fetch: string -> Fetch, classify: string -> Classification,
                geminiReady: bool, generate: string -> LlmReply): (s: Services)
    ensures s.twitterReady == twitterReady && forall id :: s.fetch(id) == fetch(id)
    ensures forall t :: s.local(t) == PredictLocal(t, classify)
    ensures forall t :: s.gemini(t) == PredictGemini(t, geminiReady, generate)
  {
    Services(twitterReady, fetch, t => PredictLocal(t, classify), t => PredictGemini(t, geminiReady, generate))
  }

  /** The JSON the handlers send on success. */
  datatype Analysis = Analysis(
    text: string,
    local: Dist,
    gemini: GeminiResult,
    localOverall: Label,
    geminiOverall: Option<Label>)

  datatype Response = Failure(status: nat, error: string) | Crash(fault: Fault) | Ok(analysis: Analysis)

  function Status(r: Response): nat {
    match r
    case Failure(status, _) => status
    case Crash(_) => 500
    case Ok(_) => 200
  }

  const TwitterNotInitialized: string := "Twitter API client not initialized"
  const MissingUrl: string := "Missing tweetUrl in request"
  const EmptyUrl: string := "Tweet URL cannot be empty"
  const InvalidUrl: string := "Invalid tweet URL format"
  const TweetNotFound: string := "Tweet not found or inaccessible"
  const RateLimitExceeded: string :=
    "Twitter API rate limit exceeded. Please try again later or use text input mode."
  const TwitterErrorPrefix: string := "Twitter API error: "
  const MissingText: string := "Missing tweetText in request"
  const EmptyText: string := "Tweet text cannot be empty"

  /** Both scorers on one text and the overall label of each. The local
      scorer failing is an unexpected error; the Gemini scorer's errors are
      part of a successful answer, which then has no Gemini label. Each
      overall label scores highest in its own distribution. */
  function Aggregate(s: Services, text: string): (r: Response)
    ensures r.Ok? <==> s.local(text).LocalScores?
    ensures r.Crash? <==> !r.Ok?
    ensures r.Ok? ==> r.analysis.text == text && r.analysis.local == s.local(text).dist
    ensures r.Ok? ==> r.analysis.gemini == s.gemini(text)
    ensures r.Ok? ==> (r.analysis.geminiOverall.None? <==> r.analysis.gemini.GeminiError?)
    ensures r.Ok? ==> Highest(r.analysis.local, r.analysis.localOverall)
    ensures r.Ok? && r.analysis.geminiOverall.Some? ==> Highest(r.analysis.gemini.dist, r.analysis.geminiOverall.value)
    ensures r.Ok? ==> r.analysis.localOverall == Overall(r.analysis.local)
    ensures r.Ok? && r.analysis.gemini.GeminiScores? ==> r.analysis.geminiOverall == Some(Overall(r.analysis.gemini.dist))
    ensures r.Crash? ==> r.fault == LocalModel(s.local(text).failure)
  {
    match s.local(text)
    case LocalFailed(f) => Crash(LocalModel(f))
    case LocalScores(local) =>
      var gemini := s.gemini(text);
      var geminiOverall := if gemini.GeminiScores? then Some(Overall(gemini.dist)) else None;
      Ok(Analysis(text, local, gemini, Overall(local), geminiOverall))
  }

  /** How far `/analyze` gets before the scorers: an answer already, or the
      text of the fetched tweet. */
  datatype Stage = Answer(response: Response) | Proceed(text: string)

  /** The part of `/analyze` before the scorers: the Twitter client is
      checked before the body is read, then the `tweetUrl` field, the id in
      it and the lookup. It goes on exactly when every check passed and the
      lookup found the tweet, and only with that tweet's text; every answer
      it gives is an error. */
  function FetchTweet(twitterReady: bool, fetch: string -> Fetch, body: Body): (r: Stage)
    ensures !twitterReady ==> r == Answer(Failure(503, TwitterNotInitialized))
    ensures r.Answer? ==> !r.response.Ok? && Status(r.response) in {400, 404, 429, 500, 503}
    ensures r.Proceed? <==>
              twitterReady && ReadField(body, "tweetUrl").Given?
              && ExtractTweetId(ReadField(body, "tweetUrl").value).Some?
              && fetch(ExtractTweetId(ReadField(body, "tweetUrl").value).value).Fetched?
    ensures r.Proceed? ==>
              fetch(ExtractTweetId(ReadField(body, "tweetUrl").value).value) == Fetched(r.text)
    ensures twitterReady ==> match ReadField(body, "tweetUrl")
              case Missing => r == Answer(Failure(400, MissingUrl))
              case Blank => r == Answer(Failure(400, EmptyUrl))
              case Broken(f) => r == Answer(Crash(f))
              case Given(url) => ExtractTweetId(url).None? ==> r == Answer(Failure(400, InvalidUrl))
    ensures twitterReady && ReadField(body, "tweetUrl").Given? && ExtractTweetId(ReadField(body, "tweetUrl").value).Some? ==>
              match fetch(ExtractTweetId(ReadField(body, "tweetUrl").value).value)
              case NotFound => r == Answer(Failure(404, TweetNotFound))
              case RateLimited => r == Answer(Failure(429, RateLimitExceeded))
              case ApiError(m) => r == Answer(Failure(500, TwitterErrorPrefix + m))
              case FetchFailed(e) => r == Answer(Crash(FetchRaised(e)))
              case Fetched(text) => r == Proceed(text)
  {
    if !twitterReady then Answer(Failure(503, TwitterNotInitialized))
    else
      match ReadField(body, "tweetUrl")
      case Broken(f) => Answer(Crash(f))
      case Missing => Answer(Failure(400, MissingUrl))
      case Blank => Answer(Failure(400, EmptyUrl))
      case Given(url) =>
        match ExtractTweetId(url)
        case None => Answer(Failure(400, InvalidUrl))
        case Some(id) =>
          match fetch(id)
          case NotFound => Answer(Failure(404, TweetNotFound))
          case RateLimited => Answer(Failure(429, RateLimitExceeded))
          case ApiError(m) => Answer(Failure(500, TwitterErrorPrefix + m))
          case FetchFailed(e) => Answer(Crash(FetchRaised(e)))
          case Fetched(text) => Proceed(text)
  }

  /** `POST /analyze`: the answer of the fetching part, or both scorers on
      the tweet's text. */
  function AnalyzeTweet(s: Services, body: Body): (r: Response)
    ensures Status(r) in {200, 400, 404, 429, 500, 503}
    ensures r.Ok? ==> FetchTweet(s.twitterReady, s.fetch, body) == Proceed(r.analysis.text)
    ensures r.Ok? <==>
              FetchTweet(s.twitterReady, s.fetch, body).Proceed?
              && s.local(FetchTweet(s.twitterReady, s.fetch, body).text).LocalScores?
    ensures FetchTweet(s.twitterReady, s.fetch, body).Answer? ==> r == FetchTweet(s.twitterReady, s.fetch, body).response
  {
    match FetchTweet(s.twitterReady, s.fetch, body)
    case Answer(r) => r
    case Proceed(text) => Aggregate(s, text)
  }

  /** `POST /analyze-text`: no Twitter check, a `tweetText` field, and the
      text analysed as it was given. */
  function AnalyzeText(s: Services, body: Body): (r: Response)
    ensures Status(r) in {200, 400, 500}
    ensures r.Ok? ==> ReadField(body, "tweetText") == Given(r.analysis.text)
    ensures r.Ok? <==>
              ReadField(body, "tweetText").Given? && s.local(ReadField(body, "tweetText").value).LocalScores?
    ensures ReadField(body, "tweetText").Missing? ==> r == Failure(400, MissingText)
    ensures ReadField(body, "tweetText").Blank? ==> r == Failure(400, EmptyText)
    ensures ReadField(body, "tweetText").Broken? ==> r == Crash(ReadField(body, "tweetText").fault)
  {
    match ReadField(body, "tweetText")
    case Broken(f) => Crash(f)
    case Missing => Failure(400, MissingText)
    case Blank => Failure(400, EmptyText)
    case Given(text) => Aggregate(s, text)
  }

  /** The fields of an answer the Gemini scorer has no say in. */
  ghost predicate SameApartFromGemini(r1: Response, r2: Response) {
    Status(r1) == Status(r2)
    && (r1.Ok? ==> r2.Ok? && r1.analysis.text == r2.analysis.text
                   && r1.analysis.local == r2.analysis.local
                   && r1.analysis.localOverall == r2.analysis.localOverall)
  }

  /** Any other Gemini scorer leaves the status of an `/analyze` answer as
      it is, and on success the text, the local scores and the local label:
      an error from the language model never fails the request. */
  lemma TweetGeminiIsolated(s: Services, gemini: string -> GeminiResult, body: Body)
    ensures SameApartFromGemini(AnalyzeTweet(s, body), AnalyzeTweet(s.(gemini := gemini), body))
  {
    var s2 := s.(gemini := gemini);
    assert FetchTweet(s2.twitterReady, s2.fetch, body) == FetchTweet(s.twitterReady, s.fetch, body);
  }

  /** The same for `/analyze-text`. */
  lemma TextGeminiIsolated(s: Services, gemini: string -> GeminiResult, body: Body)
    ensures SameApartFromGemini(AnalyzeText(s, body), AnalyzeText(s.(gemini := gemini), body))
  {
  }

  /** Every error answer of `/analyze` but a failing local scorer is decided
      before any scorer runs: with any other scorers the answer is the same. */
  lemma FailuresIgnoreScorers(s: Services, local: string -> LocalResult, gemini: string -> GeminiResult, body: Body)
    ensures AnalyzeTweet(s, body).Failure? ==>
              AnalyzeTweet(s.(local := local, gemini := gemini), body) == AnalyzeTweet(s, body)
  {
  }

  /** Once a tweet is fetched, `/analyze` answers exactly as `/analyze-text`
      does for a body holding the tweet's text, unless that text is blank. */
  lemma TweetLikeText(s: Services, body: Body, text: string)
    requires FetchTweet(s.twitterReady, s.fetch, body) == Proceed(text) && Strip(text) != []
    ensures AnalyzeTweet(s, body) == AnalyzeText(s, Decoded(JObject(map["tweetText" := JString(text)])))
  {
    var fields := map["tweetText" := JString(text)];
    assert fields != map[] by {
      assert "tweetText" in fields;
    }
  }

  /** Without a Twitter client `/analyze` answers 503 whatever the body,
      even one Flask could not decode. */
  lemma TwitterCheckedFirst(s: Services, body: Body)
    requires !s.twitterReady
    ensures AnalyzeTweet(s, body) == Failure(503, TwitterNotInitialized)
  {
  }

  /** A rate-limited lookup answers 429 with the advice to use text input,
      whatever the scorers would have said. */
  lemma RateLimitAnswers(s: Services, body: Body, url: string, id: string)
    requires s.twitterReady && ReadField(body, "tweetUrl") == Given(url)
    requires ExtractTweetId(url) == Some(id) && s.fetch(id) == RateLimited
    ensures AnalyzeTweet(s, body) == Failure(429, RateLimitExceeded)
  {
  }

  /** In the running application `/analyze-text` succeeds on a non-blank
      text exactly when the classifier yields at least three probabilities
      for the cleaned text; without a configured Gemini model the answer
      then carries the not-initialized error and no Gemini label. */
  lemma WiredText(twitterReady: bool, fetch: string -> Fetch, classify: string -> Classification,
                  geminiReady: bool, generate: string -> LlmReply, text: string)
    requires Strip(text) != []
    ensures var s := Wire(twitterReady, fetch, classify, geminiReady, generate);
            var r := AnalyzeText(s, Decoded(JObject(map["tweetText" := JString(text)])));
            (r.Ok? <==> classify(CleanText(text)).Probabilities? && |classify(CleanText(text)).p| >= 3)
            && (r.Ok? && !geminiReady ==>
                  r.analysis.gemini == GeminiError(NotInitialized) && r.analysis.geminiOverall == None)
  {
    var fields := map["tweetText" := JString(text)];
    assert fields != map[] by {
      assert "tweetText" in fields;
    }
  }
}
