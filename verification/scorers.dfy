/**
 The two scorers. The local one cleans the text and hands it to the
 classifier, whose softmax output is read by class index; the remote one
 sends a prompt to the language model and parses its reply. The
 classifier and the model call are parameters: whatever they return is
 what this model works with.
 */
module Scorers {
  import opened Options
  import opened Sentiment
  import opened Normalizer
  import opened ResponseParser

  /** The vectorizer, SVM and softmax applied to a cleaned text: the class
      probabilities in class order (negative, neutral, positive), or the
      reason they could not be computed. */
  datatype Classification = ClassifierFailed(reason: string) | Probabilities(p: seq<real>)

  /** Why `predict_local_sentiment` raised: the classifier failed, or its
      output had no class 2 to read. */
  datatype LocalFailure = Raised(reason: string) | TooFewClasses(count: nat)

  datatype LocalResult = LocalFailed(failure: LocalFailure) | LocalScores(dist: Dist)

  /** `predict_local_sentiment`: the classifier sees only the cleaned text,
      and probabilities 2, 1 and 0 become the positive, neutral and negative
      percentages. */
  function PredictLocal(text: string, classify: string -> Classification): (r: LocalResult)
    ensures r.LocalScores? <==> classify(CleanText(text)).Probabilities? && |classify(CleanText(text)).p| >= 3
    ensures r.LocalScores? ==>
      forall l: Label :: r.dist.Value(l) == classify(CleanText(text)).p[ClassIndex(l)] * 100.0
  {
    match classify(CleanText(text))
    case ClassifierFailed(e) => LocalFailed(Raised(e))
    case Probabilities(p) =>
      if |p| < 3 then LocalFailed(TooFewClasses(|p|))
      else LocalScores(Dist(p[2] * 100.0, p[1] * 100.0, p[0] * 100.0))
  }

  /** The classifier's class index for each label: the model orders its
      classes negative, neutral, positive. */
  function ClassIndex(l: Label): (i: nat)
    ensures i < 3
  {
    match l
    case Positive => 2
    case Neutral => 1
    case Negative => 0
  }

  /** Two texts that clean to the same string are scored alike. */
  lemma LocalSeesCleanText(a: string, b: string, classify: string -> Classification)
    requires CleanText(a) == CleanText(b)
    ensures PredictLocal(a, classify) == PredictLocal(b, classify)
  {
  }

  /** Three probabilities that form a distribution give percentages adding up
      to 100, and the overall label is the most probable class, ties going
      to the higher class index. */
  lemma LocalPercentages(text: string, classify: string -> Classification)
    requires classify(CleanText(text)).Probabilities?
    requires var p := classify(CleanText(text)).p;
      |p| == 3 && p[0] >= 0.0 && p[1] >= 0.0 && p[2] >= 0.0 && p[0] + p[1] + p[2] == 1.0
    ensures var r := PredictLocal(text, classify);
      r.LocalScores? && r.dist.NonNegative() && r.dist.Total() == 100.0
    ensures forall l: Label ::
      PredictLocal(text, classify).dist.Value(l) == 100.0 * classify(CleanText(text)).p[ClassIndex(l)]
    ensures var p := classify(CleanText(text)).p;
      var top := Overall(PredictLocal(text, classify).dist);
      (top == Positive <==> p[2] >= p[1] && p[2] >= p[0])
      && (top == Negative <==> p[0] > p[2] && p[0] > p[1])
  {
    var p := classify(CleanText(text)).p;
    var d := PredictLocal(text, classify).dist;
    assert d == Dist(p[2] * 100.0, p[1] * 100.0, p[0] * 100.0);
  }

  /** The language model's answer to the prompt built around a text: the
      reply's text, or the exception the call raised (including a timeout).
      The prompt's wording is part of the call, so the call is given the
      text itself. */
  datatype LlmReply = Replied(text: string) | CallFailed(reason: string)

  /** What `predict_gemini_sentiment` returns: `{'error': message}` or the
      rescaled `text_sentiment` scores. */
  datatype GeminiResult = GeminiError(message: string) | GeminiScores(dist: Dist)

  const NotInitialized: string := "Gemini model not initialized"
  const CallFailedPrefix: string := "Gemini prediction failed: "
  const ZeroSumMessage: string := "Gemini returned invalid sentiment scores (sum is 0)"
  const FormatMessage: string :=
    "Gemini response format incorrect, expected \"Positive: X%\nNeutral: Y%\nNegative: Z%\""

  /** `predict_gemini_sentiment`. Without a configured model it reports so
      without calling anything; a failed call is reported with its reason;
      otherwise the reply is parsed, and the parser's two errors become
      their messages. Scores only come from a configured model and are
      percentages. */
  function PredictGemini(text: string, ready: bool, generate: string -> LlmReply): (r: GeminiResult)
    ensures !ready ==> r == GeminiError(NotInitialized)
    ensures r.GeminiScores? ==> ready && generate(text).Replied?
    ensures r.GeminiScores? ==> r.dist.Total() == 100.0 && forall l: Label :: 0.0 <= r.dist.Value(l) <= 100.0
    ensures ready && generate(text).CallFailed? ==> r == GeminiError(CallFailedPrefix + generate(text).reason)
    ensures ready && generate(text).Replied? ==>
              (r.GeminiScores? <==> ParseResponse(generate(text).text).Scores?)
              && (r.GeminiScores? ==> r.dist == ParseResponse(generate(text).text).dist)
              && (ParseResponse(generate(text).text).FormatError? ==> r == GeminiError(FormatMessage))
              && (ParseResponse(generate(text).text).ZeroSum? ==> r == GeminiError(ZeroSumMessage))
  {
    if !ready then GeminiError(NotInitialized)
    else
      match generate(text)
      case CallFailed(e) => GeminiError(CallFailedPrefix + e)
      case Replied(reply) =>
        match ParseResponse(reply)
        case FormatError => GeminiError(FormatMessage)
        case ZeroSum => GeminiError(ZeroSumMessage)
        case Scores(d) => GeminiScores(d)
  }

  /** A configured model that answers in the requested format yields that
      answer's numbers as percentages, or the sum-is-0 error when they are
      all 0. */
  lemma GeminiOfFormatReply(text: string, generate: string -> LlmReply, p: nat, n: nat, g: nat)
    requires generate(text) == Replied(FormatResponse(p, n, g))
    ensures p + n + g > 0 ==> PredictGemini(text, true, generate) == GeminiScores(Rescale(Dist(p as real, n as real, g as real)))
    ensures p + n + g == 0 ==> PredictGemini(text, true, generate) == GeminiError(ZeroSumMessage)
  {
    ParsesFormatResponse(p, n, g);
  }
}
