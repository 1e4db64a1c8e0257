# Sentiment analyzer backend, modelled in Dafny

This project models the Flask backend of a Twitter sentiment analyzer,
`backend/app.py`. Two endpoints take a request body:

- `POST /analyze` takes a tweet URL. It extracts the tweet id and fetches the tweet.
- `POST /analyze-text` takes a text.

Each endpoint scores the text twice:

- by a local classifier, applied to a normalised copy of the text;
- by a language model (Gemini), whose free-text reply is parsed into three percentages.

Each endpoint then answers with both score sets and an overall label for
each. The model covers every step between the request body and the
response:

- **Chars**: ASCII versions of Python's `\s`, `\w` and `\d`, and `lower()`.
- **Strings**: the `str` builtins the backend uses, namely `startswith`, `strip()`, `lower()` and `split('\n')`.
- **Normalizer**: `clean_text`. Its two `re.sub` deletion passes are modelled as a left-to-right scan that deletes each match. The third pass removes punctuation. Then comes `lower().strip()`.
- **Numbers**: the number group `\d+\.?\d*` and Python's `float` of it, as an exact rational. Also the decimal spelling of a natural number, which fills the placeholders of the reply format `Positive: X%` the prompt asks for.
- **Sentiment**: the three-label score dictionary; the rescaling `v / total * 100`; and the overall label chosen by `max(sentiments, key=sentiments.get)`, which is the first maximal key in the order Positive, Neutral, Negative.
- **ResponseParser**: the parse-and-validate block of `predict_gemini_sentiment`. This covers the stripped lines, the case-sensitive prefix dispatch, `re.search` under IGNORECASE, "the last reading wins", the two error results and the rescaling.
- **TweetId**: `extract_tweet_id`, i.e. `re.search(r'status/(\d+)', url)`.
- **Scorers**: `predict_local_sentiment` and `predict_gemini_sentiment`. The classifier and the language-model call are function parameters.
- **Endpoints**: both handlers as pure functions. Their inputs are:
  - the decoded JSON body;
  - whether the Twitter client exists;
  - the tweet lookup;
  - the two scorers.

  Their result is a `Response`, which is one of:
  - an error status with its message;
  - an unexpected exception, which the handlers turn into 500;
  - the successful analysis.

## Behaviour worth knowing

- **Ties between labels.** `sentiments` is built in the order Positive, Neutral, Negative, and `max` keeps the first maximal key. So a tie goes to Positive, then to Neutral. `Sentiment.Overall` states this.
- **The label prefix.** A line is dispatched by `line.startswith('Positive:')`, which is case-sensitive. Only the number search that follows uses IGNORECASE. So a line such as `positive: 50` is ignored. `ResponseParser.LowercaseLabelIgnored` states this.
- **Upper-case URLs.** The URL pass of `clean_text` is case-sensitive and runs before lower-casing. So `HTTP://HOST` is not deleted. Punctuation removal then glues it into `httphost`, which again matches the URL pattern. `Normalizer.UpperCaseUrlSurvives` states this.

## Model

| member | source | states |
|---|---|---|
| Strings.Strip | backend/app.py:66 | `strip()` cuts exactly the leading and trailing whitespace: the result is a contiguous slice of the input, everything cut away is whitespace, and the result neither starts nor ends with whitespace |
| Strings.StripEmptyIffBlank | backend/app.py:165 | `not s.strip()` holds exactly when every character of `s` is whitespace |
| Strings.Lower | backend/app.py:66 | `lower()` keeps the length and lower-cases each character |
| Strings.LowerIdempotent | backend/app.py:66 | lower-casing twice is lower-casing once, and a string without upper-case letters is left as it is |
| Strings.Split | backend/app.py:109 | `split('\n')` yields at least one part, no part contains the separator, and joining the parts with the separator restores the input |
| Strings.SplitJoin | backend/app.py:109 | splitting a join of separator-free parts gives back exactly those parts |
| Normalizer.MatchLen | backend/app.py:63-64 | an anchored match of `http\S+\|www\S+\|https\S+` or `@\w+\|\#\w+` exists exactly when a marker is followed by a run character, and it covers the first character and then the whole run of `\S` (or `\w`) characters after it |
| Normalizer.Substitute | backend/app.py:63-64 | `re.sub(pattern, '', s)` never lengthens the text; which characters it keeps and which it deletes is stated by `KeepsClearPrefix`, `SubstituteDeletesMatch`, `SubstituteUnmatched` and `SubstituteLeavesNoMatch` |
| Normalizer.SubstituteDeletesMatch | backend/app.py:63-64 | `re.sub` keeps the text before the leftmost match, deletes that whole match, and resumes the scan right after it |
| Normalizer.SubstituteUnmatched | backend/app.py:63-64 | `re.sub` changes nothing in a text where no match starts |
| Normalizer.KeepsClearPrefix | backend/app.py:63-64 | `re.sub` keeps every character before the first position where a match starts |
| Normalizer.SubstituteLeavesNoMatch | backend/app.py:63-64 | after `re.sub` deletes the URLs (or the handles), none is left: a deletion never glues two pieces into a new match |
| Normalizer.KeepWordsAndSpaces | backend/app.py:65 | after `re.sub(r'[^\w\s]', '', s)` only word characters and whitespace remain, and a string made only of them is left unchanged |
| Normalizer.KeepWordsAndSpacesCounts | backend/app.py:65 | the punctuation pass deletes exactly the characters outside `\w` and `\s`, and every other character keeps its number of occurrences |
| Normalizer.CleanText | backend/app.py:62-66 | the output has only lower-case word characters and whitespace (so no `@`, `#` or punctuation) and no leading or trailing whitespace; what it deletes is stated by `CleanTextDeletesMatch` |
| Normalizer.CleanTextKeepsNormal | backend/app.py:62-66 | a text already made of lower-case words and inner whitespace, with no URL run in it, comes out of `clean_text` unchanged |
| Normalizer.CleanTextDeletesMatch | backend/app.py:62-66 | a whole URL, mention or hashtag standing as its own word between two normal-form texts is deleted and only the two spaces around it remain. Between two non-empty texts the result is exactly `a + "  " + b`; otherwise the outer spaces are stripped |
| Normalizer.SubstituteAcrossSpace | backend/app.py:63-64 | neither pattern matches across a space, so `re.sub` works on each side of a space separately and keeps the space |
| Normalizer.PassAroundWord | backend/app.py:63-64 | between two texts where no match starts, `re.sub` changes only the word in the middle |
| Normalizer.HandlePass | backend/app.py:64 | the handle pass deletes a whole `@` or `#` followed by word characters, and leaves a bare `@` or `#` alone |
| Normalizer.WholeMatchLeavesMarks | backend/app.py:63-64 | after the URL and handle passes, a whole URL or handle leaves at most punctuation: no word character and no whitespace |
| Normalizer.UpperCaseUrlSurvives | backend/app.py:63-66 | `HTTP://HOST` with an upper-case host is cleaned to `http` plus the lower-cased host, and that output still holds a match of the URL pattern |
| Numbers.NumberAt | backend/app.py:113-115 | `\d+\.?\d*` matches at the start of a text exactly when it starts with a digit, and the value it reads is never negative |
| Numbers.DigitsValue | backend/app.py:115 | a digit string of length `k` is worth less than `10^k` |
| Numbers.DigitsValueAppend | backend/app.py:115 | the digits of `a` followed by those of `b` are worth `a` shifted left by as many places as `b` has digits, plus `b` |
| Numbers.NumberOfWhole | backend/app.py:113-115 | a digit string followed by neither a digit nor a point is read as that whole number |
| Numbers.NumberOfDecimal | backend/app.py:113-115 | digits, a point and more digits are read as the decimal fraction they spell |
| Numbers.DecimalValue | backend/app.py:115 | `float(whole.frac)` is the digit string `whole + frac` read as a whole number and divided by 10 to the power of the number of `frac` digits, and it lies in `[whole, whole + 1)` |
| Numbers.ShowNat | backend/app.py:97 | the decimal spelling of the placeholders of the requested reply format is a non-empty digit string with no leading zero whose value is `n` |
| Numbers.ShowDigitsValue | backend/app.py:97 | the other round trip: printing the value of a digit string without leading zeros gives that string back |
| Sentiment.Rescale | backend/app.py:127-131 | for a positive total, each rescaled value times the total equals the raw value times 100; the three add up to exactly 100; and non-negative scores land in [0, 100] |
| Sentiment.RescaleKeepsRatios | backend/app.py:129-131 | rescaling keeps the ratio between any two labels |
| Sentiment.RescaleIdempotent | backend/app.py:129-131 | rescaling percentages changes nothing, so rescaling twice equals rescaling once |
| Sentiment.FirstMax | backend/app.py:198 | the scan inside `max` ends at a key no other key exceeds, and every earlier key is strictly smaller |
| Sentiment.Overall | backend/app.py:193-198 | the overall label has the largest score; Positive wins exactly when it is not below the other two, Neutral exactly when it beats Positive and is not below Negative, and Negative exactly when it beats both |
| Sentiment.OverallIsMaximal | backend/app.py:193-198 | no label scores higher than the overall one |
| Sentiment.OverallOfRescaled | backend/app.py:203-208 | the overall label of the rescaled Gemini percentages is the overall label of the raw scores |
| ResponseParser.MatchAt | backend/app.py:113 | `<Label>:\s*(\d+\.?\d*)` matches at a position exactly when the keyword is there (ignoring case) and the first character after it and the whitespace that follows is a digit; the value read is never negative |
| ResponseParser.KeywordThenSpace | backend/app.py:113 | at any position of a line, after the keyword spelled in any mix of cases and any whitespace, the pattern reads exactly what `\d+\.?\d*` reads at the first digit |
| ResponseParser.ReadsDecimalAfterKeyword | backend/app.py:113-115 | at any position of a line, after the keyword spelled in any mix of cases and any whitespace, `digits.digits` not followed by a further digit is read as `float` of that decimal: whole part plus fraction over a power of ten |
| ResponseParser.ReadsWholeAfterKeyword | backend/app.py:113-115 | at any position of a line, after the keyword spelled in any mix of cases and any whitespace, digits followed by neither a digit nor a point are read as that whole number |
| ResponseParser.SearchFrom | backend/app.py:113 | the position `re.search` reports is one where the pattern matches |
| ResponseParser.NoEarlierMatch | backend/app.py:113 | `re.search` finds the leftmost match: the pattern matches at no earlier position, and at no position at all when nothing is found |
| ResponseParser.SearchIsLeftmost | backend/app.py:113-123 | `match.group(1)` of `re.search` is absent exactly when the pattern matches nowhere, and otherwise it is the value of a match before which the pattern matches nowhere |
| ResponseParser.LineReading | backend/app.py:111-123 | a reading comes only from a stripped line that starts with its label's keyword exactly, and its value is never negative |
| ResponseParser.LowercaseLabelIgnored | backend/app.py:112-120 | a line whose first non-blank character is not an upper-case letter, such as `positive: 50`, gives no reading |
| ResponseParser.DispatchesOn | backend/app.py:112-123 | a line that starts with a label's keyword is searched for that label |
| ResponseParser.KeywordsExclusive | backend/app.py:112-120 | no line starts with two different keywords, so the `if`/`elif` chain picks at most one label |
| ResponseParser.LineReadings | backend/app.py:109-123 | the loop reads the stripped reply line by line: one reading per line, in order, each the reading of that line, and none negative |
| ResponseParser.Collect | backend/app.py:110-123 | the line loop never collects a negative value |
| ResponseParser.ResponseLines | backend/app.py:109 | `response.text.strip().split('\n')` gives at least one line, none containing a line break, and joining them with line breaks gives back the stripped reply |
| ResponseParser.Readings | backend/app.py:108-123 | the values the loop leaves in `positive`, `neutral` and `negative` are never negative |
| ResponseParser.CollectIsLast | backend/app.py:110-123 | after the loop each variable holds the last reading of its label, or its starting value when no line reads that label |
| ResponseParser.ReadingsAreLast | backend/app.py:108-123 | starting from `None`, each of `positive`, `neutral` and `negative` ends at the last reading of its label in the reply |
| ResponseParser.Validate | backend/app.py:126-140 | a missing value is exactly the format error; for non-negative values the sum-is-0 error happens exactly when all three are 0; otherwise the scores add up to 100 and lie in [0, 100] |
| ResponseParser.ValidateAgrees | backend/app.py:126-140 | validation is a format error exactly when some value is missing and the sum-is-0 error exactly when all are 0; otherwise it is the rescaling of the three values |
| ResponseParser.ParseResponse | backend/app.py:105-140 | any scores the parser returns add up to 100 and each lies in [0, 100] |
| ResponseParser.ParseResponseMeaning | backend/app.py:105-140 | the parse result, in terms of the last reading of each label, is one of: a format error exactly when some label has none; the sum-is-0 error exactly when all three are 0; otherwise the rescaling of the three last readings, so never a partial distribution |
| ResponseParser.ReadsFormatLine | backend/app.py:110-123 | a line such as `Positive: 80%` is read back as its label and number |
| ResponseParser.FormatResponseLines | backend/app.py:109 | the reply `Positive: X%\nNeutral: Y%\nNegative: Z%` is split into its three lines |
| ResponseParser.ParsesFormatResponse | backend/app.py:105-140 | a reply in the format the prompt asks for is parsed to its three numbers rescaled, or to the sum-is-0 error when all three are 0 |
| TweetId.FindStatus | backend/app.py:149 | the search for `status/` followed by a digit returns the leftmost such position, or none when there is none |
| TweetId.ExtractTweetId | backend/app.py:148-152 | there is no id exactly when no `status/` is followed by a digit; an id is a non-empty digit string |
| TweetId.ExtractsDigits | backend/app.py:148-152 | the id is the whole digit run after the first `status/` that a digit follows |
| Scorers.PredictLocal | backend/app.py:69-86 | the local scorer succeeds exactly when the classifier returns at least three probabilities for the cleaned text, and then each label's score is 100 times the probability of its class: positive class 2, neutral class 1, negative class 0 |
| Scorers.LocalSeesCleanText | backend/app.py:71 | two texts with the same cleaned form are scored alike |
| Scorers.LocalPercentages | backend/app.py:77-82 | probabilities 2, 1 and 0 become the positive, neutral and negative percentages (each 100 times its probability), which add up to 100; the overall label is the most probable class, and ties go to the higher class index |
| Scorers.PredictGemini | backend/app.py:89-145 | without a model the result is the not-initialized error; a failed call gives `Gemini prediction failed: ` and its reason; a reply gives scores exactly when the parser does, with the parser's scores, and the parser's format and sum-is-0 errors become their messages |
| Scorers.GeminiOfFormatReply | backend/app.py:89-145 | a reply in the requested format yields its numbers rescaled, or the sum-is-0 error when all are 0 |
| Endpoints.ReadField | backend/app.py:160-166 | a field is given exactly when the body is a JSON object whose value under the key is a non-blank string, and blank exactly when that string is blank. It is missing exactly when the body is falsy, an object without the key, a string not containing the key, or a list without it. An undecodable body raises |
| Endpoints.FetchTweet | backend/app.py:156-184 | 503 comes before the body is read. A missing or blank URL and a URL without an id answer 400 with their own messages. A lookup without data answers 404, a rate limit 429, and another tweepy error 500 with its message. A body or lookup that raises crashes. The handler goes on exactly when the lookup returns the tweet, and then only with that tweet's text |
| Endpoints.Aggregate | backend/app.py:186-216 | the answer succeeds exactly when the local scorer does, and crashes with the local failure otherwise. It carries the text and both scorers' results. Each overall label is `Overall` of its scores, the first maximal label; the Gemini label is absent exactly when Gemini reported an error |
| Endpoints.AnalyzeTweet | backend/app.py:154-220 | `/analyze` answers 200, 400, 404, 429, 500 or 503. Every early answer of the fetching part is passed on unchanged. It succeeds exactly when the tweet is fetched and the local scorer succeeds on its text |
| Endpoints.AnalyzeText | backend/app.py:222-266 | `/analyze-text` answers 200, 400 or 500. A missing `tweetText` and a blank one answer 400 with their own messages, and a body that raises crashes. It succeeds exactly when a non-blank text is given and the local scorer succeeds on it |
| Endpoints.TweetGeminiIsolated | backend/app.py:187-216 | a different Gemini scorer changes neither the status of an `/analyze` answer nor, on success, its text, local scores or local label |
| Endpoints.TextGeminiIsolated | backend/app.py:233-262 | the same for `/analyze-text` |
| Endpoints.FailuresIgnoreScorers | backend/app.py:156-184 | every error answer of `/analyze` with a status and message is decided before any scorer runs |
| Endpoints.TweetLikeText | backend/app.py:186-216 | once a non-blank tweet is fetched, `/analyze` answers exactly as `/analyze-text` does for a body holding that text |
| Endpoints.TwitterCheckedFirst | backend/app.py:156-157 | without a Twitter client `/analyze` answers 503 whatever the body, even one that cannot be decoded |
| Endpoints.RateLimitAnswers | backend/app.py:179-181 | a rate-limited lookup answers 429 with the advice to use text input |
| Endpoints.WiredText | backend/app.py:222-262 | in the running application `/analyze-text` on a non-blank text succeeds exactly when the classifier yields three or more probabilities. Without a Gemini model, a successful answer carries the not-initialized error and no Gemini label |

## Left out

- The vectorizer, SVM and softmax (backend/app.py:72-77) are left out. They are floating-point numerics inside scikit-learn, so the classifier is a function parameter returning class probabilities or an error.
- `round(x, 2)` on binary floats (backend/app.py:79-81, 133-135) is left out. Scores are exact reals, and the overall labels are taken from the unrounded values. A tie created only by rounding is therefore not modelled.
- Float overflow and binary rounding in `float(...)` and in the rescaling are left out, for the same reason.
- The Gemini call (backend/app.py:95-102) is not modelled. This covers the prompt text, the 10-second timeout and the remote model. The call is a function parameter from the text to a reply or an exception.
- The tweepy client (backend/app.py:47-59, 175-184) is not modelled. This covers its configuration, `wait_on_rate_limit` and the network. The lookup is a function parameter with five outcomes: no data, rate limit, another tweepy error, any other exception, or the text.
- Flask routing, CORS, JSON serialisation of the answer, environment loading, model loading from disk and logging are plumbing, so they are not modelled. A body Flask cannot decode is one opaque `Undecodable` case.
- The text of Python exceptions is left out. Examples are `str(e)` in `Unexpected error: ...` and `Gemini prediction failed: ...`. A crash is recorded by the kind of fault, and a failed call by an opaque reason string.
- Unicode character classes are left out: `\w`, `\s`, `\d`, `str.strip`, `str.lower` and IGNORECASE all use their ASCII behaviour. `\s` and `strip()` agree on ASCII, including `\x1c`-`\x1f`.
- Python's `in` on a JSON object with non-string keys is not modelled, because JSON object keys are always strings.
- The `https\S+` alternative of the URL pattern is listed, but it never decides a match. Wherever it matches, `http\S+` matches first with the same extent.
- `frontend/src/App.js` is the React user interface and is not part of this model.
- ResponseParser.SearchFrom: its contract states only that the reported position matches. Leftmostness is stated separately by `ResponseParser.NoEarlierMatch` and `ResponseParser.SearchIsLeftmost`.
- Sentiment.Overall is stated on exact reals, not on the rounded floats the handlers compare. See `round` above.
- Normalizer.CleanTextDeletesMatch: it states the deletion only for a URL or handle that stands as its own word between two normal-form texts. For a URL or handle glued to other text, only the single pass is stated, by `SubstituteDeletesMatch` and `SubstituteLeavesNoMatch`.
