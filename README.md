# LLM review sentiment: a Dafny model

`llm_sentiment.py` classifies product reviews by asking a local language-model
server for a one-word sentiment. This project models the three pieces of logic
in that script that do not depend on I/O, and proves their properties:

- **the label normaliser** (`LabelParsing`, built on `AsciiText`). The server's
  free-form reply is stripped and title-cased. An exact `Positive`, `Negative`
  or `Neutral` is accepted. Otherwise the first of the three found as a
  substring, searched in that order, is returned. Otherwise the result is
  `Error: Parse Failed`. `AsciiText` models Python's `str.strip()`,
  `str.title()` and `sub in s` on ASCII text. Its `Upper` and `Lower` are not
  used by the script: they only spell the replies that `UpperCaseLabel` and
  `LowerCaseLabel` are about.
- **the bounded retry loop of `get_llm_sentiment`** (`SentimentClient`).
  `GetLlmSentiment` is the imperative loop. It returns the result, the number
  of requests sent, and the argument of every `time.sleep` in order. It is
  proved equal to the recursive specification `Classify`, and the lemmas
  state what `Classify` does. The network is an oracle: `transport(k)` is the
  outcome of the request of iteration `k`. The outcome is either a failure
  (any `RequestException`) or a decoded JSON object, of which only the
  string-valued fields are kept.
- **the batch driver** (`BatchDriver`). It checks the CSV header for the two
  required columns. It then classifies every row in order and appends one
  result record per row. The table arrives as a header set and a sequence of
  rows, each a map from column name to cell. The classifier is a parameter:
  `classify(i, text)` is what `get_llm_sentiment(text)` returns for row `i`.

## Model

| member | source | states |
|---|---|---|
| AsciiText.Strip | llm_sentiment.py:56 | the stripped text neither starts nor ends with white space |
| AsciiText.StripBounds | llm_sentiment.py:56 | `strip()` returns a slice `s[i..j]` of its input, and everything outside the slice is white space |
| AsciiText.StripPadded | llm_sentiment.py:56 | white space of any length around a text without white space at its ends is removed exactly |
| AsciiText.StripUnpadded | llm_sentiment.py:56 | a text without white space at its ends is left unchanged by `strip()` |
| AsciiText.StripIdempotent | llm_sentiment.py:56 | stripping twice is stripping once |
| AsciiText.TrimStartDrops | llm_sentiment.py:56 | the leading pass of `strip()` keeps a suffix and drops only white space |
| AsciiText.TrimEndDrops | llm_sentiment.py:56 | the trailing pass of `strip()` keeps a prefix and drops only white space |
| AsciiText.IsSpace | llm_sentiment.py:56 | the characters `strip()` removes: space, `\t`, `\n`, `\x0b`, `\x0c`, `\r` and `\x1c`-`\x1f` |
| AsciiText.Title | llm_sentiment.py:60 | `str.title()` as one left-to-right pass; the result has the length of the input |
| AsciiText.TitleAt | llm_sentiment.py:60 | `title()` upper-cases a letter that is first or follows a non-letter, lower-cases any other letter, and keeps every other character |
| AsciiText.TitleIdempotent | llm_sentiment.py:60 | title-casing a title-cased text changes nothing |
| AsciiText.Contains | llm_sentiment.py:69-71 | the substring test `sub in s` is true exactly when `sub` occurs at some position of `s` |
| LabelParsing.MatchLabel | llm_sentiment.py:62-73 | the matching step: an exact label, else the first of Positive, Negative, Neutral that occurs, else `Error: Parse Failed`; it only returns one of these four |
| LabelParsing.NormalizeLabel | llm_sentiment.py:56-73 | the normaliser only ever returns one of the three labels or `Error: Parse Failed` |
| LabelParsing.MatchFirstWins | llm_sentiment.py:62-73 | on the stripped, title-cased text, each label is returned exactly when it occurs and no label searched before it occurs; the parse fails exactly when none occurs |
| LabelParsing.FirstMatchWins | llm_sentiment.py:56-73 | the same first-match-wins rule for a raw reply, in terms of its stripped, title-cased text |
| LabelParsing.CaseInsensitiveLabel | llm_sentiment.py:56-64 | a reply that, once stripped, spells a label in any mix of upper and lower case is returned as that label |
| LabelParsing.UpperCaseLabel | llm_sentiment.py:59-64 | a label written all in upper case (`NEGATIVE`) is returned as the label |
| LabelParsing.LowerCaseLabel | llm_sentiment.py:59-64 | a label written all in lower case is returned as the label |
| LabelParsing.PaddedReply | llm_sentiment.py:56-64 | `" positive\n"` is returned as `Positive` |
| LabelParsing.KeywordFound | llm_sentiment.py:60-71 | a label spelled in any case at the start of a word of the stripped reply occurs in the title-cased text, so the reply does not fail to parse |
| LabelParsing.TitleOfCaseVariant | llm_sentiment.py:60 | a case variant of a title-cased word is title-cased back into that word |
| LabelParsing.TitleFindsWord | llm_sentiment.py:60-71 | a title-cased word spelled in any case at the start of a word appears in the title-cased text at that position |
| LabelParsing.ShortReplyFails | llm_sentiment.py:69-73 | a reply shorter than every label once stripped fails to parse |
| LabelParsing.LabelOccurs | llm_sentiment.py:62-71 | a reply whose title-cased text contains a label does not fail to parse, and one containing `Positive` is `Positive` |
| LabelParsing.KeywordInSentence | llm_sentiment.py:69 | `"I think this is Positive overall"` is `Positive` |
| LabelParsing.FirstLabelWinsExample | llm_sentiment.py:69-70 | `"not positive, negative"` is `Positive`, because Positive is searched first |
| LabelParsing.HyphenatedLabelExample | llm_sentiment.py:60-69 | `"non-positive"` is `Positive`, because title-casing restarts after the hyphen |
| LabelParsing.NoLabelExample | llm_sentiment.py:72-73 | `"Meh"` is `Error: Parse Failed` |
| LabelParsing.EmptyReplyExample | llm_sentiment.py:56-73 | the empty reply is `Error: Parse Failed` |
| SentimentClient.ResponseText | llm_sentiment.py:56 | `response_data.get('response', '')`: the `response` field, or the empty text when it is missing |
| SentimentClient.RunFrom | llm_sentiment.py:44-84 | the loop from iteration `attempt` on, as a recursive function: a reply ends it with its parsed label; a failure pauses and retries, or gives `Error: API Failed` on the last iteration; a loop that never starts gives `Error: Max Retries` |
| SentimentClient.Classify | llm_sentiment.py:44-84 | a whole call of `get_llm_sentiment`: RunFrom from iteration 0 with NormalizeLabel as the parser |
| SentimentClient.GetLlmSentiment | llm_sentiment.py:44-84 | the loop returns the sentiment, request count and pauses that `Classify` specifies |
| SentimentClient.ClassifySentiment | llm_sentiment.py:24-84 | every call returns one of the six values `Positive`, `Negative`, `Neutral`, `Error: Parse Failed`, `Error: API Failed`, `Error: Max Retries` |
| SentimentClient.NoRetries | llm_sentiment.py:44-84 | with `retries <= 0` no request is sent, nothing sleeps and `Error: Max Retries` is returned; that value is returned in no other case |
| SentimentClient.AllRequestsFail | llm_sentiment.py:75-82 | when every request fails, `Error: API Failed` comes after exactly `retries` requests and `retries - 1` pauses of `delay` each |
| SentimentClient.FirstReplyStops | llm_sentiment.py:44-79 | if request `k` (from 0) is the first to get through, exactly `k + 1` requests and `k` pauses happen and the reply's label is returned, a parse failure included, without a retry |
| SentimentClient.MissingFieldStops | llm_sentiment.py:56-73 | a reply without a `response` field is `Error: Parse Failed`, returned at once |
| SentimentClient.ClassifyShape | llm_sentiment.py:44-82 | a request is sent exactly when `retries > 0`, at most `retries` of them, a pause only between two requests and never after the last, each pause of `delay` seconds |
| SentimentClient.NeutralServer | llm_sentiment.py:24-64 | with the default arguments, a server answering `Neutral` at once gives one request, no pause and `Neutral` |
| BatchDriver.ProcessReviews | llm_sentiment.py:95-110 | a missing required column aborts before any classification; otherwise the results are one record per row, in input order, each with the row's cells and its classification; a row without a required cell aborts the run at that row |

## Left out

- The HTTP request (`requests.post`, `raise_for_status`, `response.json()`) and its timeout are not modelled. Each request is an outcome from the transport oracle.
- A reply whose body is not valid JSON is modelled only for newer versions of `requests`. There `response.json()` raises a `RequestException`, and the oracle reports `Failed`. Older versions raise a plain `json.JSONDecodeError`, which is a `ValueError`. It escapes the `try`, the handler at line 115 catches it, and the run exits. That case is not modelled.
- A JSON body that is not an object, or a `response` field that is not a string, raises `AttributeError` or `TypeError` at lines 55-56. This is not modelled: only string-valued fields reach the model.
- `time.sleep` is not modelled as time. Its argument is recorded in the `sleeps` log.
- GetLlmSentiment: a negative `delay` is not modelled. For it, `time.sleep` at line 79 raises `ValueError`, which is not a `RequestException`. The error escapes `get_llm_sentiment`, the handler at line 115 catches it, and the run exits. The model instead records the negative pause and goes on. The same gap applies to RunFrom, Classify, ClassifySentiment, AllRequestsFail, FirstReplyStops and ClassifyShape. The script's only call, at line 104, uses the default delay of 5.
- All `print` logging is not modelled, including the 100-character truncation at line 102.
- Rendering the prompt with `str.format` (lines 36-41) is not modelled. The prompt only feeds the oracle.
- CSV reading and writing, the output step (lines 123 onwards) and `exit()` are not modelled. An abort ends the run with no output.
- A file with no header row is not modelled separately. There `reader.fieldnames` is `None`, and the test at line 95 raises `TypeError`, which the handler at line 118 catches. It is treated like a missing column.
- BatchDriver.ProcessReviews: a row lacking a required cell aborts at that row (a `KeyError` caught at line 118). `csv.DictReader` itself never produces such a row, because it fills short rows with `None`. A `None` cell is not modelled.
- BatchDriver.ProcessReviews takes the classifier as a parameter instead of calling `GetLlmSentiment`. Each call may answer differently, as the network may.
- `str.strip` and `str.title` are modelled on ASCII only. Any other character is treated as neither white space nor cased.
- The first-match-wins order is the order of the checks at lines 69-71, kept as written. `FirstLabelWinsExample` and `HyphenatedLabelExample` show replies that mention a negation and still come out `Positive`.
