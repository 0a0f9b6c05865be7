# youtube-video-insights — a Dafny model of the analysis core

The `youtube_analyzer` package takes a video's transcript and comments and produces:

- a concise summary of the transcript, and a paragraphed, punctuated copy of it
  (`ContentAnalysis`);
- an overall sentiment score, an effectiveness verdict, the most positive comment and the
  most engaging comment (`SentimentAnalysis`);
- the eleven-character video id taken from a YouTube URL (`extract_video_id`).

This project models the deterministic logic around the machine-learning models:

- `text.dfy` (module `Text`) holds the Python string operations the code relies on:
  `str.split()`, `" ".join`, `str.strip()`, and the whitespace and word-character classes.
- `content_analysis.dfy` (module `ContentAnalysis`) holds:
  - the chunker, a greedy word-packing loop (`SplitIntoChunks`);
  - the sentence trimmer (`TrimToNearestSentence`, specified by `TrimmedText`);
  - the special-character cleaner;
  - the summary pipeline, with its two length gates;
  - the transcript formatter.
- `sentiment_analysis.dfy` (module `SentimentAnalysis`) holds:
  - the average positivity of a batch of predictions;
  - the effectiveness thresholds;
  - the two `max(..., key=...)` selectors.
- `utils.dfy` (module `Utils`) holds the leftmost-match search that
  `re.search(r"(?:v=|\/)([0-9A-Za-z_-]{11}).*", url)` performs.
- `wrappers.dfy` holds `Option`.

The models are not part of the Dafny code. The summarizer, the punctuation-restoration
model, the sentence tokenizer and the sentiment classifier are function parameters
(oracles). Each contract says what the Python code does with whatever those oracles
return. A sentiment pipeline that raises is modelled as the oracle returning `None`.

The chunker is specified by the predicate `ValidChunking`. It says:

- each chunk is its words joined by single spaces;
- the chunks' words, in order, are exactly `text.split()`;
- every chunk of more than one word fits within `max_tokens` characters;
- only the first chunk may be empty, and it is empty exactly when the first word alone
  is longer than `max_tokens`;
- a chunk is closed only when adding the next word would overflow it.

`ChunkingUnique` shows that at most one list of chunks satisfies these, so they describe
the chunker's output exactly.

## Model

| member | source | states |
|---|---|---|
| Text.Split | youtube_analyzer/content_analysis.py:54 | `str.split()`: every piece is a non-empty run of non-whitespace characters; `SplitWordThen`, `SplitSkipsSpace` and `SplitEmptyIffBlank` fix it as the maximal such runs, in order |
| Text.SplitWordThen | youtube_analyzer/content_analysis.py:54 | a word followed by nothing or by whitespace is split off whole as the first piece, and the rest is split on its own |
| Text.SplitSkipsSpace | youtube_analyzer/content_analysis.py:54 | leading whitespace contributes nothing to `str.split()` |
| Text.SplitJoin | youtube_analyzer/content_analysis.py:54-64 | splitting the single-space join of words gives back exactly those words, so a chunk's words can be recovered from the chunk |
| Text.SplitEmptyIffBlank | youtube_analyzer/content_analysis.py:54 | `text.split()` is empty if and only if the text is all whitespace |
| Text.JoinWithLength | youtube_analyzer/content_analysis.py:59-64 | `sep.join(parts)` is empty for no parts; otherwise it starts with the first part and its length is the parts' total length plus one separator per gap (`Text.SplitJoin` is its inverse over words) |
| Text.StripEnd | youtube_analyzer/content_analysis.py:79 | the result is a prefix of the input; what was removed is whitespace; the result is empty or ends in non-whitespace |
| Text.StripStart | youtube_analyzer/content_analysis.py:79 | the result is a suffix of the input; what was removed is whitespace; the result is empty or starts with non-whitespace |
| Text.StripIsTrimmedSlice | youtube_analyzer/content_analysis.py:79 | `str.strip()` returns the slice of the text between a blank prefix and a blank suffix, and that slice neither starts nor ends with whitespace |
| Text.StripDropsTrailingSpace | youtube_analyzer/content_analysis.py:76-79 | stripping a string that ends in the trimmer's added space is no longer than the string without that space |
| ContentAnalysis.CleanSpecialCharacters | youtube_analyzer/content_analysis.py:82-86 | every character left is a word character or whitespace |
| ContentAnalysis.CleanCounts | youtube_analyzer/content_analysis.py:86 | each kept character occurs as often as in the input, and every other character does not occur at all (the result is the input minus the removed characters) |
| ContentAnalysis.CleanAppend | youtube_analyzer/content_analysis.py:86 | cleaning distributes over concatenation |
| ContentAnalysis.CleanUnchangedIff | youtube_analyzer/content_analysis.py:86 | cleaning leaves the text unchanged if and only if it has no special character |
| ContentAnalysis.CleanIdempotent | youtube_analyzer/content_analysis.py:86 | cleaning twice equals cleaning once |
| ContentAnalysis.CleanKeepsWhitespace | youtube_analyzer/content_analysis.py:83-86 | whitespace runs pass through unchanged: the cleaner does not collapse extra whitespace |
| ContentAnalysis.ExtendChunk | youtube_analyzer/content_analysis.py:57-59 | adding a word that keeps the current chunk within the limit preserves the chunker invariant |
| ContentAnalysis.CloseChunk | youtube_analyzer/content_analysis.py:57-61 | closing the current chunk on overflow and starting a new one with the word preserves the chunker invariant |
| ContentAnalysis.FinishGroups | youtube_analyzer/content_analysis.py:63-64 | after the last word, appending the non-empty current chunk gives a valid grouping of all words |
| ContentAnalysis.JoinedGroups | youtube_analyzer/content_analysis.py:60-64 | joining each group of a valid grouping with single spaces gives a valid chunking of the text |
| ContentAnalysis.SplitIntoChunks | youtube_analyzer/content_analysis.py:53-66 | the result is a `ValidChunking` of the text for `max_tokens` (see above) |
| ContentAnalysis.JoinWithOneMore | youtube_analyzer/content_analysis.py:58-59 | appending a word to a non-empty chunk lengthens its join by one space plus the word |
| ContentAnalysis.DropLastWordValid | youtube_analyzer/content_analysis.py:57-64 | every valid grouping is the chunker's step (`AddWord`: extend the last chunk if it still fits, otherwise open a new one) applied to a valid grouping of all the words but the last |
| ContentAnalysis.GroupingUnique | youtube_analyzer/content_analysis.py:53-66 | two valid groupings of the same words are equal |
| ContentAnalysis.ChunkingUnique | youtube_analyzer/content_analysis.py:53-66 | a text has at most one `ValidChunking` for a size, so the contract of `SplitIntoChunks` determines its output completely |
| ContentAnalysis.KeptCount | youtube_analyzer/content_analysis.py:74-78 | the number of sentences the loop keeps: every one before it fits, and the next one does not or there is none |
| ContentAnalysis.TrimmedText | youtube_analyzer/content_analysis.py:68-79 | the trimmed text is never longer than the input, and is empty when there is no sentence or the first one does not fit |
| ContentAnalysis.TrimmedTextKeepsFittingPrefix | youtube_analyzer/content_analysis.py:74-79 | the trimmed text is the stripped concatenation, each followed by a space, of exactly the sentences before the first one that does not fit |
| ContentAnalysis.TrimToNearestSentence | youtube_analyzer/content_analysis.py:68-79 | the loop computes `TrimmedText`: it appends sentences while they fit, stops at the first that does not, then strips |
| ContentAnalysis.CutToSentences | youtube_analyzer/content_analysis.py:23 | cutting to the limit and trimming to sentences gives at most `limit` characters |
| ContentAnalysis.GenerateConciseSummary | youtube_analyzer/content_analysis.py:16-38 | the summarizer receives the text unchanged when it has at most 5000 characters, and otherwise its first 5000 characters trimmed to whole sentences (at most 5000 characters), with lengths 500 and 150; the punctuator receives the cleaned summary, and when that is longer than 3000 characters its first 3000 trimmed to whole sentences; the result is the punctuator's output |
| ContentAnalysis.EmptyTranscriptReachesSummarizer | youtube_analyzer/content_analysis.py:22-26 | an empty text is passed to the summarizer as it is; there is no guard |
| ContentAnalysis.FormatTranscript | youtube_analyzer/content_analysis.py:40-51 | the chunks are a `ValidChunking` for 1024; paragraph i is the punctuator's output for chunk i; the result joins the paragraphs with blank lines; a blank transcript formats to the empty string |
| SentimentAnalysis.Positivity | youtube_analyzer/sentiment_analysis.py:12 | a prediction's positivity: its score for a POSITIVE label and the complement of its score for any other, so it stays in [0, 1] when the score does |
| SentimentAnalysis.TotalPositivityBounds | youtube_analyzer/sentiment_analysis.py:12-13 | when every score lies in [0, 1], the summed positivity lies between 0 and the number of predictions |
| SentimentAnalysis.AnalyzeSentiment | youtube_analyzer/sentiment_analysis.py:9-16 | 0 when the classifier raises or returns no prediction; otherwise the mean positivity (score for POSITIVE, 1 - score otherwise), within [0, 1] when the scores are |
| SentimentAnalysis.EvaluateEffectiveness | youtube_analyzer/sentiment_analysis.py:18-26 | the verdict's rank equals how many of the thresholds 0.3, 0.5 and 0.7 the score strictly exceeds |
| SentimentAnalysis.EffectivenessMonotone | youtube_analyzer/sentiment_analysis.py:18-26 | a higher score never gets a lower verdict |
| SentimentAnalysis.EffectivenessBoundaries | youtube_analyzer/sentiment_analysis.py:19-26 | each threshold itself falls into the lower verdict (the comparisons are strict) |
| SentimentAnalysis.FirstMaxIndex | youtube_analyzer/sentiment_analysis.py:30 | the index `max(..., key=...)` returns: a greatest key, and the first of them |
| SentimentAnalysis.GetMostPositiveComment | youtube_analyzer/sentiment_analysis.py:28-30 | None exactly for no comments (max raises); otherwise the first comment whose raw confidence score is the highest, whatever its label |
| SentimentAnalysis.MostPositiveByPositivity | youtube_analyzer/sentiment_analysis.py:28-30 | corrected selector: the first comment of greatest positivity |
| SentimentAnalysis.RawScorePicksNegativeComment | youtube_analyzer/sentiment_analysis.py:29-30 | a 0.99-confident NEGATIVE comment is chosen over a 0.6 POSITIVE one as written, and not by the corrected selector |
| SentimentAnalysis.GetMostEngagingComment | youtube_analyzer/sentiment_analysis.py:32-33 | None exactly for no comments; otherwise the first comment of greatest length |
| Utils.MarkerLength | youtube_analyzer/utils.py:6 | 2 exactly when `v=` starts at the position, 1 exactly when `/` does, 0 otherwise |
| Utils.MatchesAtAlternation | youtube_analyzer/utils.py:6 | the pattern matches at a position exactly when `v=` or `/` starts there and is followed by eleven characters of `[0-9A-Za-z_-]` |
| Utils.IdAt | youtube_analyzer/utils.py:6-7 | the captured group: eleven characters, each a letter, digit, `_` or `-` |
| Utils.FindMatch | youtube_analyzer/utils.py:6 | the leftmost position at or after `from` where `v=` or `/` is followed by eleven id characters, or None when there is none |
| Utils.ExtractVideoId | youtube_analyzer/utils.py:4-7 | None exactly when no position matches; otherwise the eleven id characters after the leftmost match |
| Utils.MatchesAtPrefix | youtube_analyzer/utils.py:6 | at a position with at least 13 URL characters from it, whether the pattern matches does not change when text is appended (both directions) |
| Utils.MatchesAtExtends | youtube_analyzer/utils.py:6 | a match in a URL is still a match after text is appended |
| Utils.FindMatchIgnoresSuffix | youtube_analyzer/utils.py:6 | the leftmost match found in a URL is still the leftmost after text is appended |
| Utils.ExtractVideoIdIgnoresSuffix | youtube_analyzer/utils.py:6-7 | appending text to a URL that already has an id does not change the extracted id |

## Left out

- The machine-learning models are oracle parameters. Their loading, the `transformers` and
  `deepmultilingualpunctuation` packages, and `config.py` are not part of this model.
- `nltk.sent_tokenize` is an oracle that returns the sentence list.
  `ContentAnalysis.TrimToNearestSentence` takes that list as an input.
- `ContentAnalysis.GenerateConciseSummary`, `ContentAnalysis.FormatTranscript`,
  `SentimentAnalysis.GetMostPositiveComment`: exceptions raised by an oracle are not
  modelled. Only `analyze_sentiment` catches them, and it is modelled with an `Option`
  result from the classifier.
- `SentimentAnalysis.GetMostPositiveComment`: the pipeline's list result is modelled as
  the single prediction that `[0]` selects.
- The character classes are ASCII. Whitespace is the characters `str.split()` and `\s`
  recognise in that range. `\w` is `[A-Za-z0-9_]`. Unicode letters and digits are not
  modelled.
- Scores are `real`, not floating point, so rounding in `sum`/`len` is not modelled.
- `ContentAnalysis.SplitIntoChunks`: `max_tokens` is a natural number.
- Logging of the caught exception in `analyze_sentiment` is left out.
- `app.py` and `youtube_interaction.py` (the UI and the YouTube API client) are not part of
  this model.
- The code and its documentation disagree in several places. The model follows the code:
  - the length gates are 5000 and 3000 characters, although the comments say 3000
    and 1200;
  - the summary is produced by a single summarizer call, with no chunking of the input;
  - `analyze_sentiment` returns a number;
  - `clean_special_characters` does not remove extra whitespace, although its docstring
    says it does.

## Findings

| source | as written | input that shows it | evidently intended | confidence | as-written member | corrected member |
|---|---|---|---|---|---|---|
| youtube_analyzer/sentiment_analysis.py:29-30 | ranks comments by the classifier's raw confidence score, whatever the label | comments "great video" (POSITIVE, 0.6) and "awful" (NEGATIVE, 0.99): "awful" is returned | rank by positivity (score for POSITIVE, 1 - score otherwise), as `analyze_sentiment` does | not executed | SentimentAnalysis.RawScorePicksNegativeComment | SentimentAnalysis.MostPositiveByPositivity |
