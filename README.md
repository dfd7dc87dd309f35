# Verified model of the resume matcher and its small scoring helpers

This project models, in Dafny, the part of the interview-practice back end
that computes something rather than calling a library:

- **`ATSCalculator`** (`utils/ats_calculator.py`) scores a resume against a
  job description. The model covers:
  - text normalisation (`preprocess`);
  - keyword extraction (`extract_keywords`) with the TF-IDF vectoriser as an
    abstract parameter;
  - the score report (`calculate_ats_score`) with the TF-IDF cosine
    similarity as an abstract parameter;
  - the recommendation rule table (`generate_recommendations`).
- **`analyze_speech`** (`utils/speech_analysis.py`): the rule that maps a
  recording's duration to a score.
- **`YouTubeConverter`** (`utils/youtube_converter.py`): the `MM:SS`
  timestamp formatter and the two-pattern video-id extractor.
- **`analyze_body_language`** (`utils/body_language.py`): the loop that
  counts frames with a detected pose and frames with level shoulders, and the
  final percentage. Frames are abstract observations.

Files and modules:

| file | module | contents |
|---|---|---|
| `wrappers.dfy` | `Wrappers` | `Option` and `Result` |
| `ats_text.dfy` | `AtsText` | `preprocess` with Python's `lower`, `\s`, `split` and `join` written out |
| `ats_keywords.dfy` | `AtsKeywords` | the stable descending sort, as a function and as an in-place insertion sort on an array; `extract_keywords` |
| `ats_score.dfy` | `AtsScore` | the report datatype, the keyword split, both scores, `calculate_ats_score` |
| `ats_recommendations.dfy` | `AtsRecommendations` | the rule table, as a function and as the appending method |
| `speech_analysis.dfy` | `SpeechAnalysis` | duration and duration buckets |
| `youtube_converter.dfy` | `YouTubeConverter` | `format_timestamp` with a parser as its inverse; `extract_video_id` as a leftmost regular-expression search |
| `body_language.dfy` | `BodyLanguage` | the counting loop as a method with invariants, proved against counting functions |

Modelling choices:

- The stop-word set is a parameter. The vectoriser is a function from the
  preprocessed text and the feature cap to weighted terms, or `None` when it
  raises. The similarity is a function to `Result<real, string>`: a
  `Failure` carries the message of the exception that the `try` block
  catches.
- `calculate_ats_score` returns dictionaries of three different shapes: the invalid-input
  result, the full result and the error result. These are the three
  constructors of `AtsScore.AtsReport`.
- Python's `str.lower()` is modelled exactly for every character whose
  lower case contains an ASCII letter: A–Z, U+0130 and U+212A. Python's
  whitespace (`str.isspace`, the `\s` of a `str` pattern, what `split()`
  splits on) is the exact set of 29 code points.
- The regular expressions of `extract_video_id` are modelled as `re.search`
  runs them:
  - the leftmost start position wins;
  - the three literal alternatives are tried in order, falling through when no
    id character follows;
  - the fallback's greedy `.*` cannot cross a newline and gives characters back
    from the end of the line, so the last usable `v=` on that line wins.

## Model

| member | source | states |
|---|---|---|
| AtsText.LowerChar | utils/ats_calculator.py:35 | an upper-case ASCII letter becomes the letter 32 code points higher, its lower case; every character other than A-Z, U+0130 and U+212A stays as it is; no upper-case ASCII letter remains |
| AtsText.Lower | utils/ats_calculator.py:35 | `text.lower()` contains no upper-case ASCII letter |
| AtsText.LowerAppend | utils/ats_calculator.py:35 | lower-casing goes character by character: the lower case of a concatenation is the concatenation of the lower cases |
| AtsText.StripNonLetters | utils/ats_calculator.py:36 | every character kept is an ASCII letter or whitespace and comes from the input |
| AtsText.StripNonLettersSubsequence | utils/ats_calculator.py:36 | the kept characters stay in their order: the result is a subsequence of the input |
| AtsText.StripNonLettersCounts | utils/ats_calculator.py:36 | each ASCII letter and whitespace character is kept as often as it occurs in the input, and every other character is dropped; with StripNonLettersSubsequence this determines the result |
| AtsText.Clean | utils/ats_calculator.py:35-36 | lower-casing then filtering leaves only lower-case letters and whitespace |
| AtsText.CleanAppend | utils/ats_calculator.py:35-36 | cleaning goes character by character: cleaning a concatenation cleans each part |
| AtsText.CleanChar | utils/ats_calculator.py:35-36 | one character cleans to its lower case when it is A-Z, to itself when it is a lower-case letter or whitespace, to "i" for U+0130, to "k" for the Kelvin sign, and to nothing otherwise; with CleanAppend this fixes the whole cleaned text |
| AtsText.Split | utils/ats_calculator.py:37-39 | `str.split()`: every word is non-empty and holds no whitespace; SplitWord and SplitAtSpace fix the words of every text |
| AtsText.SplitWord | utils/ats_calculator.py:37-39 | a non-empty run without whitespace is a single word |
| AtsText.SplitAtSpace | utils/ats_calculator.py:37-39 | any whitespace character separates: the words of `a + [c] + b` are the words of `a` followed by those of `b`, so runs of whitespace of any kind act as one separator |
| AtsText.SplitRunsExample | utils/ats_calculator.py:37-39 | "go \n sql\n" splits into "go" and "sql": a run of mixed whitespace and a trailing newline leave no empty words |
| AtsText.Join | utils/ats_calculator.py:37-42 | `' '.join(words)`; JoinNormalized and SplitJoin state its properties |
| AtsText.FilterTokens | utils/ats_calculator.py:40 | a word is kept iff it is among the input words, is not a stop-word and is longer than two characters; each kept word keeps its number of occurrences |
| AtsText.FilterTokensSubsequence | utils/ats_calculator.py:40 | the comprehension keeps the words in their original order: the kept words are a subsequence of the input words |
| AtsText.SplitJoin | utils/ats_calculator.py:37-42 | splitting the space-joined non-empty words gives the same words back |
| AtsText.JoinNormalized | utils/ats_calculator.py:42 | joining lower-case words with single spaces gives normalised text, non-empty when there is a word |
| AtsText.Preprocess | utils/ats_calculator.py:30-42 | `preprocess`: "" for empty text, else the filtered words of the cleaned text joined by single spaces; PreprocessSpec, PreprocessKeepsOrder and PreprocessIdempotent state its properties |
| AtsText.PreprocessSpec | utils/ats_calculator.py:30-42 | empty text gives ""; the output has only lower-case letters and single inner spaces; its words are exactly the filtered words of the cleaned text; each is longer than 2 and not a stop-word |
| AtsText.PreprocessKeepsOrder | utils/ats_calculator.py:36-42 | the output words are an order-preserving subsequence of the cleaned input's words |
| AtsText.PreprocessIdempotent | utils/ats_calculator.py:30-42 | preprocessing twice equals preprocessing once |
| AtsText.PreprocessExample | utils/ats_calculator.py:30-42 | "Go, and SQL" with the stop-word "and" preprocesses to "sql": capitals lowered, the comma dropped, the two-letter word and the stop-word removed |
| AtsKeywords.InsertByWeightAt | utils/ats_calculator.py:58 | an insertion step places the new pair after the last pair at least as heavy and before the lighter ones |
| AtsKeywords.SortByWeight | utils/ats_calculator.py:58 | the sort by weight with reverse=True keeps the length; SortByWeightSpec states the order it produces |
| AtsKeywords.SortByWeightSpec | utils/ats_calculator.py:58 | the sort by weight with reverse=True gives non-increasing weights, and for every weight the pairs with that weight keep their original order (a stable permutation) |
| AtsKeywords.Positive | utils/ats_calculator.py:60 | the `score > 0` filter keeps only positive weights and never lengthens the list |
| AtsKeywords.PositiveSorted | utils/ats_calculator.py:60 | filtering keeps a non-increasing list non-increasing |
| AtsKeywords.PositiveWithWeight | utils/ats_calculator.py:60 | for a positive weight the filter keeps exactly the pairs with that weight, in order, and drops the rest |
| AtsKeywords.Terms | utils/ats_calculator.py:60 | the projection keeps the terms one for one, in order |
| AtsKeywords.RankedSpec | utils/ats_calculator.py:57-60 | the ranked pairs all have positive weight and non-increasing weights; for each positive weight they are exactly the vectoriser's pairs, in the vectoriser's order |
| AtsKeywords.KeywordsBounds | utils/ats_calculator.py:44-63 | empty preprocessed text or a raising vectoriser gives []; otherwise there are no more keywords than fitted terms, so at most `top_n` when the vectoriser honours `max_features` |
| AtsKeywords.Keywords | utils/ats_calculator.py:44-63 | `extract_keywords`: [] for empty preprocessed text or a raising vectoriser, else the positive-weight terms in stable descending weight order; RankedSpec and KeywordsBounds state its properties |
| AtsKeywords.ShiftLighter | utils/ats_calculator.py:58 | the shift loop moves the pairs lighter than x one place right and returns the insertion point |
| AtsKeywords.InsertInPlace | utils/ats_calculator.py:58 | one in-place insertion step on the array equals the functional insertion, and the tail is unchanged |
| AtsKeywords.SortByWeightInPlace | utils/ats_calculator.py:58 | `keyword_scores.sort(...)` in place leaves the array equal to the stable descending sort of its old contents |
| AtsKeywords.ExtractKeywords | utils/ats_calculator.py:44-63 | the extractor copies the pairs into an array, sorts them in place and collects the positive ones; it returns exactly the specified keyword list |
| AtsScore.Dedup | utils/ats_calculator.py:87 | `set(...)` as a list: no duplicates, same members |
| AtsScore.MatchedKeywords | utils/ats_calculator.py:87-90 | the job/resume intersection: no duplicates; a keyword is in it iff it is among the top job keywords and among the resume keywords |
| AtsScore.MissingKeywords | utils/ats_calculator.py:87-91 | the job-minus-resume difference: no duplicates; a keyword is in it iff it is among the top job keywords and not among the resume keywords |
| AtsScore.KeywordMatchScore | utils/ats_calculator.py:93 | the match percentage times the job-set size is 100 times the matched count; it is 0 for an empty job keyword set; it lies in [0, 100] |
| AtsScore.OverallScore | utils/ats_calculator.py:94 | the 0.6/0.4 weighted score lies in [0, 100] when the similarity is in [0, 1] and the match percentage in [0, 100] |
| AtsScore.KeywordPartition | utils/ats_calculator.py:87-91 | matched and missing are disjoint; matched is exactly the intersection and missing exactly the difference of the first-20 job keyword set and the resume set; their counts are the sizes of those sets |
| AtsScore.KeywordReport | utils/ats_calculator.py:87-109 | the `try` block after the similarity: keyword split, both scores, recommendations and truncated lists; KeywordReportSpec and KeywordReportLists state its properties |
| AtsScore.AtsScore | utils/ats_calculator.py:65-117 | `calculate_ats_score`: the invalid-input report, the error report or the keyword report; InvalidInputReport, FailedReport and ScoredReport state when each comes back |
| AtsScore.InvalidInputReport | utils/ats_calculator.py:67-77 | the zero report with its single guidance line comes back exactly when either preprocessed text is empty |
| AtsScore.FailedReport | utils/ats_calculator.py:79-82 | the error report comes back exactly when both texts are non-empty and the similarity raises; it has score 0, the prefixed message and the single retry line |
| AtsScore.ScoredReport | utils/ats_calculator.py:79-109 | the full report comes back exactly when both texts are non-empty and the similarity succeeds, and it is then the keyword report of the similarity with the job keywords cut to 30 and the resume keywords to 50, so KeywordReportSpec and KeywordReportLists apply to it |
| AtsScore.KeywordReportSpec | utils/ats_calculator.py:84-109 | the full report has similarity·100; a keyword match over the first 20 job keywords, in [0, 100]; an overall score in [0, 100] for similarity in [0, 1]; the ranked keyword lists cut to 15; 1 to 7 recommendations |
| AtsScore.KeywordReportLists | utils/ats_calculator.py:87-105 | `matched_keywords[:10]` lists min(10, n) distinct keywords of the intersection of the job and resume keyword sets, n its size; `missing_keywords[:10]` likewise for the difference |
| AtsScore.ScoreKeywords | utils/ats_calculator.py:87-109 | the straight-line tail of the `try` block computes the specified full report |
| AtsScore.CalculateAtsScore | utils/ats_calculator.py:65-117 | `calculate_ats_score`, running the extractor and recommendation methods, returns exactly the specified report |
| AtsRecommendations.Take | utils/ats_calculator.py:104-108 | Python's `s[:n]`: a prefix of s, of length min(n, len(s)) |
| AtsRecommendations.Recommendations | utils/ats_calculator.py:119-144 | the rule table of `generate_recommendations`; RecommendationsLayout states its layout |
| AtsRecommendations.GenerateRecommendations | utils/ats_calculator.py:119-144 | the list built by successive appends equals the rule-table list |
| AtsRecommendations.RecommendationsLayout | utils/ats_calculator.py:121-144 | the band line is low iff score < 30, moderate iff 30 ≤ score < 60, good iff score ≥ 60; the add-terms line (at most 5 terms) is present iff missing is non-empty; the skills line (at most 3) iff matched is non-empty; the four tips close the list iff score < 70; so there are 1 to 7 entries |
| AtsRecommendations.LowScoreWithoutKeywords | utils/ats_calculator.py:123-142 | score 20 with no keywords gives the low band line and the four tips: five entries |
| SpeechAnalysis.Duration | utils/speech_analysis.py:18-20 | there is no duration (ZeroDivisionError) exactly when the rate is 0; otherwise the duration is non-negative and duration·rate = frames |
| SpeechAnalysis.DurationScore | utils/speech_analysis.py:22-29 | 40 iff duration < 3; 90 iff 3 ≤ duration ≤ 15 (both ends included); 75 iff 15 < duration ≤ 30; 60 iff duration > 30 |
| SpeechAnalysis.SpeechScore | utils/speech_analysis.py:17-29 | the score from the WAV header: none exactly when the rate is 0 (ZeroDivisionError); SpeechScoreByFrames gives the buckets |
| SpeechAnalysis.ScoreIsOneOfFour | utils/speech_analysis.py:22-29 | every duration gets one of 40, 60, 75, 90 |
| SpeechAnalysis.ScoreNotMonotone | utils/speech_analysis.py:22-29 | the mapping is neither increasing nor decreasing in the duration |
| SpeechAnalysis.SpeechScoreByFrames | utils/speech_analysis.py:17-29 | in whole numbers: no score iff rate = 0; 40 iff frames < 3·rate; 90 iff 3·rate ≤ frames ≤ 15·rate; 75 iff 15·rate < frames ≤ 30·rate; 60 iff frames > 30·rate |
| YouTubeConverter.FormatTimestamp | utils/youtube_converter.py:83-87 | `format_timestamp`: zero-padded minutes, a colon, zero-padded seconds; FormatParseRoundTrip and FormatTimestampShape state its properties |
| YouTubeConverter.TimestampFields | utils/youtube_converter.py:85-86 | the seconds field lies in [0, 59]; minutes·60 + seconds = ⌊s⌋; minutes = ⌊s⌋ div 60 and seconds = ⌊s⌋ mod 60; minutes ≥ 0 for s ≥ 0 |
| YouTubeConverter.FormatParseRoundTrip | utils/youtube_converter.py:83-87 | reading the formatted timestamp of s ≥ 0 back gives ⌊s⌋ |
| YouTubeConverter.FormatTimestampShape | utils/youtube_converter.py:87 | below 100 minutes the output is exactly five characters: digit, digit, ':', digit, digit |
| YouTubeConverter.SixtyFiveSeconds | utils/youtube_converter.py:83-87 | 65 seconds are written "01:05" |
| YouTubeConverter.IdRun | utils/youtube_converter.py:13-14 | the greedy `[^&\n?#]+` run consists of id characters and stops at a delimiter or at the end |
| YouTubeConverter.LineEnd | utils/youtube_converter.py:14 | `.` stops at the next newline: the line end is the first newline at or after k, or the end |
| YouTubeConverter.LastV | utils/youtube_converter.py:14 | the backtracking `.*v=` stops at the last `v=` of the range that is followed by an id character; none follows it |
| YouTubeConverter.CaptureStart | utils/youtube_converter.py:13-14 | when a pattern matches at i, its group starts after i and is non-empty; DirectPrefixes states which prefixes the first pattern accepts |
| YouTubeConverter.DirectPrefixes | utils/youtube_converter.py:13 | the first pattern matches at i exactly when `youtube.com/watch?v=`, `youtu.be/` or `youtube.com/embed/` stands at i with an id character after it, and its group then starts right after that prefix |
| YouTubeConverter.MatchAt | utils/youtube_converter.py:13-14 | a captured group is non-empty and made of id characters |
| YouTubeConverter.FirstMatch | utils/youtube_converter.py:16-18 | `re.search` finds the leftmost matching position: it matches there and nowhere before; no result means no match anywhere |
| YouTubeConverter.ExtractVideoId | utils/youtube_converter.py:12-20 | `extract_video_id`: the first pattern's leftmost match, else the fallback's, else ValueError; VideoIdShape, DirectMatchFirst, FallbackMatchSecond and InvalidUrl state its properties |
| YouTubeConverter.VideoIdShape | utils/youtube_converter.py:13-19 | a returned id is non-empty, has none of `&`, `?`, `#`, newline, and stands in the URL |
| YouTubeConverter.DirectMatchFirst | utils/youtube_converter.py:12-19 | wherever the first pattern matches, its leftmost match gives the id |
| YouTubeConverter.FallbackMatchSecond | utils/youtube_converter.py:12-19 | the fallback's leftmost match gives the id when the first pattern matches nowhere |
| YouTubeConverter.InvalidUrl | utils/youtube_converter.py:16-20 | the result is ValueError("Invalid YouTube URL") exactly when neither pattern matches at any position |
| YouTubeConverter.AfterLastVSpec | utils/youtube_converter.py:14 | from the end of `youtube.com/watch?`, the fallback capture starts just after a `v=` on the same line, and no later `v=` on that line is followed by an id character |
| YouTubeConverter.FallbackTakesLastV | utils/youtube_converter.py:14 | the fallback captures after a `v=` on the line of its `youtube.com/watch?`, and no later `v=` on that line is followed by an id character |
| YouTubeConverter.ShortLinkExample | utils/youtube_converter.py:13 | "youtu.be/abc?t=1" gives "abc" |
| YouTubeConverter.WatchLinkExample | utils/youtube_converter.py:13 | "youtube.com/watch?v=ID&list=x" gives "ID" |
| YouTubeConverter.EmbedLinkExample | utils/youtube_converter.py:13 | "youtube.com/embed/XYZ?rel=0" gives "XYZ" |
| YouTubeConverter.LaterParameterExample | utils/youtube_converter.py:14 | "youtube.com/watch?feature=x&v=ID" gives "ID" through the fallback |
| YouTubeConverter.LastVExample | utils/youtube_converter.py:14 | "youtube.com/watch?v=&v=A&v=B" gives "B": the last `v=` wins |
| BodyLanguage.Observed | utils/body_language.py:12-15 | the frames the loop sees are the reads before the first failed read, in order |
| BodyLanguage.PoseFrames | utils/body_language.py:20-21 | `total_frames`: the number of observed frames with pose landmarks, at most the number of observed frames |
| BodyLanguage.LevelFrames | utils/body_language.py:20-26 | the good-posture count never exceeds the count of frames with a pose |
| BodyLanguage.BodyLanguageScore | utils/body_language.py:4-36 | `analyze_body_language`: 50 without pose frames, else the truncated percentage of level-shoulder frames; ScoreRange, PercentExtremes and NoPoseScores50 state its properties |
| BodyLanguage.AnalyzeBodyLanguage | utils/body_language.py:4-36 | the counting loop, with `posture_score ≤ total_frames` kept at every iteration, returns exactly the specified score |
| BodyLanguage.ScoreRange | utils/body_language.py:31-36 | the result lies in [0, 100] |
| BodyLanguage.PercentExtremes | utils/body_language.py:34-36 | the truncated percentage is 100 iff every pose frame is level, and 0 iff fewer than one in a hundred are |
| BodyLanguage.ScoreExtremes | utils/body_language.py:34-36 | with some pose frame the score is 100 iff every pose frame has level shoulders, and 0 iff fewer than one in a hundred do |
| BodyLanguage.NoPoseScores50 | utils/body_language.py:31-32 | a video that does not open, or whose frames show no pose, scores 50 |
| BodyLanguage.StopsAtFailedRead | utils/body_language.py:13-15 | nothing after the first failed read changes the score |
| BodyLanguage.NoLandmarksIgnored | utils/body_language.py:20-21 | a frame without pose landmarks changes neither count, so it never changes the score |

## Left out

- TF-IDF fitting and cosine similarity (sklearn) are foreign floating-point
  numerics. They are the parameters `weigh` and `similarity`. The model does
  not assume weights ≥ 0 or a similarity in [0, 1]; the lemmas that need
  such a range state it as a hypothesis.
- The NLTK stop-word download and loading are I/O. The stop-word set is a
  parameter.
- `round(..., 2)` on the three reported scores is float formatting. The
  model reports the exact values.
- Floating-point arithmetic in general is left out: the scores, the duration
  `frames / float(rate)`, the shoulder difference and the percentage are
  exact reals and integers.
- YouTubeConverter.FormatTimestamp: `format_timestamp` takes `//` and `%` of
  a float. The model floors an exact real. The two can differ for negative
  inputs close to a whole minute: `-1e-20 % 60` rounds to `60.0`, so Python
  prints "-1:60" where the model gives "-1:59".
- BodyLanguage.AnalyzeBodyLanguage: `analyze_body_language` computes
  `int(posture / total * 100)` in floats. This can land one below the exact
  value; for example 29 of 100 gives 28. The model returns the exact
  truncation `100·posture div total`.
- AtsScore.MatchedKeywords, AtsScore.MissingKeywords: `calculate_ats_score` lists a
  Python set, whose order depends on randomised string hashing. The model
  lists the keywords in job-keyword rank order; its properties are stated on
  members and counts, not on order.
- The `None` text inputs that `not text` also rejects are not modelled.
  Texts are strings, and the empty string takes that branch.
- `logging.error` calls are left out.
- Every other part of `utils/youtube_converter.py` is left out: download,
  Whisper transcription, PDF generation and the wrapper that chains them.
  These are network, machine-learning and file I/O.
- The ffmpeg call, the temporary WAV file and the `print` in
  `utils/speech_analysis.py` are left out. The frame count and rate read
  from the WAV header are inputs.
- In `utils/body_language.py`, video decoding and the mediapipe pose
  detector are left out, and so are the `cap.release()` and `pose.close()`
  calls (lines 28-29) and the diagnostic `print` of the percentage (line 35),
  which change nothing in the returned value. Each frame read is an abstract `FrameRead`, carrying
  the two shoulders' heights when a pose is found.
- `main.py`, `chat_server.py`, `pipeline.py`, `webcam_recorder.py`,
  `utils/job_scraper.py`, `utils/transcriber.py`,
  `utils/feedback_generator.py`, `utils/pdf_summarizer.py`,
  `utils/report_generator.py` and the React component are not part of this
  model. They are HTTP routes, Socket.IO handlers, browser automation, LLM
  calls, PDF and webcam I/O and UI code.
