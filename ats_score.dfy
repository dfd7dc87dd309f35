/**
 * The resume/job-description score (`ATSCalculator.calculate_ats_score`).
 * The joint TF-IDF fit and cosine similarity of the two preprocessed texts
 * are an abstract parameter returning the raw similarity or the message of
 * the exception raised; keyword extraction uses the abstract vectoriser of
 * AtsKeywords. The result is a typed report with one constructor per shape
 * of dictionary `calculate_ats_score` returns.
 */
module AtsScore {
  import opened Wrappers
  import opened AtsText
  import opened AtsKeywords
  import opened AtsRecommendations

  const TopJobKeywords: nat := 30
  const TopResumeKeywords: nat := 50
  const KeywordsToMatch: nat := 20

  const InvalidInputMessage := "Please provide valid resume and job description text."
  const RetryMessage := "Please check your input text and try again."
  const ErrorPrefix := "Error calculating ATS score: "

  /** The cosine similarity of the two texts' joint TF-IDF vectors, or the message of the exception raised. */
  type Similarity = (string, string) -> Result<real, string>

  datatype AtsReport =
    | InvalidInput(overallScore: real, keywordMatch: real, missingKeywords: seq<string>,
                   matchedKeywords: seq<string>, recommendations: seq<string>)
    | Scored(overallScore: real, similarityScore: real, keywordMatch: real,
             matchedKeywords: seq<string>, missingKeywords: seq<string>, recommendations: seq<string>,
             jobKeywords: seq<string>, resumeKeywords: seq<string>)
    | Failed(overallScore: real, error: string, recommendations: seq<string>)

  function SetOf(s: seq<string>): set<string> {
    set k | k in s
  }

  predicate NoDuplicates(s: seq<string>) {
    forall i, j :: 0 <= i < j < |s| ==> s[i] != s[j]
  }

  /** The distinct elements of s, first occurrences first. */
  function Dedup(s: seq<string>): (r: seq<string>)
    ensures NoDuplicates(r)
    ensures forall k :: k in r <==> k in s
  {
    if s == [] then []
    else
      var front := Dedup(s[..|s| - 1]);
      var last := s[|s| - 1];
      assert forall k :: k in s <==> k in s[..|s| - 1] || k == last by {
        assert s == s[..|s| - 1] + [last];
      }
      if last in front then front else front + [last]
  }

  /** The elements of s that are (inside = true) or are not (inside = false) in the set. */
  function Select(s: seq<string>, among: set<string>, inside: bool): (r: seq<string>)
    ensures forall k :: k in r <==> k in s && (k in among <==> inside)
    ensures NoDuplicates(s) ==> NoDuplicates(r)
  {
    if s == [] then []
    else
      var front := Select(s[..|s| - 1], among, inside);
      var last := s[|s| - 1];
      assert forall k :: k in s <==> k in s[..|s| - 1] || k == last by {
        assert s == s[..|s| - 1] + [last];
      }
      if (last in among) == inside then front + [last] else front
  }

  /** `list(job_keywords_set & resume_keywords_set)`, listed in the order of the job keywords. */
  function MatchedKeywords(jobTop: seq<string>, resumeSet: set<string>): (matched: seq<string>)
    ensures NoDuplicates(matched)
    ensures forall k :: k in matched <==> k in jobTop && k in resumeSet
  {
    Select(Dedup(jobTop), resumeSet, true)
  }

  /** `list(job_keywords_set - resume_keywords_set)`, listed in the order of the job keywords. */
  function MissingKeywords(jobTop: seq<string>, resumeSet: set<string>): (missing: seq<string>)
    ensures NoDuplicates(missing)
    ensures forall k :: k in missing <==> k in jobTop && k !in resumeSet
  {
    Select(Dedup(jobTop), resumeSet, false)
  }

  /** `len(matched) / len(job_keywords_set) * 100`, or 0 for an empty job keyword set. */
  function KeywordMatchScore(matched: nat, jobSetSize: nat): (score: real)
    ensures matched <= jobSetSize ==> 0.0 <= score <= 100.0
    ensures jobSetSize > 0 ==> score * jobSetSize as real == 100.0 * matched as real
    ensures jobSetSize == 0 ==> score == 0.0
  {
    if jobSetSize == 0 then 0.0 else (matched as real / jobSetSize as real) * 100.0
  }

  /** `(similarity * 0.6 + keyword_match / 100 * 0.4) * 100`: within [0, 100] when both inputs are in range. */
  function OverallScore(similarity: real, keywordMatch: real): (score: real)
    ensures 0.0 <= similarity <= 1.0 && 0.0 <= keywordMatch <= 100.0 ==> 0.0 <= score <= 100.0
  {
    (similarity * 0.6 + (keywordMatch / 100.0) * 0.4) * 100.0
  }

  /**
   * The body of the `try` block once the similarity is known: the keyword
   * split, the two scores, the recommendations and the truncated lists.
   */
  function KeywordReport(sim: real, jobKeywords: seq<string>, resumeKeywords: seq<string>): AtsReport {
    var jobTop := Take(jobKeywords, KeywordsToMatch);
    var resumeSet := SetOf(resumeKeywords);
    var matched := MatchedKeywords(jobTop, resumeSet);
    var missing := MissingKeywords(jobTop, resumeSet);
    var keywordMatch := KeywordMatchScore(|matched|, |SetOf(jobTop)|);
    var overall := OverallScore(sim, keywordMatch);
    Scored(overall, sim * 100.0, keywordMatch, Take(matched, 10), Take(missing, 10),
           Recommendations(overall, missing, matched), Take(jobKeywords, 15), Take(resumeKeywords, 15))
  }

  /** What `calculate_ats_score(resume_text, job_description)` returns. */
  function AtsScore(stopWords: set<string>, resumeText: string, jobDescription: string,
                    weigh: TermWeighter, similarity: Similarity): AtsReport
  {
    var resumeClean := Preprocess(stopWords, resumeText);
    var jobClean := Preprocess(stopWords, jobDescription);
    if resumeClean == [] || jobClean == [] then
      InvalidInput(0.0, 0.0, [], [], [InvalidInputMessage])
    else
      match similarity(resumeClean, jobClean)
      case Failure(e) => Failed(0.0, ErrorPrefix + e, [RetryMessage])
      case Success(sim) =>
        KeywordReport(sim, Keywords(stopWords, jobDescription, TopJobKeywords, weigh),
                      Keywords(stopWords, resumeText, TopResumeKeywords, weigh))
  }

  lemma {:induction false} NoDuplicatesCard(s: seq<string>)
    requires NoDuplicates(s)
    ensures |SetOf(s)| == |s|
  {
    if s != [] {
      var init, last := s[..|s| - 1], s[|s| - 1];
      NoDuplicatesCard(init);
      assert SetOf(s) == SetOf(init) + {last} by {
        assert s == init + [last];
      }
      assert last !in SetOf(init);
    }
  }

  /**
   * The split of the job's top keywords: matched and missing are disjoint,
   * together they are the job keyword set, matched lies in the resume keyword
   * set, and neither lists a keyword twice; so |matched| is the size of the
   * intersection and |matched| + |missing| the size of the job keyword set.
   */
  lemma KeywordPartition(jobTop: seq<string>, resumeSet: set<string>)
    ensures SetOf(MatchedKeywords(jobTop, resumeSet)) * SetOf(MissingKeywords(jobTop, resumeSet)) == {}
    ensures SetOf(MatchedKeywords(jobTop, resumeSet)) + SetOf(MissingKeywords(jobTop, resumeSet)) == SetOf(jobTop)
    ensures SetOf(MatchedKeywords(jobTop, resumeSet)) == SetOf(jobTop) * resumeSet
    ensures SetOf(MissingKeywords(jobTop, resumeSet)) == SetOf(jobTop) - resumeSet
    ensures |MatchedKeywords(jobTop, resumeSet)| == |SetOf(jobTop) * resumeSet|
    ensures |MissingKeywords(jobTop, resumeSet)| == |SetOf(jobTop) - resumeSet|
    ensures |MatchedKeywords(jobTop, resumeSet)| + |MissingKeywords(jobTop, resumeSet)| == |SetOf(jobTop)|
  {
    var matched, missing := MatchedKeywords(jobTop, resumeSet), MissingKeywords(jobTop, resumeSet);
    NoDuplicatesCard(matched);
    NoDuplicatesCard(missing);
    assert SetOf(matched) == SetOf(jobTop) * resumeSet;
    assert SetOf(missing) == SetOf(jobTop) - resumeSet;
    assert SetOf(matched) + SetOf(missing) == SetOf(jobTop);
  }

  /** Empty preprocessed text on either side gives the zero report with its single guidance line, and only then. */
  lemma InvalidInputReport(stopWords: set<string>, resumeText: string, jobDescription: string,
                           weigh: TermWeighter, similarity: Similarity)
    ensures var report := AtsScore(stopWords, resumeText, jobDescription, weigh, similarity);
      (report.InvalidInput? <==> Preprocess(stopWords, resumeText) == [] || Preprocess(stopWords, jobDescription) == [])
      && (report.InvalidInput? ==>
            && report.overallScore == 0.0 && report.keywordMatch == 0.0
            && report.matchedKeywords == [] && report.missingKeywords == []
            && report.recommendations == [InvalidInputMessage])
  {
  }

  /** A failing vectoriser fit gives a zero score carrying the exception's message and one fallback line. */
  lemma FailedReport(stopWords: set<string>, resumeText: string, jobDescription: string,
                     weigh: TermWeighter, similarity: Similarity)
    ensures var report := AtsScore(stopWords, resumeText, jobDescription, weigh, similarity);
      var resumeClean, jobClean := Preprocess(stopWords, resumeText), Preprocess(stopWords, jobDescription);
      (report.Failed? <==> resumeClean != [] && jobClean != [] && similarity(resumeClean, jobClean).Failure?)
      && (report.Failed? ==>
            && report.overallScore == 0.0
            && report.error == ErrorPrefix + similarity(resumeClean, jobClean).error
            && report.recommendations == [RetryMessage])
  {
  }

  /**
   * The scored report: keyword_match is the KeywordMatchScore of the job
   * keyword set (the first 20 job keywords) and its intersection with the
   * resume keywords, so it lies in [0, 100]; overall_score lies in [0, 100] whenever the
   * similarity does; the ranked keyword lists are cut to 15 entries and there
   * are one to seven recommendations.
   */
  lemma KeywordReportSpec(sim: real, jobKeywords: seq<string>, resumeKeywords: seq<string>)
    ensures var report := KeywordReport(sim, jobKeywords, resumeKeywords);
      var jobSet := SetOf(Take(jobKeywords, KeywordsToMatch));
      var resumeSet := SetOf(resumeKeywords);
      && report.Scored?
      && report.similarityScore == sim * 100.0
      && report.keywordMatch == KeywordMatchScore(|jobSet * resumeSet|, |jobSet|)
      && 0.0 <= report.keywordMatch <= 100.0
      && (0.0 <= sim <= 1.0 ==> 0.0 <= report.overallScore <= 100.0)
      && report.jobKeywords == Take(jobKeywords, 15) && report.resumeKeywords == Take(resumeKeywords, 15)
      && 1 <= |report.recommendations| <= 7
  {
    var jobTop := Take(jobKeywords, KeywordsToMatch);
    var resumeSet := SetOf(resumeKeywords);
    var matched, missing := MatchedKeywords(jobTop, resumeSet), MissingKeywords(jobTop, resumeSet);
    var report := KeywordReport(sim, jobKeywords, resumeKeywords);
    KeywordPartition(jobTop, resumeSet);
    var common, size := |SetOf(jobTop) * resumeSet|, |SetOf(jobTop)|;
    assert common <= size by {
      assert SetOf(jobTop) * resumeSet <= SetOf(jobTop);
    }
    assert report.keywordMatch == KeywordMatchScore(common, size);
    RecommendationsLayout(report.overallScore, missing, matched);
  }

  /**
   * `matched_keywords[:10]` and `missing_keywords[:10]` of the scored report:
   * min(10, n) distinct keywords of the intersection, respectively the
   * difference, of the job keyword set and the resume keyword set, where n is
   * the size of that set.
   */
  lemma KeywordReportLists(sim: real, jobKeywords: seq<string>, resumeKeywords: seq<string>)
    ensures var report := KeywordReport(sim, jobKeywords, resumeKeywords);
      var jobSet := SetOf(Take(jobKeywords, KeywordsToMatch));
      var resumeSet := SetOf(resumeKeywords);
      && report.Scored?
      && NoDuplicates(report.matchedKeywords) && NoDuplicates(report.missingKeywords)
      && |report.matchedKeywords| == (if |jobSet * resumeSet| <= 10 then |jobSet * resumeSet| else 10)
      && |report.missingKeywords| == (if |jobSet - resumeSet| <= 10 then |jobSet - resumeSet| else 10)
      && SetOf(report.matchedKeywords) <= jobSet * resumeSet
      && SetOf(report.missingKeywords) <= jobSet - resumeSet
  {
    var jobTop := Take(jobKeywords, KeywordsToMatch);
    var resumeSet := SetOf(resumeKeywords);
    var matched, missing := MatchedKeywords(jobTop, resumeSet), MissingKeywords(jobTop, resumeSet);
    KeywordPartition(jobTop, resumeSet);
    TakeDistinct(matched, 10);
    TakeDistinct(missing, 10);
    var report := KeywordReport(sim, jobKeywords, resumeKeywords);
    assert report.matchedKeywords == Take(matched, 10);
    assert report.missingKeywords == Take(missing, 10);
  }

  /** A prefix of a list without duplicates has none either, and draws on the same elements. */
  lemma TakeDistinct(s: seq<string>, n: nat)
    requires NoDuplicates(s)
    ensures NoDuplicates(Take(s, n))
    ensures |Take(s, n)| == if |s| <= n then |s| else n
    ensures SetOf(Take(s, n)) <= SetOf(s)
  {
    var r := Take(s, n);
    assert forall i :: 0 <= i < |r| ==> r[i] == s[i];
  }

  /** A successful fit yields the keyword report of the two extracted keyword lists, with the job's cut to 30 and the resume's to 50. */
  lemma ScoredReport(stopWords: set<string>, resumeText: string, jobDescription: string,
                     weigh: TermWeighter, similarity: Similarity)
    ensures var report := AtsScore(stopWords, resumeText, jobDescription, weigh, similarity);
      var resumeClean, jobClean := Preprocess(stopWords, resumeText), Preprocess(stopWords, jobDescription);
      && (report.Scored? <==> resumeClean != [] && jobClean != [] && similarity(resumeClean, jobClean).Success?)
      && (report.Scored? ==>
            report == KeywordReport(similarity(resumeClean, jobClean).value,
                                    Keywords(stopWords, jobDescription, TopJobKeywords, weigh),
                                    Keywords(stopWords, resumeText, TopResumeKeywords, weigh)))
  {
  }

  /** `ATSCalculator.calculate_ats_score`, running the keyword extractor and the rule table in the order the `try` block does. */
  method CalculateAtsScore(stopWords: set<string>, resumeText: string, jobDescription: string,
                           weigh: TermWeighter, similarity: Similarity)
    returns (report: AtsReport)
    ensures report == AtsScore(stopWords, resumeText, jobDescription, weigh, similarity)
  {
    var resumeClean := Preprocess(stopWords, resumeText);
    var jobClean := Preprocess(stopWords, jobDescription);
    if resumeClean == [] || jobClean == [] {
      return InvalidInput(0.0, 0.0, [], [], [InvalidInputMessage]);
    }
    var fitted := similarity(resumeClean, jobClean);
    if fitted.Failure? {
      return Failed(0.0, ErrorPrefix + fitted.error, [RetryMessage]);
    }
    var jobKeywords := ExtractKeywords(stopWords, jobDescription, TopJobKeywords, weigh);
    var resumeKeywords := ExtractKeywords(stopWords, resumeText, TopResumeKeywords, weigh);
    report := ScoreKeywords(fitted.value, jobKeywords, resumeKeywords);
  }

  /**
   * The rest of the `try` block: splits the keywords, computes both scores and
   * collects the recommendations. It builds the same report as KeywordReport
   * but collects the recommendations with the appending method
   * GenerateRecommendations, as `calculate_ats_score` calls
   * `generate_recommendations`; the function is what the lemmas reason about.
   */
  method ScoreKeywords(sim: real, jobKeywords: seq<string>, resumeKeywords: seq<string>)
    returns (report: AtsReport)
    ensures report == KeywordReport(sim, jobKeywords, resumeKeywords)
  {
    var jobTop := Take(jobKeywords, KeywordsToMatch);
    var resumeSet := SetOf(resumeKeywords);
    var matched := MatchedKeywords(jobTop, resumeSet);
    var missing := MissingKeywords(jobTop, resumeSet);
    var keywordMatch := KeywordMatchScore(|matched|, |SetOf(jobTop)|);
    var overall := OverallScore(sim, keywordMatch);
    var recommendations := GenerateRecommendations(overall, missing, matched);
    report := Scored(overall, sim * 100.0, keywordMatch, Take(matched, 10), Take(missing, 10),
                     recommendations, Take(jobKeywords, 15), Take(resumeKeywords, 15));
  }
}
