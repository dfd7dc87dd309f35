/**
 * The recommendation rule table of the resume matcher
 * (`ATSCalculator.generate_recommendations`): one line for the score band,
 * a line naming up to five missing keywords, a line naming up to three
 * matched keywords, and four fixed tips below a score of 70.
 */
module AtsRecommendations {

  // Every line starts with its own emoji.
  const LowMarker := '\U{1F534}'
  const ModerateMarker := '\U{1F7E1}'
  const GoodMarker := '\U{1F7E2}'
  const AddTermsMarker := '\U{1F4DD}'
  const SkillsMarker := '\U{2705}'

  const LowMatch := [LowMarker] + " Low match score. Consider significant resume improvements."
  const ModerateMatch := [ModerateMarker] + " Moderate match. Some improvements needed."
  const GoodMatch := [GoodMarker] + " Good match! Your resume aligns well with the job."
  const AddTermsPrefix := [AddTermsMarker] + " Add these key terms: "
  const SkillsPrefix := [SkillsMarker] + " Great! You have these relevant skills: "
  const GeneralTips := [
    ['\U{1F4A1}'] + " Use exact keywords from the job description",
    ['\U{1F4CA}'] + " Quantify your achievements with numbers",
    ['\U{1F3AF}'] + " Tailor your resume for this specific role",
    ['\U{1F4CB}'] + " Include relevant certifications and skills"
  ]

  /** Python's slice `s[:n]`. */
  function Take<T>(s: seq<T>, n: nat): (r: seq<T>)
    ensures |r| <= n && |r| <= |s|
    ensures |s| <= n ==> r == s
    ensures |s| > n ==> |r| == n
    ensures r == s[..|r|]
  {
    if |s| <= n then s else s[..n]
  }

  /** `', '.join(words)`. */
  function CommaJoin(words: seq<string>): string {
    if |words| == 0 then []
    else if |words| == 1 then words[0]
    else words[0] + ", " + CommaJoin(words[1..])
  }

  predicate StartsWith(line: string, prefix: string) {
    |prefix| <= |line| && line[..|prefix|] == prefix
  }

  /** The first line: the band the score falls in. */
  function Band(score: real): string {
    if score < 30.0 then LowMatch
    else if score < 60.0 then ModerateMatch
    else GoodMatch
  }

  function AddTermsLine(missing: seq<string>): string {
    AddTermsPrefix + CommaJoin(Take(missing, 5))
  }

  function SkillsLine(matched: seq<string>): string {
    SkillsPrefix + CommaJoin(Take(matched, 3))
  }

  /** The list `generate_recommendations(score, missing, matched)` returns. */
  function Recommendations(score: real, missing: seq<string>, matched: seq<string>): seq<string> {
    [Band(score)]
    + (if missing != [] then [AddTermsLine(missing)] else [])
    + (if matched != [] then [SkillsLine(matched)] else [])
    + (if score < 70.0 then GeneralTips else [])
  }

  /** `ATSCalculator.generate_recommendations`: builds the list by appending, rule after rule. */
  method GenerateRecommendations(score: real, missing: seq<string>, matched: seq<string>)
    returns (recommendations: seq<string>)
    ensures recommendations == Recommendations(score, missing, matched)
  {
    recommendations := [];
    if score < 30.0 {
      recommendations := recommendations + [LowMatch];
    } else if score < 60.0 {
      recommendations := recommendations + [ModerateMatch];
    } else {
      recommendations := recommendations + [GoodMatch];
    }
    assert recommendations == [Band(score)];
    if missing != [] {
      recommendations := recommendations + [AddTermsPrefix + CommaJoin(Take(missing, 5))];
    }
    ghost var withTerms := [Band(score)] + (if missing != [] then [AddTermsLine(missing)] else []);
    assert recommendations == withTerms;
    if matched != [] {
      recommendations := recommendations + [SkillsPrefix + CommaJoin(Take(matched, 3))];
    }
    assert recommendations == withTerms + (if matched != [] then [SkillsLine(matched)] else []);
    if score < 70.0 {
      recommendations := recommendations + GeneralTips;
    }
  }

  /**
   * The layout of the list: the band line first (low below 30, moderate below
   * 60, good otherwise); the missing-keywords line exactly when some keyword
   * is missing, then the skills line exactly when some keyword matched, each
   * naming at most five, respectively three, keywords; the four tips last,
   * exactly when the score is below 70. Hence one to seven entries.
   */
  lemma RecommendationsLayout(score: real, missing: seq<string>, matched: seq<string>)
    ensures var r := Recommendations(score, missing, matched);
      && |r| == 1 + (if missing != [] then 1 else 0) + (if matched != [] then 1 else 0) + (if score < 70.0 then 4 else 0)
      && 1 <= |r| <= 7
      && (r[0] == LowMatch <==> score < 30.0)
      && (r[0] == ModerateMatch <==> 30.0 <= score < 60.0)
      && (r[0] == GoodMatch <==> score >= 60.0)
      && (missing != [] <==> |r| > 1 && StartsWith(r[1], AddTermsPrefix))
      && (missing != [] ==> r[1] == AddTermsPrefix + CommaJoin(Take(missing, 5)))
      && (matched != [] <==> exists i :: 0 < i < |r| && StartsWith(r[i], SkillsPrefix))
      && (var k := if missing != [] then 2 else 1;
          matched != [] ==> r[k] == SkillsPrefix + CommaJoin(Take(matched, 3)))
      && (score < 70.0 <==> |r| >= 5 && r[|r| - 4..] == GeneralTips)
  {
    var r := Recommendations(score, missing, matched);
    var k := if missing != [] then 2 else 1;
    assert LowMatch[0] == LowMarker && ModerateMatch[0] == ModerateMarker && GoodMatch[0] == GoodMarker;
    if matched != [] {
      assert StartsWith(r[k], SkillsPrefix);
    } else {
      forall i | 0 < i < |r| ensures !StartsWith(r[i], SkillsPrefix) {
        assert r[i][0] != SkillsPrefix[0];
      }
    }
    if missing == [] && |r| > 1 {
      assert r[1][0] != AddTermsPrefix[0];
    }
  }

  /** A score of 20 with no missing and no matched keywords gives the low band line and the four tips. */
  lemma LowScoreWithoutKeywords()
    ensures Recommendations(20.0, [], []) == [LowMatch] + GeneralTips
    ensures |Recommendations(20.0, [], [])| == 5
  {
  }
}
