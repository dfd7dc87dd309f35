/**
 * Keyword extraction of the resume matcher (`ATSCalculator.extract_keywords`).
 * The TF-IDF vectoriser is an abstract parameter: given the preprocessed text
 * and the feature cap it returns the fitted terms with their weights in its
 * own order, or None when it raises. The extractor sorts those pairs in place
 * by weight, highest first (Python's sort is stable, also with reverse=True),
 * and keeps the terms whose weight is positive.
 */
module AtsKeywords {
  import opened Wrappers
  import opened AtsText

  datatype TermWeight = TermWeight(term: string, weight: real)

  /** `TfidfVectorizer(max_features=n, ...).fit_transform([text])`, None when it raises. */
  type TermWeighter = (string, nat) -> Option<seq<TermWeight>>

  ghost predicate NonIncreasing(s: seq<TermWeight>) {
    forall i, j :: 0 <= i < j < |s| ==> s[i].weight >= s[j].weight
  }

  ghost predicate AllAtLeast(s: seq<TermWeight>, bound: real) {
    forall i :: 0 <= i < |s| ==> s[i].weight >= bound
  }

  /** The entries of s whose weight is exactly w, in their order in s. */
  function WithWeight(s: seq<TermWeight>, w: real): seq<TermWeight> {
    if s == [] then []
    else WithWeight(s[..|s| - 1], w) + (if s[|s| - 1].weight == w then [s[|s| - 1]] else [])
  }

  lemma {:induction false} WithWeightAppend(a: seq<TermWeight>, b: seq<TermWeight>, w: real)
    ensures WithWeight(a + b, w) == WithWeight(a, w) + WithWeight(b, w)
    decreases |b|
  {
    if b != [] {
      var b', last := b[..|b| - 1], b[|b| - 1];
      assert (a + b)[..|a + b| - 1] == a + b';
      WithWeightAppend(a, b', w);
    } else {
      assert a + b == a;
    }
  }

  /**
   * Inserts x into a list sorted by non-increasing weight, after every entry
   * whose weight is at least x's: the step of a stable descending sort.
   */
  function InsertByWeight(sorted: seq<TermWeight>, x: TermWeight): (r: seq<TermWeight>)
    ensures |r| == |sorted| + 1
  {
    if sorted == [] || sorted[|sorted| - 1].weight >= x.weight then sorted + [x]
    else InsertByWeight(sorted[..|sorted| - 1], x) + [sorted[|sorted| - 1]]
  }

  lemma {:induction false} InsertByWeightAtLeast(sorted: seq<TermWeight>, x: TermWeight, bound: real)
    requires AllAtLeast(sorted, bound) && x.weight >= bound
    ensures AllAtLeast(InsertByWeight(sorted, x), bound)
  {
    if sorted != [] && sorted[|sorted| - 1].weight < x.weight {
      InsertByWeightAtLeast(sorted[..|sorted| - 1], x, bound);
    }
  }

  lemma {:induction false} InsertByWeightSorted(sorted: seq<TermWeight>, x: TermWeight)
    requires NonIncreasing(sorted)
    ensures NonIncreasing(InsertByWeight(sorted, x))
  {
    if sorted != [] && sorted[|sorted| - 1].weight < x.weight {
      var init, last := sorted[..|sorted| - 1], sorted[|sorted| - 1];
      var front := InsertByWeight(init, x);
      var r := front + [last];
      InsertByWeightSorted(init, x);
      InsertByWeightAtLeast(init, x, last.weight);
      assert InsertByWeight(sorted, x) == r;
      forall i, j | 0 <= i < j < |r| ensures r[i].weight >= r[j].weight {
        if j < |r| - 1 {
          assert r[i] == front[i] && r[j] == front[j];
        }
      }
    }
  }

  lemma {:induction false} InsertByWeightWithWeight(sorted: seq<TermWeight>, x: TermWeight, w: real)
    ensures WithWeight(InsertByWeight(sorted, x), w) == WithWeight(sorted, w) + WithWeight([x], w)
  {
    if sorted == [] || sorted[|sorted| - 1].weight >= x.weight {
      WithWeightAppend(sorted, [x], w);
    } else {
      var init, last := sorted[..|sorted| - 1], sorted[|sorted| - 1];
      var front := InsertByWeight(init, x);
      InsertByWeightWithWeight(init, x, w);
      assert InsertByWeight(sorted, x) == front + [last];
      WithWeightAppend(front, [last], w);
      assert init + [last] == sorted;
      WithWeightAppend(init, [last], w);
      var wx, wl := WithWeight([x], w), WithWeight([last], w);
      assert wx == [] || wl == [];
      assert wx + wl == wl + wx;
    }
  }

  /** `keyword_scores.sort(key=lambda x: x[1], reverse=True)`. */
  function SortByWeight(s: seq<TermWeight>): (r: seq<TermWeight>)
    ensures |r| == |s|
  {
    if s == [] then [] else InsertByWeight(SortByWeight(s[..|s| - 1]), s[|s| - 1])
  }

  /**
   * The sort is stable and descending: weights never increase, and for every
   * weight the entries carrying it keep their original order (so the result
   * is a permutation of the input).
   */
  lemma {:induction false} SortByWeightSpec(s: seq<TermWeight>, w: real)
    ensures NonIncreasing(SortByWeight(s))
    ensures WithWeight(SortByWeight(s), w) == WithWeight(s, w)
  {
    if s != [] {
      var init, last := s[..|s| - 1], s[|s| - 1];
      SortByWeightSpec(init, w);
      InsertByWeightSorted(SortByWeight(init), last);
      InsertByWeightWithWeight(SortByWeight(init), last, w);
      WithWeightAppend(init, [last], w);
      assert init + [last] == s;
    }
  }

  /** The list comprehension `[... for keyword, score in keyword_scores if score > 0]`, before projecting the terms. */
  function Positive(s: seq<TermWeight>): (r: seq<TermWeight>)
    ensures |r| <= |s|
    ensures forall i :: 0 <= i < |r| ==> r[i].weight > 0.0
  {
    if s == [] then []
    else if s[|s| - 1].weight > 0.0 then Positive(s[..|s| - 1]) + [s[|s| - 1]]
    else Positive(s[..|s| - 1])
  }

  lemma {:induction false} PositiveAtLeast(s: seq<TermWeight>, bound: real)
    requires AllAtLeast(s, bound)
    ensures AllAtLeast(Positive(s), bound)
  {
    if s != [] {
      PositiveAtLeast(s[..|s| - 1], bound);
    }
  }

  lemma {:induction false} PositiveSorted(s: seq<TermWeight>)
    requires NonIncreasing(s)
    ensures NonIncreasing(Positive(s))
  {
    if s != [] {
      var init, last := s[..|s| - 1], s[|s| - 1];
      PositiveSorted(init);
      if last.weight > 0.0 {
        var front := Positive(init);
        PositiveAtLeast(init, last.weight);
        var r := front + [last];
        assert Positive(s) == r;
        forall i, j | 0 <= i < j < |r| ensures r[i].weight >= r[j].weight {
          if j < |r| - 1 {
            assert r[i] == front[i] && r[j] == front[j];
          }
        }
      }
    }
  }

  lemma {:induction false} PositiveWithWeight(s: seq<TermWeight>, w: real)
    ensures WithWeight(Positive(s), w) == if w > 0.0 then WithWeight(s, w) else []
  {
    if s != [] {
      var init, last := s[..|s| - 1], s[|s| - 1];
      PositiveWithWeight(init, w);
      WithWeightAppend(init, [last], w);
      assert init + [last] == s;
      if last.weight > 0.0 {
        WithWeightAppend(Positive(init), [last], w);
      }
    }
  }

  function Terms(s: seq<TermWeight>): (terms: seq<string>)
    ensures |terms| == |s|
    ensures forall i :: 0 <= i < |s| ==> terms[i] == s[i].term
  {
    if s == [] then [] else Terms(s[..|s| - 1]) + [s[|s| - 1].term]
  }

  /** The weighted terms `extract_keywords` reports, best first: the positive ones of a stable descending sort. */
  function Ranked(fitted: seq<TermWeight>): seq<TermWeight> {
    Positive(SortByWeight(fitted))
  }

  /** What `extract_keywords(text, top_n)` returns. */
  function Keywords(stopWords: set<string>, text: string, topN: nat, weigh: TermWeighter): seq<string> {
    var processed := Preprocess(stopWords, text);
    if processed == [] then []
    else
      match weigh(processed, topN)
      case None => []
      case Some(fitted) => Terms(Ranked(fitted))
  }

  /**
   * The ranking: every weight is positive, weights never increase along the
   * list, and for each positive weight the terms carrying it are exactly the
   * vectoriser's, in the vectoriser's order.
   */
  lemma RankedSpec(fitted: seq<TermWeight>)
    ensures |Ranked(fitted)| <= |fitted|
    ensures forall i :: 0 <= i < |Ranked(fitted)| ==> Ranked(fitted)[i].weight > 0.0
    ensures NonIncreasing(Ranked(fitted))
    ensures forall w :: w > 0.0 ==> WithWeight(Ranked(fitted), w) == WithWeight(fitted, w)
  {
    var r := Ranked(fitted);
    forall i | 0 <= i < |r| ensures r[i].weight > 0.0 {
      assert r[i] in r;
    }
    SortByWeightSpec(fitted, 0.0);
    PositiveSorted(SortByWeight(fitted));
    forall w | w > 0.0 ensures WithWeight(r, w) == WithWeight(fitted, w) {
      SortByWeightSpec(fitted, w);
      PositiveWithWeight(SortByWeight(fitted), w);
    }
  }

  /**
   * Empty preprocessed text or a vectoriser failure gives no keywords;
   * otherwise there are at most as many keywords as fitted terms, so at most
   * `top_n` when the vectoriser honours `max_features`.
   */
  lemma KeywordsBounds(stopWords: set<string>, text: string, topN: nat, weigh: TermWeighter)
    ensures Preprocess(stopWords, text) == [] ==> Keywords(stopWords, text, topN, weigh) == []
    ensures weigh(Preprocess(stopWords, text), topN).None? ==> Keywords(stopWords, text, topN, weigh) == []
    ensures weigh(Preprocess(stopWords, text), topN).Some? ==>
              |Keywords(stopWords, text, topN, weigh)| <= |weigh(Preprocess(stopWords, text), topN).value|
    ensures (var fitted := weigh(Preprocess(stopWords, text), topN);
             fitted.Some? && |fitted.value| <= topN ==> |Keywords(stopWords, text, topN, weigh)| <= topN)
  {
    var processed := Preprocess(stopWords, text);
    if processed != [] && weigh(processed, topN).Some? {
      RankedSpec(weigh(processed, topN).value);
    }
  }

  /** InsertByWeight puts x just after the last entry at least as heavy as x. */
  lemma {:induction false} InsertByWeightAt(sorted: seq<TermWeight>, x: TermWeight, j: nat)
    requires j <= |sorted| && (j == 0 || sorted[j - 1].weight >= x.weight)
    requires forall k :: j <= k < |sorted| ==> sorted[k].weight < x.weight
    ensures InsertByWeight(sorted, x) == sorted[..j] + [x] + sorted[j..]
    decreases |sorted|
  {
    if j < |sorted| {
      var init, last := sorted[..|sorted| - 1], sorted[|sorted| - 1];
      InsertByWeightAt(init, x, j);
      assert init[..j] == sorted[..j];
      assert init[j..] + [last] == sorted[j..];
    } else {
      assert sorted[..j] == sorted;
    }
  }

  /**
   * The loop of one insertion step: shifts the entries of a[..i] lighter than
   * x one place right and returns the gap where x belongs.
   */
  method ShiftLighter(a: array<TermWeight>, i: nat, x: TermWeight) returns (j: nat)
    requires i < a.Length
    modifies a
    ensures j <= i
    ensures forall k :: 0 <= k < j ==> a[k] == old(a[k])
    ensures forall k :: j < k <= i ==> a[k] == old(a[k - 1])
    ensures forall k :: i < k < a.Length ==> a[k] == old(a[k])
    ensures j == 0 || old(a[j - 1]).weight >= x.weight
    ensures forall k :: j <= k < i ==> old(a[k]).weight < x.weight
  {
    j := i;
    while j > 0 && a[j - 1].weight < x.weight
      invariant 0 <= j <= i
      invariant forall k :: 0 <= k < j ==> a[k] == old(a[k])
      invariant forall k :: j < k <= i ==> a[k] == old(a[k - 1])
      invariant forall k :: i < k < a.Length ==> a[k] == old(a[k])
      invariant forall k :: j <= k < i ==> old(a[k]).weight < x.weight
    {
      a[j] := a[j - 1];
      j := j - 1;
    }
  }

  /** One insertion step: a[..i] is sorted already; a[i] moves left past the entries of smaller weight. */
  method InsertInPlace(a: array<TermWeight>, i: nat)
    requires i < a.Length
    modifies a
    ensures a[..i + 1] == InsertByWeight(old(a[..i]), old(a[i]))
    ensures forall k :: i < k < a.Length ==> a[k] == old(a[k])
  {
    ghost var before := a[..];
    var x := a[i];
    var j := ShiftLighter(a, i, x);
    InsertByWeightAt(before[..i], x, j);
    a[j] := x;
    assert before[..i][..j] == before[..j] && before[..i][j..] == before[j..i];
    assert a[..i + 1] == before[..j] + [x] + before[j..i] by {
      forall k | 0 <= k <= i ensures a[..i + 1][k] == (before[..j] + [x] + before[j..i])[k] {
        if k > j {
          assert a[k] == before[k - 1];
        }
      }
    }
  }

  /** The in-place sort on the list of (term, weight) pairs, as an insertion sort on an array. */
  method SortByWeightInPlace(a: array<TermWeight>)
    modifies a
    ensures a[..] == SortByWeight(old(a[..]))
  {
    ghost var input := a[..];
    for i := 0 to a.Length
      invariant a[..i] == SortByWeight(input[..i])
      invariant a[i..] == input[i..]
    {
      InsertInPlace(a, i);
      assert input[..i + 1][..i] == input[..i];
    }
    assert input[..a.Length] == input;
  }

  /** `ATSCalculator.extract_keywords`, with the vectoriser as a parameter. */
  method ExtractKeywords(stopWords: set<string>, text: string, topN: nat, weigh: TermWeighter)
    returns (keywords: seq<string>)
    ensures keywords == Keywords(stopWords, text, topN, weigh)
  {
    var processed := Preprocess(stopWords, text);
    if processed == [] {
      return [];
    }
    var fitted := weigh(processed, topN);
    if fitted.None? {
      return [];
    }
    var scores := new TermWeight[|fitted.value|](i requires 0 <= i < |fitted.value| => fitted.value[i]);
    assert scores[..] == fitted.value;
    SortByWeightInPlace(scores);
    keywords := [];
    for i := 0 to scores.Length
      invariant keywords == Terms(Positive(scores[..i]))
    {
      assert scores[..i + 1][..i] == scores[..i];
      if scores[i].weight > 0.0 {
        keywords := keywords + [scores[i].term];
      }
    }
    assert scores[..scores.Length] == scores[..];
  }
}
