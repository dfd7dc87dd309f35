/**
 * Text normalisation of the resume/job-description matcher
 * (`ATSCalculator.preprocess`): lower-case, drop everything that is neither
 * an ASCII letter nor whitespace, split on whitespace, drop stop-words and
 * words of two characters or fewer, and join the survivors with single spaces.
 * The stop-word set is a parameter.
 */
module AtsText {

  /** Python's whitespace: `str.isspace`, which is also the `\s` of a str pattern and what `str.split()` splits on. */
  predicate IsSpace(c: char) {
    var n := c as int;
    || (0x09 <= n <= 0x0D) || (0x1C <= n <= 0x20) || n == 0x85 || n == 0xA0 || n == 0x1680
    || (0x2000 <= n <= 0x200A) || n == 0x2028 || n == 0x2029 || n == 0x202F || n == 0x205F || n == 0x3000
  }

  predicate IsAsciiLetter(c: char) {
    'a' <= c <= 'z' || 'A' <= c <= 'Z'
  }

  predicate IsLowerLetter(c: char) {
    'a' <= c <= 'z'
  }

  /** Text made only of lower-case ASCII letters and whitespace. */
  ghost predicate IsCleanText(s: string) {
    forall i :: 0 <= i < |s| ==> IsLowerLetter(s[i]) || IsSpace(s[i])
  }

  /** A word that can appear in normalised text. */
  ghost predicate IsToken(t: string) {
    |t| > 0 && forall i :: 0 <= i < |t| ==> IsLowerLetter(t[i])
  }

  /**
   * The shape of `preprocess`'s output: lower-case letters separated by single
   * spaces, with no space at either end.
   */
  ghost predicate IsNormalized(s: string) {
    && (forall i :: 0 <= i < |s| ==> IsLowerLetter(s[i]) || s[i] == ' ')
    && (|s| > 0 ==> s[0] != ' ' && s[|s| - 1] != ' ')
    && (forall i :: 0 <= i < |s| - 1 ==> s[i] != ' ' || s[i + 1] != ' ')
  }

  /**
   * Python's `str.lower()` of one character. Exact for every character whose
   * lower case contains an ASCII letter (A-Z, U+0130 and U+212A); any other
   * character is kept as it is, which makes no difference after
   * StripNonLetters because neither it nor its lower case is an ASCII letter
   * or whitespace.
   */
  function LowerChar(c: char): (s: string)
    ensures forall i :: 0 <= i < |s| ==> !('A' <= s[i] <= 'Z')
    ensures 'A' <= c <= 'Z' ==> s == [(c as int + 32) as char] && IsLowerLetter(s[0])
    ensures !('A' <= c <= 'Z') && c != '\U{130}' && c != '\U{212A}' ==> s == [c]
  {
    if 'A' <= c <= 'Z' then [(c as int + 32) as char]
    else if c == '\U{130}' then ['i', '\U{307}']
    else if c == '\U{212A}' then ['k']
    else [c]
  }

  /** `text.lower()`: the result holds no upper-case ASCII letter. */
  function Lower(text: string): (r: string)
    ensures forall i :: 0 <= i < |r| ==> !('A' <= r[i] <= 'Z')
  {
    if text == [] then [] else LowerChar(text[0]) + Lower(text[1..])
  }

  /** `str.lower()` works character by character: lowering a concatenation lowers each part. */
  lemma {:induction false} LowerAppend(a: string, b: string)
    ensures Lower(a + b) == Lower(a) + Lower(b)
  {
    if a == [] {
      assert a + b == b;
    } else {
      assert (a + b)[0] == a[0];
      assert (a + b)[1..] == a[1..] + b;
      LowerAppend(a[1..], b);
      assert Lower(a + b) == LowerChar(a[0]) + (Lower(a[1..]) + Lower(b));
      assert Lower(a) == LowerChar(a[0]) + Lower(a[1..]);
    }
  }

  /** `re.sub(r'[^a-zA-Z\s]', '', text)`: keeps exactly the ASCII letters and the whitespace, in order. */
  function StripNonLetters(text: string): (r: string)
    ensures forall i :: 0 <= i < |r| ==> (IsAsciiLetter(r[i]) || IsSpace(r[i])) && r[i] in text
  {
    if text == [] then []
    else if IsAsciiLetter(text[0]) || IsSpace(text[0]) then [text[0]] + StripNonLetters(text[1..])
    else StripNonLetters(text[1..])
  }

  /** The kept characters stay in their order: the result is a subsequence of the text. */
  lemma {:induction false} StripNonLettersSubsequence(text: string)
    ensures IsSubsequence(StripNonLetters(text), text)
  {
    if text != [] {
      var rest := StripNonLetters(text[1..]);
      StripNonLettersSubsequence(text[1..]);
      if IsAsciiLetter(text[0]) || IsSpace(text[0]) {
        assert ([text[0]] + rest)[1..] == rest;
      }
    }
  }

  /** Every ASCII letter and whitespace character of the text survives as often as it occurs; nothing else does. */
  lemma {:induction false} StripNonLettersCounts(text: string)
    ensures forall c :: multiset(StripNonLetters(text))[c] == if IsAsciiLetter(c) || IsSpace(c) then multiset(text)[c] else 0
  {
    if text != [] {
      StripNonLettersCounts(text[1..]);
      assert text == [text[0]] + text[1..];
      assert multiset(text) == multiset{text[0]} + multiset(text[1..]);
    }
  }

  /** Lower-casing followed by the letter filter. */
  function Clean(text: string): (r: string)
    ensures IsCleanText(r)
  {
    var lowered := Lower(text);
    var r := StripNonLetters(lowered);
    assert forall i :: 0 <= i < |r| ==> !('A' <= r[i] <= 'Z') by {
      forall i | 0 <= i < |r| ensures !('A' <= r[i] <= 'Z') {
        var k :| 0 <= k < |lowered| && lowered[k] == r[i];
      }
    }
    r
  }

  /** The letter filter works character by character. */
  lemma {:induction false} StripNonLettersAppend(a: string, b: string)
    ensures StripNonLetters(a + b) == StripNonLetters(a) + StripNonLetters(b)
  {
    if a == [] {
      assert a + b == b;
    } else {
      assert (a + b)[0] == a[0];
      assert (a + b)[1..] == a[1..] + b;
      StripNonLettersAppend(a[1..], b);
    }
  }

  /** Cleaning works character by character: cleaning a concatenation cleans each part. */
  lemma CleanAppend(a: string, b: string)
    ensures Clean(a + b) == Clean(a) + Clean(b)
  {
    LowerAppend(a, b);
    StripNonLettersAppend(Lower(a), Lower(b));
  }

  /**
   * What cleaning makes of one character: an upper-case ASCII letter becomes
   * its lower case, a lower-case ASCII letter or whitespace stays, U+0130 and
   * the Kelvin sign leave "i" and "k", and anything else disappears.
   */
  lemma CleanChar(c: char)
    ensures 'A' <= c <= 'Z' ==> Clean([c]) == [(c as int + 32) as char]
    ensures IsLowerLetter(c) || IsSpace(c) ==> Clean([c]) == [c]
    ensures c == '\U{130}' ==> Clean([c]) == "i"
    ensures c == '\U{212A}' ==> Clean([c]) == "k"
    ensures !IsAsciiLetter(c) && !IsSpace(c) && c != '\U{130}' && c != '\U{212A}' ==> Clean([c]) == []
  {
    if c == '\U{130}' {
      CleanDottedCapitalI();
    } else {
      var s := LowerChar(c);
      assert |s| == 1;
      LowerOne(c);
      StripChar(s[0]);
      assert s == [s[0]];
    }
  }

  lemma LowerOne(c: char)
    ensures Lower([c]) == LowerChar(c)
    ensures Clean([c]) == StripNonLetters(LowerChar(c))
  {
    assert [c][1..] == [];
    assert LowerChar(c) + [] == LowerChar(c);
  }

  /** U+0130 lowers to "i" followed by a combining dot, which the letter filter drops. */
  lemma CleanDottedCapitalI()
    ensures Clean(['\U{130}']) == "i"
  {
    var s := LowerChar('\U{130}');
    LowerOne('\U{130}');
    assert s == ['i'] + ['\U{307}'];
    StripNonLettersAppend(['i'], ['\U{307}']);
    StripChar('i');
    StripChar('\U{307}');
  }

  lemma StripChar(c: char)
    ensures StripNonLetters([c]) == if IsAsciiLetter(c) || IsSpace(c) then [c] else []
  {
    assert [c][1..] == [];
  }

  /** Length of the run of non-whitespace characters at the start of s. */
  function WordLen(s: string): (n: nat)
    ensures n <= |s|
    ensures forall i :: 0 <= i < n ==> !IsSpace(s[i])
    ensures n < |s| ==> IsSpace(s[n])
    ensures s != [] && !IsSpace(s[0]) ==> n > 0
  {
    if s == [] || IsSpace(s[0]) then 0 else 1 + WordLen(s[1..])
  }

  /** `str.split()` with no argument: the maximal runs of non-whitespace characters, in order. */
  function Split(s: string): (words: seq<string>)
    ensures forall i :: 0 <= i < |words| ==> |words[i]| > 0
    ensures forall i, j :: 0 <= i < |words| && 0 <= j < |words[i]| ==> !IsSpace(words[i][j])
    decreases |s|
  {
    if s == [] then []
    else if IsSpace(s[0]) then Split(s[1..])
    else
      var n := WordLen(s);
      [s[..n]] + Split(s[n..])
  }

  /** `' '.join(words)`. */
  function Join(words: seq<string>): string {
    if |words| == 0 then []
    else if |words| == 1 then words[0]
    else words[0] + " " + Join(words[1..])
  }

  /** The comprehension filter of `preprocess`: not a stop-word and longer than two characters. */
  predicate KeepToken(stopWords: set<string>, word: string) {
    word !in stopWords && |word| > 2
  }

  function FilterTokens(stopWords: set<string>, tokens: seq<string>): (kept: seq<string>)
    ensures forall t :: t in kept <==> t in tokens && KeepToken(stopWords, t)
    ensures forall t :: multiset(kept)[t] == if KeepToken(stopWords, t) then multiset(tokens)[t] else 0
  {
    if tokens == [] then []
    else
      assert tokens == [tokens[0]] + tokens[1..];
      assert multiset(tokens) == multiset{tokens[0]} + multiset(tokens[1..]);
      if KeepToken(stopWords, tokens[0]) then [tokens[0]] + FilterTokens(stopWords, tokens[1..])
      else FilterTokens(stopWords, tokens[1..])
  }

  /** `ATSCalculator.preprocess`. */
  function Preprocess(stopWords: set<string>, text: string): string {
    if text == [] then [] else Join(FilterTokens(stopWords, Split(Clean(text))))
  }

  /**
   * What `preprocess` produces: empty text gives the empty string; otherwise
   * the words of the result are exactly the words of the cleaned text that
   * pass the filter, each a lower-case word of more than two letters that is
   * no stop-word, and the result is normalised.
   */
  lemma PreprocessSpec(stopWords: set<string>, text: string)
    ensures var r := Preprocess(stopWords, text);
      && (text == [] ==> r == [])
      && IsNormalized(r)
      && Split(r) == FilterTokens(stopWords, Split(Clean(text)))
      && (forall t :: t in Split(r) ==> IsToken(t) && |t| > 2 && t !in stopWords)
  {
    if text != [] {
      var tokens := FilterTokens(stopWords, Split(Clean(text)));
      SplitCleanTokens(Clean(text));
      SplitJoin(tokens);
      JoinNormalized(tokens);
    }
  }

  /** `xs` can be obtained from `ys` by deleting elements. */
  predicate IsSubsequence<T(==)>(xs: seq<T>, ys: seq<T>)
    decreases |ys|
  {
    if xs == [] then true
    else if ys == [] then false
    else if xs[0] == ys[0] then IsSubsequence(xs[1..], ys[1..])
    else IsSubsequence(xs, ys[1..])
  }

  lemma {:induction false} SplitCleanTokens(s: string)
    requires IsCleanText(s)
    ensures forall t :: t in Split(s) ==> IsToken(t)
    decreases |s|
  {
    if s == [] {
    } else if IsSpace(s[0]) {
      SplitCleanTokens(s[1..]);
    } else {
      var n := WordLen(s);
      SplitCleanTokens(s[n..]);
      assert IsToken(s[..n]);
    }
  }

  lemma {:induction false} WordLenOfWord(w: string, tail: string)
    requires forall i :: 0 <= i < |w| ==> !IsSpace(w[i])
    requires tail == [] || IsSpace(tail[0])
    ensures WordLen(w + tail) == |w|
  {
    if w != [] {
      assert (w + tail)[1..] == w[1..] + tail;
      WordLenOfWord(w[1..], tail);
    }
  }

  /** A run of non-whitespace characters splits to itself. */
  lemma SplitWord(w: string)
    requires w != [] && forall i :: 0 <= i < |w| ==> !IsSpace(w[i])
    ensures Split(w) == [w]
  {
    WordLenOfWord(w, []);
    assert w + [] == w;
    assert w[|w|..] == [];
  }

  /**
   * Any whitespace character separates: the words on either side of it are
   * split independently, however many whitespace characters surround it.
   * With SplitWord this fixes Split on every text.
   */
  lemma {:induction false} SplitAtSpace(a: string, c: char, b: string)
    requires IsSpace(c)
    ensures Split(a + [c] + b) == Split(a) + Split(b)
    decreases |a|
  {
    var s := a + [c] + b;
    if a == [] {
      assert s[1..] == b;
    } else if IsSpace(a[0]) {
      assert s[1..] == a[1..] + [c] + b;
      SplitAtSpace(a[1..], c, b);
    } else {
      var n := WordLen(a);
      var tail := a[n..] + [c] + b;
      assert a[..n] + tail == s;
      WordLenOfWord(a[..n], tail);
      assert s[..n] == a[..n];
      assert s[n..] == tail;
      SplitAtSpace(a[n..], c, b);
    }
  }

  /** A run of mixed whitespace, or a trailing newline, separates words like a single space. */
  lemma SplitRunsExample()
    ensures Split("go \n sql\n") == ["go", "sql"]
  {
    assert "go \n sql\n" == "go" + [' '] + "\n sql\n";
    SplitAtSpace("go", ' ', "\n sql\n");
    SplitWord("go");
    SplitLeadingRun();
  }

  lemma SplitLeadingRun()
    ensures Split("\n sql\n") == ["sql"]
  {
    assert "\n sql\n" == [] + ['\n'] + " sql\n";
    SplitAtSpace([], '\n', " sql\n");
    assert " sql\n" == [] + [' '] + "sql\n";
    SplitAtSpace([], ' ', "sql\n");
    SplitTrailingNewline();
  }

  lemma SplitTrailingNewline()
    ensures Split("sql\n") == ["sql"]
  {
    assert "sql\n" == "sql" + ['\n'] + [];
    SplitAtSpace("sql", '\n', []);
    SplitWord("sql");
  }

  /** Splitting joined words gives the words back. */
  lemma {:induction false} SplitJoin(words: seq<string>)
    requires forall t :: t in words ==> IsToken(t)
    ensures Split(Join(words)) == words
  {
    if |words| == 1 {
      var w := words[0];
      assert w in words;
      WordLenOfWord(w, []);
      assert w + [] == w;
      assert w[|w|..] == [];
    } else if |words| > 1 {
      var w, rest := words[0], Join(words[1..]);
      var s := w + " " + rest;
      assert w in words;
      WordLenOfWord(w, " " + rest);
      assert w + (" " + rest) == s;
      assert s[..|w|] == w;
      assert s[|w|..] == " " + rest;
      assert (" " + rest)[1..] == rest;
      SplitJoin(words[1..]);
    }
  }

  lemma {:induction false} JoinNormalized(words: seq<string>)
    requires forall t :: t in words ==> IsToken(t)
    ensures IsNormalized(Join(words))
    ensures |words| > 0 ==> |Join(words)| > 0
  {
    if |words| == 1 {
      assert IsToken(words[0]);
    } else if |words| > 1 {
      var w, rest := words[0], Join(words[1..]);
      assert IsToken(w);
      JoinNormalized(words[1..]);
      var s := w + " " + rest;
      assert s == Join(words);
      forall i | 0 <= i < |s|
        ensures IsLowerLetter(s[i]) || s[i] == ' '
      {
        if i > |w| {
          assert s[i] == rest[i - |w| - 1];
        }
      }
      forall i | 0 <= i < |s| - 1
        ensures s[i] != ' ' || s[i + 1] != ' '
      {
        if i > |w| {
          assert s[i] == rest[i - |w| - 1] && s[i + 1] == rest[i - |w|];
        } else if i == |w| {
          assert s[i + 1] == rest[0];
        }
      }
      assert s[|s| - 1] == rest[|rest| - 1];
    }
  }

  lemma {:induction false} FilterTokensSubsequence(stopWords: set<string>, tokens: seq<string>)
    ensures IsSubsequence(FilterTokens(stopWords, tokens), tokens)
  {
    if tokens != [] {
      var kept := FilterTokens(stopWords, tokens);
      FilterTokensSubsequence(stopWords, tokens[1..]);
      if KeepToken(stopWords, tokens[0]) {
        assert kept[1..] == FilterTokens(stopWords, tokens[1..]);
      } else if kept != [] {
        assert kept[0] in kept;
      }
    }
  }

  lemma {:induction false} FilterTokensKeepsKept(stopWords: set<string>, tokens: seq<string>)
    requires forall t :: t in tokens ==> KeepToken(stopWords, t)
    ensures FilterTokens(stopWords, tokens) == tokens
  {
    if tokens != [] {
      assert tokens[0] in tokens;
      FilterTokensKeepsKept(stopWords, tokens[1..]);
    }
  }

  lemma {:induction false} CleanFixesNormalized(s: string)
    requires forall i :: 0 <= i < |s| ==> IsLowerLetter(s[i]) || s[i] == ' '
    ensures Clean(s) == s
  {
    LowerFixes(s);
    StripFixes(s);
  }

  lemma {:induction false} LowerFixes(s: string)
    requires forall i :: 0 <= i < |s| ==> IsLowerLetter(s[i]) || s[i] == ' '
    ensures Lower(s) == s
  {
    if s != [] {
      LowerFixes(s[1..]);
      assert LowerChar(s[0]) == [s[0]];
    }
  }

  lemma {:induction false} StripFixes(s: string)
    requires forall i :: 0 <= i < |s| ==> IsLowerLetter(s[i]) || s[i] == ' '
    ensures StripNonLetters(s) == s
  {
    if s != [] {
      StripFixes(s[1..]);
      assert [s[0]] + s[1..] == s;
    }
  }

  /** The words of `preprocess`'s output occur, in the same order, among the words of the cleaned input. */
  lemma PreprocessKeepsOrder(stopWords: set<string>, text: string)
    ensures IsSubsequence(Split(Preprocess(stopWords, text)), Split(Clean(text)))
  {
    PreprocessSpec(stopWords, text);
    FilterTokensSubsequence(stopWords, Split(Clean(text)));
  }

  /** Preprocessing normalised text changes nothing: `preprocess` is idempotent. */
  lemma PreprocessIdempotent(stopWords: set<string>, text: string)
    ensures Preprocess(stopWords, Preprocess(stopWords, text)) == Preprocess(stopWords, text)
  {
    var r := Preprocess(stopWords, text);
    PreprocessSpec(stopWords, text);
    if r != [] {
      var tokens := FilterTokens(stopWords, Split(Clean(text)));
      assert r == Join(tokens);
      CleanFixesNormalized(r);
      FilterTokensKeepsKept(stopWords, tokens);
    }
  }

  /**
   * Capitals are lowered, punctuation goes, the two-letter word and the
   * stop-word "and" are dropped: `preprocess("Go, and SQL")` is "sql".
   */
  lemma PreprocessExample()
    ensures Preprocess({"and"}, "Go, and SQL") == "sql"
  {
    ExampleClean();
    var words := ["go", "and", "sql"];
    ExampleWords();
    ExampleTokens();
    SplitJoin(words);
    ExampleFilter();
  }

  lemma ExampleTokens()
    ensures forall t :: t in ["go", "and", "sql"] ==> IsToken(t)
  {
    assert IsToken("go");
    assert IsToken("and");
    assert IsToken("sql");
  }

  lemma ExampleWords()
    ensures Join(["go", "and", "sql"]) == "go and sql"
  {
  }

  lemma ExampleFilter()
    ensures FilterTokens({"and"}, ["go", "and", "sql"]) == ["sql"]
  {
    assert ["go", "and", "sql"][1..] == ["and", "sql"];
    assert ["and", "sql"][1..] == ["sql"];
  }

  lemma ExampleClean()
    ensures Clean("Go, and SQL") == "go and sql"
  {
    CleanAppend("Go,", " and");
    CleanAppend("Go," + " and", " SQL");
    ExampleParts();
    ExampleCleanGo();
    ExampleCleanAnd();
    ExampleCleanSql();
  }

  lemma ExampleParts()
    ensures "Go," + " and" + " SQL" == "Go, and SQL"
    ensures "go" + " and" + " sql" == "go and sql"
  {
  }

  lemma ExampleCleanGo()
    ensures Clean("Go,") == "go"
  {
  }

  lemma ExampleCleanAnd()
    ensures Clean(" and") == " and"
  {
    CleanFixesNormalized(" and");
  }

  lemma ExampleCleanSql()
    ensures Clean(" SQL") == " sql"
  {
  }
}
