/**
 * The two pure helpers of `YouTubeConverter`: `format_timestamp`, which
 * writes a number of seconds as `MM:SS`, and `extract_video_id`, which pulls
 * the video id out of a YouTube URL with two regular expressions tried in
 * order. The regular expressions are modelled by what `re.search` does with
 * them: the leftmost position where the pattern matches, alternatives tried
 * in order, and greedy repetition with backtracking.
 */
module YouTubeConverter {
  import opened Wrappers

  // ---------------------------------------------------------------------
  // format_timestamp
  // ---------------------------------------------------------------------

  /** `int(seconds // 60)`: floor division of the (possibly fractional) number of seconds. */
  function Minutes(seconds: real): int {
    (seconds / 60.0).Floor
  }

  /** `int(seconds % 60)`: Python's float remainder lies in [0, 60), and int() drops its fraction. */
  function SecondsField(seconds: real): int {
    (seconds - 60.0 * Minutes(seconds) as real).Floor
  }

  predicate IsDigit(c: char) {
    '0' <= c <= '9'
  }

  function DigitChar(d: nat): (c: char)
    requires d < 10
    ensures IsDigit(c)
  {
    ('0' as int + d) as char
  }

  /** The decimal notation of n, without leading zeros. */
  function DecimalDigits(n: nat): (s: string)
    ensures |s| > 0 && forall i :: 0 <= i < |s| ==> IsDigit(s[i])
    ensures n < 10 <==> |s| == 1
    ensures n < 100 ==> |s| <= 2
  {
    if n < 10 then [DigitChar(n)] else DecimalDigits(n / 10) + [DigitChar(n % 10)]
  }

  /** Python's `f"{n:02d}"`: at least two characters, zero-padded after the sign. */
  function Pad2(n: int): string {
    if n < 0 then "-" + DecimalDigits(-n)
    else if n < 10 then "0" + DecimalDigits(n)
    else DecimalDigits(n)
  }

  /** `YouTubeConverter.format_timestamp`. */
  function FormatTimestamp(seconds: real): string {
    Pad2(Minutes(seconds)) + ":" + Pad2(SecondsField(seconds))
  }

  function DigitValue(c: char): nat
    requires IsDigit(c)
  {
    c as int - '0' as int
  }

  /** The value of a string of decimal digits. */
  function DigitsValue(s: string): nat
    requires forall i :: 0 <= i < |s| ==> IsDigit(s[i])
  {
    if s == [] then 0 else DigitsValue(s[..|s| - 1]) * 10 + DigitValue(s[|s| - 1])
  }

  function ParseNat(s: string): Option<nat> {
    if s != [] && forall i :: 0 <= i < |s| ==> IsDigit(s[i]) then Some(DigitsValue(s)) else None
  }

  /**
   * Reads an `M:SS` timestamp back as a whole number of seconds: any number of
   * minute digits, a colon, and exactly two digits of seconds below 60.
   */
  function ParseTimestamp(t: string): Option<int> {
    if |t| < 4 || t[|t| - 3] != ':' then None
    else
      match (ParseNat(t[..|t| - 3]), ParseNat(t[|t| - 2..]))
      case (Some(m), Some(s)) => if s < 60 then Some(m * 60 + s) else None
      case _ => None
  }

  /**
   * The two fields are the whole seconds split into minutes and seconds:
   * the seconds field lies in [0, 59], and minutes·60 + seconds is the floor
   * of the input, read as an exact real.
   */
  lemma TimestampFields(seconds: real)
    ensures 0 <= SecondsField(seconds) <= 59
    ensures Minutes(seconds) * 60 + SecondsField(seconds) == seconds.Floor
    ensures Minutes(seconds) == seconds.Floor / 60 && SecondsField(seconds) == seconds.Floor % 60
    ensures seconds >= 0.0 ==> Minutes(seconds) >= 0
  {
    var m := Minutes(seconds);
    var rest := seconds - 60.0 * m as real;
    assert 0.0 <= rest < 60.0 by {
      assert m as real <= seconds / 60.0 < m as real + 1.0;
    }
    var f := rest.Floor;
    assert f as real <= rest < f as real + 1.0;
    assert (m * 60 + f) as real <= seconds < (m * 60 + f) as real + 1.0;
  }

  lemma {:induction false} DigitsValueOfDecimal(n: nat)
    ensures DigitsValue(DecimalDigits(n)) == n
  {
    if n >= 10 {
      var s := DecimalDigits(n);
      assert s[..|s| - 1] == DecimalDigits(n / 10);
      DigitsValueOfDecimal(n / 10);
    }
  }

  lemma ParsePad2(n: nat)
    ensures ParseNat(Pad2(n)) == Some(n)
    ensures n < 100 ==> |Pad2(n)| == 2
  {
    if n < 10 {
      var s := Pad2(n);
      assert s[..1] == "0" && s[1] == DigitChar(n);
      assert DigitsValue(s[..1]) == 0 by {
        assert s[..1][..0] == [];
      }
    } else {
      DigitsValueOfDecimal(n);
    }
  }

  /** Reading the formatted timestamp of a non-negative number of seconds gives back its whole seconds. */
  lemma FormatParseRoundTrip(seconds: real)
    requires seconds >= 0.0
    ensures ParseTimestamp(FormatTimestamp(seconds)) == Some(seconds.Floor)
  {
    TimestampFields(seconds);
    var m, s := Minutes(seconds), SecondsField(seconds);
    ParsePad2(m);
    ParsePad2(s);
    var t := FormatTimestamp(seconds);
    assert t[..|t| - 3] == Pad2(m);
    assert t[|t| - 2..] == Pad2(s);
  }

  /**
   * Below 100 minutes the timestamp is exactly five characters: two digits,
   * a colon, two digits.
   */
  lemma FormatTimestampShape(seconds: real)
    requires 0.0 <= seconds < 6000.0
    ensures var t := FormatTimestamp(seconds);
      && |t| == 5 && t[2] == ':'
      && IsDigit(t[0]) && IsDigit(t[1]) && IsDigit(t[3]) && IsDigit(t[4])
  {
    TimestampFields(seconds);
    var m, s := Minutes(seconds), SecondsField(seconds);
    assert m < 100 by {
      assert seconds / 60.0 < 100.0;
    }
    ParsePad2(m);
    ParsePad2(s);
  }

  /** 65 seconds are written "01:05". */
  lemma SixtyFiveSeconds()
    ensures FormatTimestamp(65.0) == "01:05"
  {
    TimestampFields(65.0);
    assert Minutes(65.0) == 1 && SecondsField(65.0) == 5;
  }

  // ---------------------------------------------------------------------
  // extract_video_id
  // ---------------------------------------------------------------------

  const WatchPrefix := "youtube.com/watch?v="
  const ShortPrefix := "youtu.be/"
  const EmbedPrefix := "youtube.com/embed/"
  const WatchQuery := "youtube.com/watch?"
  const InvalidUrlMessage := "Invalid YouTube URL"

  /** The character class `[^&\n?#]`. */
  predicate IsIdChar(c: char) {
    c != '&' && c != '\n' && c != '?' && c != '#'
  }

  /** The length of the run of id characters starting at k: what the greedy `[^&\n?#]+` consumes. */
  function IdRun(url: string, k: nat): (n: nat)
    requires k <= |url|
    ensures k + n <= |url|
    ensures forall i :: k <= i < k + n ==> IsIdChar(url[i])
    ensures k + n < |url| ==> !IsIdChar(url[k + n])
    decreases |url| - k
  {
    if k == |url| || !IsIdChar(url[k]) then 0 else 1 + IdRun(url, k + 1)
  }

  predicate HasAt(url: string, p: string, i: nat) {
    i + |p| <= |url| && url[i..i + |p|] == p
  }

  /** The end of the line holding position k: the next newline, or the end of the URL. */
  function LineEnd(url: string, k: nat): (e: nat)
    requires k <= |url|
    ensures k <= e <= |url|
    ensures forall i :: k <= i < e ==> url[i] != '\n'
    ensures e < |url| ==> url[e] == '\n'
    decreases |url| - k
  {
    if k == |url| || url[k] == '\n' then k else LineEnd(url, k + 1)
  }

  /** At j stands `v=` followed by at least one id character. */
  predicate IsVCapture(url: string, j: nat) {
    j + 2 <= |url| && url[j] == 'v' && url[j + 1] == '=' && IdRun(url, j + 2) > 0
  }

  /**
   * Where the fallback's `.*v=` stops: `.*` first takes the whole rest of the
   * line and gives characters back until `v=` and a capture follow, so the
   * last such position in [lo, hi) wins.
   */
  function LastV(url: string, lo: nat, hi: nat): (j: Option<nat>)
    requires lo <= hi <= |url|
    ensures j.Some? ==> lo <= j.value && j.value + 2 <= hi && IsVCapture(url, j.value)
    ensures j.Some? ==> forall k :: j.value < k && k + 2 <= hi ==> !IsVCapture(url, k)
    ensures j.None? ==> forall k :: lo <= k && k + 2 <= hi ==> !IsVCapture(url, k)
    decreases hi - lo
  {
    if hi - lo < 2 then None
    else if IsVCapture(url, hi - 2) then Some(hi - 2)
    else LastV(url, lo, hi - 1)
  }

  datatype Pattern =
    | Direct    // (?:youtube\.com\/watch\?v=|youtu\.be\/|youtube\.com\/embed\/)([^&\n?#]+)
    | Fallback  // youtube\.com\/watch\?.*v=([^&\n?#]+)

  /**
   * Where the group `([^&\n?#]+)` starts when the pattern matches starting
   * exactly at i. The three prefixes of the first pattern are tried in order,
   * falling through when no id character follows a prefix.
   */
  function CaptureStart(p: Pattern, url: string, i: nat): (k: Option<nat>)
    requires i <= |url|
    ensures k.Some? ==> i < k.value <= |url| && IdRun(url, k.value) > 0
  {
    match p
    case Direct =>
      if HasAt(url, WatchPrefix, i) && IdRun(url, i + |WatchPrefix|) > 0 then Some(i + |WatchPrefix|)
      else if HasAt(url, ShortPrefix, i) && IdRun(url, i + |ShortPrefix|) > 0 then Some(i + |ShortPrefix|)
      else if HasAt(url, EmbedPrefix, i) && IdRun(url, i + |EmbedPrefix|) > 0 then Some(i + |EmbedPrefix|)
      else None
    case Fallback =>
      if HasAt(url, WatchQuery, i) then AfterLastV(url, i + |WatchQuery|) else None
  }

  /** The fallback's capture when its `youtube.com/watch?` ends at q: just after the last `v=` of that line that a capture follows. */
  function AfterLastV(url: string, q: nat): (k: Option<nat>)
    requires q <= |url|
    ensures k.Some? ==> q < k.value <= |url| && IdRun(url, k.value) > 0
  {
    match LastV(url, q, LineEnd(url, q))
    case Some(j) => Some(j + 2)
    case None => None
  }

  /**
   * The first pattern matches at i exactly when one of its three literal
   * prefixes stands at i with an id character after it, and the capture then
   * starts right after that prefix. The prefixes differ at their sixth or
   * thirteenth character, so at most one of them stands at i.
   */
  lemma DirectPrefixes(url: string, i: nat)
    requires i <= |url|
    ensures HasAt(url, WatchPrefix, i) && IdRun(url, i + |WatchPrefix|) > 0
      ==> CaptureStart(Direct, url, i) == Some(i + |WatchPrefix|)
    ensures HasAt(url, ShortPrefix, i) && IdRun(url, i + |ShortPrefix|) > 0
      ==> CaptureStart(Direct, url, i) == Some(i + |ShortPrefix|)
    ensures HasAt(url, EmbedPrefix, i) && IdRun(url, i + |EmbedPrefix|) > 0
      ==> CaptureStart(Direct, url, i) == Some(i + |EmbedPrefix|)
    ensures CaptureStart(Direct, url, i).Some? ==>
      || (HasAt(url, WatchPrefix, i) && IdRun(url, i + |WatchPrefix|) > 0)
      || (HasAt(url, ShortPrefix, i) && IdRun(url, i + |ShortPrefix|) > 0)
      || (HasAt(url, EmbedPrefix, i) && IdRun(url, i + |EmbedPrefix|) > 0)
  {
    if HasAt(url, ShortPrefix, i) {
      assert url[i..i + |ShortPrefix|][5] == url[i + 5];
      MismatchAt(url, WatchPrefix, i, 5);
    }
    if HasAt(url, EmbedPrefix, i) {
      assert url[i..i + |EmbedPrefix|][12] == url[i + 12];
      assert url[i..i + |EmbedPrefix|][5] == url[i + 5];
      MismatchAt(url, WatchPrefix, i, 12);
      MismatchAt(url, ShortPrefix, i, 5);
    }
  }

  /** `match.group(1)` when the pattern matches starting exactly at i: the whole run of id characters. */
  function MatchAt(p: Pattern, url: string, i: nat): (id: Option<string>)
    requires i <= |url|
    ensures id.Some? ==> |id.value| > 0 && forall k :: 0 <= k < |id.value| ==> IsIdChar(id.value[k])
  {
    match CaptureStart(p, url, i)
    case Some(k) => Some(url[k..k + IdRun(url, k)])
    case None => None
  }

  /** `re.search`: the leftmost position from `from` on where the pattern matches. */
  function FirstMatch(p: Pattern, url: string, from: nat): (pos: Option<nat>)
    requires from <= |url|
    ensures pos.Some? ==> from <= pos.value <= |url| && MatchAt(p, url, pos.value).Some?
    ensures pos.Some? ==> forall k :: from <= k < pos.value ==> MatchAt(p, url, k).None?
    ensures pos.None? ==> forall k :: from <= k <= |url| ==> MatchAt(p, url, k).None?
    decreases |url| - from
  {
    if MatchAt(p, url, from).Some? then Some(from)
    else if from == |url| then None
    else FirstMatch(p, url, from + 1)
  }

  /** `YouTubeConverter.extract_video_id`: the first pattern's leftmost match, else the fallback's, else ValueError. */
  function ExtractVideoId(url: string): Result<string, string> {
    match FirstMatch(Direct, url, 0)
    case Some(i) => Success(MatchAt(Direct, url, i).value)
    case None =>
      match FirstMatch(Fallback, url, 0)
      case Some(i) => Success(MatchAt(Fallback, url, i).value)
      case None => Failure(InvalidUrlMessage)
  }

  /** id stands in url at position k. */
  predicate OccursAt(id: string, url: string, k: nat) {
    k + |id| <= |url| && url[k..k + |id|] == id
  }

  /** A returned id is not empty, holds none of `&`, `?`, `#` and newline, and is a piece of the URL. */
  lemma VideoIdShape(url: string)
    ensures var r := ExtractVideoId(url);
      r.Success? ==>
        && |r.value| > 0
        && (forall k :: 0 <= k < |r.value| ==> IsIdChar(r.value[k]))
        && exists k :: OccursAt(r.value, url, k)
  {
    var r := ExtractVideoId(url);
    if r.Success? {
      var p := if FirstMatch(Direct, url, 0).Some? then Direct else Fallback;
      var i := FirstMatch(p, url, 0).value;
      var k := CaptureStart(p, url, i).value;
      assert OccursAt(r.value, url, k);
    }
  }

  /** The first pattern wins wherever it matches: its leftmost match gives the id. */
  lemma DirectMatchFirst(url: string, i: nat)
    requires i <= |url| && MatchAt(Direct, url, i).Some?
    requires forall k :: 0 <= k < i ==> MatchAt(Direct, url, k).None?
    ensures ExtractVideoId(url) == Success(MatchAt(Direct, url, i).value)
  {
    assert FirstMatch(Direct, url, 0) == Some(i);
  }

  /** The fallback pattern's leftmost match is used when the first pattern matches nowhere. */
  lemma FallbackMatchSecond(url: string, i: nat)
    requires forall k :: 0 <= k <= |url| ==> MatchAt(Direct, url, k).None?
    requires i <= |url| && MatchAt(Fallback, url, i).Some?
    requires forall k :: 0 <= k < i ==> MatchAt(Fallback, url, k).None?
    ensures ExtractVideoId(url) == Success(MatchAt(Fallback, url, i).value)
  {
    assert FirstMatch(Direct, url, 0).None?;
    assert FirstMatch(Fallback, url, 0) == Some(i);
  }

  /** The URL is rejected with "Invalid YouTube URL" exactly when neither pattern matches anywhere. */
  lemma InvalidUrl(url: string)
    ensures ExtractVideoId(url) == Failure(InvalidUrlMessage) <==>
              forall k :: 0 <= k <= |url| ==> MatchAt(Direct, url, k).None? && MatchAt(Fallback, url, k).None?
  {
    if FirstMatch(Direct, url, 0).Some? {
      var i := FirstMatch(Direct, url, 0).value;
      assert MatchAt(Direct, url, i).Some?;
    } else if FirstMatch(Fallback, url, 0).Some? {
      var i := FirstMatch(Fallback, url, 0).value;
      assert MatchAt(Fallback, url, i).Some?;
    }
  }

  /**
   * The fallback pattern captures after the last `v=` of the line that
   * starts at its `youtube.com/watch?`: every later `v=` on that line is
   * followed by no id character.
   */
  lemma FallbackTakesLastV(url: string, i: nat)
    requires i <= |url| && CaptureStart(Fallback, url, i).Some?
    ensures var q := i + |WatchQuery|;
      var e := LineEnd(url, q);
      var k := CaptureStart(Fallback, url, i).value;
      && q + 2 <= k <= e && url[k - 2] == 'v' && url[k - 1] == '='
      && forall j :: k - 2 < j && j + 2 <= e ==> !IsVCapture(url, j)
  {
    var q := i + |WatchQuery|;
    assert CaptureStart(Fallback, url, i) == AfterLastV(url, q);
    AfterLastVSpec(url, q);
  }

  lemma AfterLastVSpec(url: string, q: nat)
    requires q <= |url| && AfterLastV(url, q).Some?
    ensures var e := LineEnd(url, q);
      var k := AfterLastV(url, q).value;
      && q + 2 <= k <= e && url[k - 2] == 'v' && url[k - 1] == '='
      && forall j :: k - 2 < j && j + 2 <= e ==> !IsVCapture(url, j)
  {
    var e := LineEnd(url, q);
    var j := LastV(url, q, e).value;
    assert AfterLastV(url, q) == Some(j + 2);
  }

  lemma NotAt(url: string, p: string, i: nat)
    requires |p| > 0 && i <= |url| && (i == |url| || url[i] != p[0])
    ensures !HasAt(url, p, i)
  {
    if i + |p| <= |url| {
      assert url[i..i + |p|][0] == url[i];
    }
  }

  lemma MismatchAt(url: string, p: string, i: nat, d: nat)
    requires d < |p| && i + d < |url| && url[i + d] != p[d]
    ensures !HasAt(url, p, i)
  {
    if i + |p| <= |url| {
      assert url[i..i + |p|][d] == url[i + d];
    }
  }

  /** No match of the first pattern starts after position 0 when no 'y' follows it. */
  lemma DirectOnlyAtStart(url: string)
    requires forall k :: 1 <= k < |url| ==> url[k] != 'y'
    ensures forall k :: 1 <= k <= |url| ==> MatchAt(Direct, url, k).None?
  {
    assert WatchPrefix[0] == 'y' && ShortPrefix[0] == 'y' && EmbedPrefix[0] == 'y';
    forall k | 1 <= k <= |url| ensures MatchAt(Direct, url, k).None? {
      NotAt(url, WatchPrefix, k);
      NotAt(url, ShortPrefix, k);
      NotAt(url, EmbedPrefix, k);
    }
  }

  lemma YOnlyAtStart(url: string)
    requires url == "youtube.com/watch?feature=x&v=ID" || url == "youtube.com/watch?v=&v=A&v=B"
    ensures forall k :: 1 <= k < |url| ==> url[k] != 'y'
  {
  }

  /** A short link stops at the query: "youtu.be/abc?t=1" gives "abc". */
  lemma ShortLinkExample()
    ensures ExtractVideoId("youtu.be/abc?t=1") == Success("abc")
  {
    var url := "youtu.be/abc?t=1";
    assert !HasAt(url, WatchPrefix, 0);
    assert url[0..|ShortPrefix|] == ShortPrefix;
    assert IdRun(url, 12) == 0;
    assert IdRun(url, 9) == 3;
    assert CaptureStart(Direct, url, 0) == Some(9);
    assert url[9..12] == "abc";
    DirectMatchFirst(url, 0);
  }

  /** An embed link: "youtube.com/embed/XYZ?rel=0" gives "XYZ". */
  lemma EmbedLinkExample()
    ensures ExtractVideoId("youtube.com/embed/XYZ?rel=0") == Success("XYZ")
  {
    var url := "youtube.com/embed/XYZ?rel=0";
    assert url[0..|EmbedPrefix|] == EmbedPrefix;
    assert IdRun(url, 21) == 0;
    assert IdRun(url, 18) == 3;
    DirectPrefixes(url, 0);
    assert url[18..21] == "XYZ";
    DirectMatchFirst(url, 0);
  }

  /** A watch link stops at the next parameter: "youtube.com/watch?v=ID&list=x" gives "ID". */
  lemma WatchLinkExample()
    ensures ExtractVideoId("youtube.com/watch?v=ID&list=x") == Success("ID")
  {
    var url := "youtube.com/watch?v=ID&list=x";
    assert url[0..|WatchPrefix|] == WatchPrefix;
    assert IdRun(url, 22) == 0;
    assert IdRun(url, 20) == 2;
    assert CaptureStart(Direct, url, 0) == Some(20);
    assert url[20..22] == "ID";
    DirectMatchFirst(url, 0);
  }

  /** With `v` not the first parameter only the fallback matches: "youtube.com/watch?feature=x&v=ID" gives "ID". */
  lemma LaterParameterExample()
    ensures ExtractVideoId("youtube.com/watch?feature=x&v=ID") == Success("ID")
  {
    var url := "youtube.com/watch?feature=x&v=ID";
    LaterParameterNoDirect(url);
    LaterParameterFallback(url);
    FallbackMatchSecond(url, 0);
  }

  lemma LaterParameterNoDirect(url: string)
    requires url == "youtube.com/watch?feature=x&v=ID"
    ensures forall k :: 0 <= k <= |url| ==> MatchAt(Direct, url, k).None?
  {
    MismatchAt(url, WatchPrefix, 0, 18);
    MismatchAt(url, ShortPrefix, 0, 5);
    MismatchAt(url, EmbedPrefix, 0, 12);
    assert MatchAt(Direct, url, 0).None?;
    YOnlyAtStart(url);
    DirectOnlyAtStart(url);
  }

  lemma LaterParameterFallback(url: string)
    requires url == "youtube.com/watch?feature=x&v=ID"
    ensures MatchAt(Fallback, url, 0) == Some("ID")
  {
    assert url[0..|WatchQuery|] == WatchQuery;
    assert LineEnd(url, 18) == |url|;
    assert IdRun(url, 32) == 0 && IdRun(url, 30) == 2;
    assert !IsVCapture(url, 30) && !IsVCapture(url, 29) && IsVCapture(url, 28);
    assert LastV(url, 18, 32) == Some(28);
    assert CaptureStart(Fallback, url, 0) == Some(30);
    assert url[30..32] == "ID";
  }

  /** The greedy `.*` of the fallback takes the last usable `v=` of the line: "youtube.com/watch?v=&v=A&v=B" gives "B". */
  lemma LastVExample()
    ensures ExtractVideoId("youtube.com/watch?v=&v=A&v=B") == Success("B")
  {
    var url := "youtube.com/watch?v=&v=A&v=B";
    LastVNoDirect(url);
    LastVFallback(url);
    FallbackMatchSecond(url, 0);
  }

  lemma LastVNoDirect(url: string)
    requires url == "youtube.com/watch?v=&v=A&v=B"
    ensures forall k :: 0 <= k <= |url| ==> MatchAt(Direct, url, k).None?
  {
    assert url[0..|WatchPrefix|] == WatchPrefix;
    assert IdRun(url, 20) == 0;
    MismatchAt(url, ShortPrefix, 0, 5);
    MismatchAt(url, EmbedPrefix, 0, 12);
    assert MatchAt(Direct, url, 0).None?;
    YOnlyAtStart(url);
    DirectOnlyAtStart(url);
  }

  lemma LastVFallback(url: string)
    requires url == "youtube.com/watch?v=&v=A&v=B"
    ensures MatchAt(Fallback, url, 0) == Some("B")
  {
    assert url[0..|WatchQuery|] == WatchQuery;
    assert LineEnd(url, 18) == |url|;
    assert IdRun(url, 28) == 0 && IdRun(url, 27) == 1;
    assert IsVCapture(url, 25);
    assert LastV(url, 18, 28) == Some(25);
    assert CaptureStart(Fallback, url, 0) == Some(27);
    assert url[27..28] == "B";
  }
}
