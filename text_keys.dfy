/** The string work done by the column extractors: turning the text of a
    table cell into a numeric sort key. */
module TextKeys {

  datatype Option<T> = None | Some(value: T)

  /** JavaScript's `\d` (no `u` flag): the ASCII digits only. */
  predicate IsDigit(c: char) {
    '0' <= c <= '9'
  }

  predicate AllDigits(s: string) {
    forall i :: 0 <= i < |s| ==> IsDigit(s[i])
  }

  predicate NoDigits(s: string) {
    forall i :: 0 <= i < |s| ==> !IsDigit(s[i])
  }

  function DigitValue(c: char): (d: nat)
    requires IsDigit(c)
    ensures d <= 9
  {
    (c as int) - ('0' as int)
  }

  function DigitChar(d: nat): (c: char)
    requires d <= 9
    ensures IsDigit(c) && DigitValue(c) == d
  {
    ('0' as int + d) as char
  }

  function Pow10(k: nat): (p: nat)
    ensures p >= 1
  {
    if k == 0 then 1 else 10 * Pow10(k - 1)
  }

  // ------------------------------------------------------------------
  // text.replace(/\D+/g, '')

  /** The text with every run of non-digits deleted: its digits, in order. */
  function StripNonDigits(s: string): (r: string)
    ensures AllDigits(r)
    ensures |r| <= |s|
    ensures AllDigits(s) ==> r == s
    ensures NoDigits(s) ==> r == []
  {
    if s == [] then []
    else if IsDigit(s[0]) then [s[0]] + StripNonDigits(s[1..])
    else StripNonDigits(s[1..])
  }

  /** Deleting the non-digits of a concatenation deletes them piece by piece,
      so the result is exactly the subsequence of digits. */
  lemma {:induction false} StripConcat(a: string, b: string)
    ensures StripNonDigits(a + b) == StripNonDigits(a) + StripNonDigits(b)
    decreases |a|
  {
    if a == [] {
      assert a + b == b;
    } else {
      assert (a + b)[0] == a[0];
      assert (a + b)[1..] == a[1..] + b;
      StripConcat(a[1..], b);
    }
  }

  // ------------------------------------------------------------------
  // string * 1, on a string of digits

  /** The decimal value of a digit string; the empty string reads as 0
      (`'' * 1`) and leading zeros are ignored. */
  function DecimalValue(d: string): (n: nat)
    requires AllDigits(d)
    ensures n < Pow10(|d|)
  {
    if d == [] then 0
    else
      var m := DecimalValue(d[..|d| - 1]);
      assert m + 1 <= Pow10(|d| - 1);
      assert (m + 1) * 10 <= Pow10(|d| - 1) * 10;
      m * 10 + DigitValue(d[|d| - 1])
  }

  /** The canonical decimal rendering of a number: the partner of DecimalValue. */
  function ToDecimal(n: nat): (s: string)
    ensures AllDigits(s) && |s| >= 1
    ensures n >= 10 ==> s[0] != '0'
  {
    if n < 10 then [DigitChar(n)] else ToDecimal(n / 10) + [DigitChar(n % 10)]
  }

  lemma {:induction false} DecimalRoundTrip(n: nat)
    ensures DecimalValue(ToDecimal(n)) == n
  {
    if n >= 10 {
      var s := ToDecimal(n);
      assert s[..|s| - 1] == ToDecimal(n / 10);
      DecimalRoundTrip(n / 10);
    }
  }

  lemma ShiftByOneDigit(x: nat, p: nat, y: nat, d: nat)
    ensures (x * p + y) * 10 + d == x * (10 * p) + (y * 10 + d)
  {
    assert (x * p) * 10 == x * (10 * p);
  }

  /** Reading the digits of `a` followed by those of `b` shifts `a` left by |b| places. */
  lemma {:induction false} DecimalConcat(a: string, b: string)
    requires AllDigits(a) && AllDigits(b)
    ensures AllDigits(a + b)
    ensures DecimalValue(a + b) == DecimalValue(a) * Pow10(|b|) + DecimalValue(b)
    decreases |b|
  {
    assert AllDigits(a + b) by {
      forall i | 0 <= i < |a + b| ensures IsDigit((a + b)[i]) {
        if i >= |a| { assert (a + b)[i] == b[i - |a|]; }
      }
    }
    if b == [] {
      assert a + b == a;
    } else {
      var b' := b[..|b| - 1];
      var last := b[|b| - 1];
      assert (a + b)[..|a + b| - 1] == a + b';
      assert (a + b)[|a + b| - 1] == last;
      DecimalConcat(a, b');
      assert DecimalValue(a + b) == DecimalValue(a + b') * 10 + DigitValue(last);
      assert DecimalValue(b) == DecimalValue(b') * 10 + DigitValue(last);
      ShiftByOneDigit(DecimalValue(a), Pow10(|b'|), DecimalValue(b'), DigitValue(last));
    }
  }

  // ------------------------------------------------------------------
  // The digit-stripping extractors: text.replace(/\D+/g, '') * 1

  /** The sort key of a count cell (track position, listeners, plays). */
  function CountValue(text: string): (n: nat)
    ensures NoDigits(text) ==> n == 0
    ensures AllDigits(text) ==> n == DecimalValue(text)
  {
    DecimalValue(StripNonDigits(text))
  }

  /** Separators (commas, spaces, words) anywhere in a count cell do not change its key. */
  lemma SeparatorsIgnored(a: string, sep: string, b: string)
    requires NoDigits(sep)
    ensures CountValue(a + sep + b) == CountValue(a + b)
  {
    StripConcat(a + sep, b);
    StripConcat(a, sep);
    StripConcat(a, b);
    assert StripNonDigits(sep) == [];
    assert StripNonDigits(a + sep) == StripNonDigits(a);
  }

  /** A number rendered as digits reads back as itself. */
  lemma CountOfRendered(n: nat)
    ensures CountValue(ToDecimal(n)) == n
  {
    DecimalRoundTrip(n);
  }

  /** Digits, separator, digits, trailing words: the separator and the words drop out. */
  lemma GroupedCount(hi: string, sep: string, lo: string, words: string)
    requires AllDigits(hi) && NoDigits(sep) && AllDigits(lo) && NoDigits(words)
    ensures StripNonDigits(hi + sep + lo + words) == hi + lo
  {
    StripConcat(hi + sep + lo, words);
    StripConcat(hi + sep, lo);
    StripConcat(hi, sep);
  }

  lemma ListenersDigits(text: string)
    requires text == "1" + "," + "234" + " listeners"
    ensures StripNonDigits(text) == "1234"
  {
    assert AllDigits("1") && AllDigits("234");
    assert NoDigits(",") && NoDigits(" listeners");
    GroupedCount("1", ",", "234", " listeners");
  }

  lemma ValueOf1234(d: string)
    requires d == "1234"
    ensures DecimalValue(d) == 1234
  {
    var d3 := d[..3];
    var d2 := d3[..2];
    var d1 := d2[..1];
    assert d1 == "1" && d2 == "12" && d3 == "123";
    assert d1[..0] == [];
    assert DecimalValue(d1) == 1;
    assert DecimalValue(d2) == 12;
    assert DecimalValue(d3) == 123;
  }

  /** The listener cell "1,234 listeners" sorts as 1234. */
  lemma ListenersExample(text: string)
    requires text == "1,234 listeners"
    ensures CountValue(text) == 1234
  {
    assert text == "1" + "," + "234" + " listeners";
    ListenersDigits(text);
    ValueOf1234(StripNonDigits(text));
  }

  // ------------------------------------------------------------------
  // text.match(/(\d+):(\d+)/)

  /** The end of the maximal run of digits starting at `i`. */
  function RunEnd(s: string, i: nat): (k: nat)
    requires i <= |s|
    ensures i <= k <= |s|
    ensures forall m :: i <= m < k ==> IsDigit(s[m])
    ensures k == |s| || !IsDigit(s[k])
    decreases |s| - i
  {
    if i < |s| && IsDigit(s[i]) then RunEnd(s, i + 1) else i
  }

  /** The start of the maximal run of digits ending just before `j`. */
  function RunStart(s: string, j: nat): (k: nat)
    requires j <= |s|
    ensures k <= j
    ensures forall m :: k <= m < j ==> IsDigit(s[m])
    ensures k == 0 || !IsDigit(s[k - 1])
  {
    if j > 0 && IsDigit(s[j - 1]) then RunStart(s, j - 1) else j
  }

  /** The pattern matches starting at `i`: the colon follows the whole run
      of digits that starts at `i` (MatchesAtIsPattern proves this is where
      the pattern itself matches). */
  predicate MatchesAt(s: string, i: nat): (b: bool)
    ensures b <==> i < |s| && IsDigit(s[i]) && IsTimeColon(s, RunEnd(s, i))
  {
    i < |s| && IsDigit(s[i]) &&
    var j := RunEnd(s, i);
    j + 1 < |s| && s[j] == ':' && IsDigit(s[j + 1])
  }

  /** What `(\d+):(\d+)` means at `i`, read off the pattern itself: some
      non-empty digits, a colon, some non-empty digits. Every way the engine
      can match from `i`, backtracking included, is one choice of `k` and `l`. */
  ghost predicate PatternAt(s: string, i: nat) {
    exists k, l :: PatternSplit(s, i, k, l)
  }

  /** The pattern matches `s[i..l]` with its colon at `k`. */
  predicate PatternSplit(s: string, i: nat, k: nat, l: nat) {
    i < k && k + 1 < l <= |s| &&
    AllDigits(s[i..k]) && s[k] == ':' && AllDigits(s[k + 1..l])
  }

  /** A colon that ends a run of digits from `i` is where the greedy run
      from `i` stops: the engine has no other split to backtrack to. */
  lemma {:induction false} SplitIsRunEnd(s: string, i: nat, k: nat)
    requires i < k < |s| && AllDigits(s[i..k]) && s[k] == ':'
    ensures k == RunEnd(s, i)
    decreases k - i
  {
    assert IsDigit(s[i..k][0]);
    if i + 1 < k {
      assert s[i + 1..k] == s[i..k][1..];
      SplitIsRunEnd(s, i + 1, k);
    }
  }

  /** `MatchesAt` is exactly where the pattern matches. */
  lemma MatchesAtIsPattern(s: string, i: nat)
    ensures PatternAt(s, i) <==> MatchesAt(s, i)
  {
    if PatternAt(s, i) {
      var k: nat, l: nat :| PatternSplit(s, i, k, l);
      SplitIsRunEnd(s, i, k);
      assert IsDigit(s[i..k][0]) && IsDigit(s[k + 1..l][0]);
    }
    if MatchesAt(s, i) {
      var k := RunEnd(s, i);
      assert PatternSplit(s, i, k, k + 2);
    }
  }

  /** The leftmost position at or after `i` where the pattern matches. */
  function LeftmostMatch(s: string, i: nat): (p: Option<nat>)
    requires i <= |s|
    ensures p.Some? ==> i <= p.value && MatchesAt(s, p.value)
    ensures forall q :: i <= q && (p.None? || q < p.value) ==> !MatchesAt(s, q)
    decreases |s| - i
  {
    if i == |s| then None
    else if MatchesAt(s, i) then Some(i)
    else LeftmostMatch(s, i + 1)
  }

  /** The two capture groups of a successful match. */
  datatype TimeGroups = TimeGroups(minutes: string, seconds: string)

  /** `text.match(/(\d+):(\d+)/)`, with None for `null`. */
  function MatchTime(s: string): (m: Option<TimeGroups>)
    ensures m.Some? ==> AllDigits(m.value.minutes) && m.value.minutes != []
    ensures m.Some? ==> AllDigits(m.value.seconds) && m.value.seconds != []
  {
    match LeftmostMatch(s, 0)
    case None => None
    case Some(i) =>
      var j := RunEnd(s, i);
      Some(TimeGroups(s[i..j], s[j + 1..RunEnd(s, j + 1)]))
  }

  /** A colon with a digit on each side. */
  predicate IsTimeColon(s: string, j: nat) {
    0 < j && j + 1 < |s| && s[j] == ':' && IsDigit(s[j - 1]) && IsDigit(s[j + 1])
  }

  /** The first colon at or after `j` with a digit on each side. */
  function FirstTimeColon(s: string, j: nat): (p: Option<nat>)
    requires j <= |s|
    ensures p.Some? ==> j <= p.value && IsTimeColon(s, p.value)
    ensures forall q :: j <= q && (p.None? || q < p.value) ==> !IsTimeColon(s, q)
    decreases |s| - j
  {
    if j == |s| then None
    else if IsTimeColon(s, j) then Some(j)
    else FirstTimeColon(s, j + 1)
  }

  /** The reading of a duration without the regular-expression engine: the
      first colon with digits on both sides splits the text, the minutes are
      the whole run of digits before it and the seconds the whole run after it. */
  function TimeAroundColon(s: string): (m: Option<TimeGroups>) {
    match FirstTimeColon(s, 0)
    case None => None
    case Some(j) => Some(TimeGroups(s[RunStart(s, j)..j], s[j + 1..RunEnd(s, j + 1)]))
  }

  lemma MatchEndsAtTimeColon(s: string, i: nat)
    requires MatchesAt(s, i)
    ensures IsTimeColon(s, RunEnd(s, i))
  {
    var j := RunEnd(s, i);
    assert i < j;
    assert IsDigit(s[j - 1]);
  }

  lemma TimeColonStartsMatch(s: string, j: nat)
    requires IsTimeColon(s, j)
    ensures RunStart(s, j) < j
    ensures MatchesAt(s, RunStart(s, j)) && RunEnd(s, RunStart(s, j)) == j
  {
    var i := RunStart(s, j);
    assert i != j;
  }

  /** The regular expression finds exactly the first colon with digits on
      both sides, and its first group is the whole run of digits before it. */
  lemma MatchTimeIsFirstTimeColon(s: string)
    ensures MatchTime(s) == TimeAroundColon(s)
  {
    match FirstTimeColon(s, 0) {
      case None =>
      case Some(j) =>
        var i := RunStart(s, j);
        TimeColonStartsMatch(s, j);
        var p := LeftmostMatch(s, 0).value;
        MatchEndsAtTimeColon(s, p);
    }
  }

  // ------------------------------------------------------------------
  // extract_duration: duration[1] * 60 + duration[2] * 1

  /** The sort key of a duration cell in seconds; None where the source
      dereferences a `null` match and throws. */
  function DurationValue(text: string): (n: Option<nat>)
    ensures n.None? <==> FirstTimeColon(text, 0).None?
  {
    MatchTimeIsFirstTimeColon(text);
    match MatchTime(text)
    case None => None
    case Some(g) => Some(DecimalValue(g.minutes) * 60 + DecimalValue(g.seconds))
  }

  /** `minutes:seconds` written out reads back as its two groups. */
  lemma TimeAroundColonOf(mm: string, ss: string)
    requires AllDigits(mm) && mm != [] && AllDigits(ss) && ss != []
    ensures TimeAroundColon(mm + ":" + ss) == Some(TimeGroups(mm, ss))
  {
    var text := mm + ":" + ss;
    var j := |mm|;
    assert text[..j] == mm && text[j + 1..] == ss;
    assert IsTimeColon(text, j);
    forall q | 0 <= q < j ensures !IsTimeColon(text, q) {
      assert text[q] == mm[q];
    }
    assert FirstTimeColon(text, 0) == Some(j);
    var k := RunStart(text, j);
    assert k == 0;
    var e := RunEnd(text, j + 1);
    assert e == |text|;
    assert text[0..j] == mm && text[j + 1..|text|] == ss;
  }

  lemma DurationFromGroups(text: string, mm: string, ss: string)
    requires AllDigits(mm) && AllDigits(ss)
    requires TimeAroundColon(text) == Some(TimeGroups(mm, ss))
    ensures DurationValue(text) == Some(DecimalValue(mm) * 60 + DecimalValue(ss))
  {
    MatchTimeIsFirstTimeColon(text);
  }

  /** A rendered `m:ss` reads back as m * 60 + ss. */
  lemma DurationOfRendered(m: nat, sec: nat)
    requires sec < 60
    ensures DurationValue(ToDecimal(m) + ":" + PadTwo(sec)) == Some(m * 60 + sec)
  {
    var mm, ss := ToDecimal(m), PadTwo(sec);
    DecimalRoundTrip(m);
    PadTwoValue(sec);
    DurationOfGroups(mm, ss);
  }

  /** The text `mm:ss` for digit groups mm and ss reads as mm * 60 + ss. */
  lemma DurationOfGroups(mm: string, ss: string)
    requires AllDigits(mm) && mm != [] && AllDigits(ss) && ss != []
    ensures DurationValue(mm + ":" + ss) == Some(DecimalValue(mm) * 60 + DecimalValue(ss))
  {
    TimeAroundColonOf(mm, ss);
    DurationFromGroups(mm + ":" + ss, mm, ss);
  }

  /** Seconds as a chart shows them: at least two digits. */
  function PadTwo(sec: nat): (s: string)
    ensures AllDigits(s) && |s| >= 2
  {
    var d := ToDecimal(sec);
    if sec < 10 then DecimalConcat("0", d); "0" + d else d
  }

  lemma PadTwoValue(sec: nat)
    ensures DecimalValue(PadTwo(sec)) == sec
  {
    DecimalRoundTrip(sec);
    if sec < 10 {
      DecimalConcat("0", ToDecimal(sec));
    }
  }

  lemma DurationExample()
    ensures DurationValue("3:05") == Some(185)
  {
    DurationOfRendered(3, 5);
    assert ToDecimal(3) + ":" + PadTwo(5) == "3:05";
  }

  lemma DurationExampleTwoMinutes()
    ensures DurationValue("2:00") == Some(120)
  {
    DurationOfRendered(2, 0);
    assert ToDecimal(2) + ":" + PadTwo(0) == "2:00";
  }

  lemma DurationExampleFourTen()
    ensures DurationValue("4:10") == Some(250)
  {
    DurationOfRendered(4, 10);
    assert ToDecimal(10) == ToDecimal(1) + [DigitChar(0)];
    assert ToDecimal(4) + ":" + PadTwo(10) == "4:10";
  }
}
