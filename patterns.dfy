/**
 * The regular expressions of parser.rb, each as a matcher over characters that returns the
 * capture groups of a match. Every matcher is sound (a result is a decomposition of the text into
 * parts the pattern accepts, given by the pattern's `...Text` function) and complete (the text of
 * any such parts is matched with exactly those groups). All patterns are anchored at both ends
 * (`\A ... \Z`); the parsers strip the text first, so `\Z` never meets a final line break.
 */
module Patterns {
  import opened Outcomes
  import opened Text

  /** `[\\\/\.-]` */
  predicate IsDateSep(c: char) { c == '\\' || c == '/' || c == '.' || c == '-' }

  /** `[\. :]` */
  predicate IsTimeSep(c: char) { c == '.' || c == ' ' || c == ':' }

  /** `\d{lo,hi}` */
  predicate DigitsOfLength(s: string, lo: nat, hi: nat) { lo <= |s| <= hi && AllDigits(s) }

  /** `(\d{2}|\d{4})` */
  predicate IsYearText(y: string) { AllDigits(y) && (|y| == 2 || |y| == 4) }

  /** `\w{3,9}` */
  predicate IsMonthWord(w: string) { 3 <= |w| <= 9 && AllWordChars(w) }

  /** `\s?` */
  predicate IsOptionalSpace(g: string) { |g| <= 1 && Blank(g) }

  /** The end of the longest run of characters satisfying `p` that starts at `i`. */
  function RunEnd(s: string, i: nat, p: char -> bool): (j: nat)
    requires i <= |s|
    ensures i <= j <= |s|
    ensures forall k :: i <= k < j ==> p(s[k])
    ensures j == |s| || !p(s[j])
    decreases |s| - i
  {
    if i == |s| || !p(s[i]) then i else RunEnd(s, i + 1, p)
  }

  /** A run is determined by where it stops. */
  lemma RunEndAt(s: string, i: nat, j: nat, p: char -> bool)
    requires i <= j <= |s|
    requires forall k :: i <= k < j ==> p(s[k])
    requires j == |s| || !p(s[j])
    ensures RunEnd(s, i, p) == j
  {
  }

  /** A run over `part` stops where `part` ends when the next character does not continue it. */
  lemma RunEndOfPart(pre: string, part: string, post: string, p: char -> bool)
    requires forall k :: 0 <= k < |part| ==> p(part[k])
    requires post == [] || !p(post[0])
    ensures RunEnd(pre + part + post, |pre|, p) == |pre| + |part|
  {
    var s := pre + part + post;
    forall k | |pre| <= k < |pre| + |part| ensures p(s[k]) {
      assert s[k] == part[k - |pre|];
    }
    if post != [] {
      assert s[|pre| + |part|] == post[0];
    }
    RunEndAt(s, |pre|, |pre| + |part|, p);
  }

  /** The text of a digit run is all digits. */
  lemma DigitRun(s: string, i: nat)
    requires i <= |s|
    ensures AllDigits(s[i..RunEnd(s, i, IsDigit)])
    ensures RunEnd(s, i, IsDigit) == |s| ==> AllDigits(s[i..])
  {
    var j := RunEnd(s, i, IsDigit);
    forall k | 0 <= k < j - i ensures IsDigit(s[i..j][k]) {
      assert s[i..j][k] == s[i + k];
    }
    if j == |s| {
      assert s[i..j] == s[i..];
    }
  }

  /** The text of a word-character run is all word characters. */
  lemma WordRun(s: string, i: nat)
    requires i <= |s|
    ensures AllWordChars(s[i..RunEnd(s, i, IsWordChar)])
  {
    var j := RunEnd(s, i, IsWordChar);
    forall k | 0 <= k < j - i ensures IsWordChar(s[i..j][k]) {
      assert s[i..j][k] == s[i + k];
    }
  }

  // ---------------------------------------------------------------------------------------------
  // Date patterns

  /** `(\d{1,2})[\\\/\.-](\d{1,2})[\\\/\.-](\d{2}|\d{4})`, as in 22/1/06, 22\1\06 or 22.1.06. */
  predicate NumericDateParts(a: string, c1: char, b: string, c2: char, y: string)
  {
    DigitsOfLength(a, 1, 2) && IsDateSep(c1) && DigitsOfLength(b, 1, 2) && IsDateSep(c2) && IsYearText(y)
  }

  function NumericDateText(a: string, c1: char, b: string, c2: char, y: string): string
  {
    a + [c1] + b + [c2] + y
  }

  function MatchNumericDate(s: string): Option<(string, string, string)>
  {
    var i := RunEnd(s, 0, IsDigit);
    if 1 <= i <= 2 && i < |s| && IsDateSep(s[i]) then
      var j := RunEnd(s, i + 1, IsDigit);
      if 1 <= j - (i + 1) <= 2 && j < |s| && IsDateSep(s[j]) then
        var k := RunEnd(s, j + 1, IsDigit);
        if k == |s| && (k - (j + 1) == 2 || k - (j + 1) == 4) then
          Some((s[..i], s[i + 1..j], s[j + 1..]))
        else None
      else None
    else None
  }

  /** What the matcher accepts is two short numbers and a year, each followed by a separator but the last. */
  lemma NumericDateSound(s: string)
    ensures MatchNumericDate(s).Some? ==>
      var (a, b, y) := MatchNumericDate(s).value;
      |s| == |a| + |b| + |y| + 2 &&
      NumericDateParts(a, s[|a|], b, s[|a| + 1 + |b|], y) &&
      s == NumericDateText(a, s[|a|], b, s[|a| + 1 + |b|], y)
  {
    if MatchNumericDate(s).Some? {
      var i := RunEnd(s, 0, IsDigit);
      var j := RunEnd(s, i + 1, IsDigit);
      assert MatchNumericDate(s).value == (s[..i], s[i + 1..j], s[j + 1..]);
      DigitRun(s, 0);
      DigitRun(s, i + 1);
      DigitRun(s, j + 1);
      NumericDateLayout(s, i, j);
    }
  }

  /** A text cut at two single characters is the numeric pattern's layout. */
  lemma NumericDateLayout(s: string, i: nat, j: nat)
    requires i < j < |s|
    ensures s == NumericDateText(s[..i], s[i], s[i + 1..j], s[j], s[j + 1..])
  {
    assert s == s[..i] + [s[i]] + s[i + 1..j] + [s[j]] + s[j + 1..];
  }

  lemma NumericDateComplete(a: string, c1: char, b: string, c2: char, y: string)
    requires NumericDateParts(a, c1, b, c2, y)
    ensures MatchNumericDate(NumericDateText(a, c1, b, c2, y)) == Some((a, b, y))
  {
    var s := NumericDateText(a, c1, b, c2, y);
    var i, j := |a|, |a| + 1 + |b|;
    NumericDateRuns(a, c1, b, c2, y);
    assert s[..i] == a && s[i] == c1 && s[i + 1..j] == b && s[j] == c2 && s[j + 1..] == y;
    NumericDateAt(s, i, j);
  }

  lemma NumericDateRuns(a: string, c1: char, b: string, c2: char, y: string)
    requires NumericDateParts(a, c1, b, c2, y)
    ensures var s := NumericDateText(a, c1, b, c2, y);
      RunEnd(s, 0, IsDigit) == |a| && RunEnd(s, |a| + 1, IsDigit) == |a| + 1 + |b| &&
      RunEnd(s, |a| + |b| + 2, IsDigit) == |s|
  {
    var s := NumericDateText(a, c1, b, c2, y);
    var i, j := |a|, |a| + 1 + |b|;
    forall k | 0 <= k < i ensures IsDigit(s[k]) {
      assert s[k] == a[k];
    }
    assert s[i] == c1;
    RunEndAt(s, 0, i, IsDigit);
    forall k | i + 1 <= k < j ensures IsDigit(s[k]) {
      assert s[k] == b[k - (i + 1)];
    }
    assert s[j] == c2;
    RunEndAt(s, i + 1, j, IsDigit);
    forall k | j + 1 <= k < |s| ensures IsDigit(s[k]) {
      assert s[k] == y[k - (j + 1)];
    }
    RunEndAt(s, j + 1, |s|, IsDigit);
  }

  /** The matcher on a text whose digit runs end at i, j and the end of the text. */
  lemma NumericDateAt(s: string, i: nat, j: nat)
    requires 1 <= i <= 2 && i + 1 < j < |s| && j - (i + 1) <= 2 && IsDateSep(s[i]) && IsDateSep(s[j])
    requires RunEnd(s, 0, IsDigit) == i && RunEnd(s, i + 1, IsDigit) == j && RunEnd(s, j + 1, IsDigit) == |s|
    requires |s| - (j + 1) == 2 || |s| - (j + 1) == 4
    ensures MatchNumericDate(s) == Some((s[..i], s[i + 1..j], s[j + 1..]))
  {
  }

  /** `(\d{1,2}) (\w{3,9}) (\d{2}|\d{4})`, as in 22 Feb 06 or 1 jun 2001. */
  predicate DayMonthYearParts(d: string, w: string, y: string)
  {
    DigitsOfLength(d, 1, 2) && IsMonthWord(w) && IsYearText(y)
  }

  function DayMonthYearText(d: string, w: string, y: string): string
  {
    d + " " + w + " " + y
  }

  function MatchDayMonthYear(s: string): Option<(string, string, string)>
  {
    var i := RunEnd(s, 0, IsDigit);
    if 1 <= i <= 2 && i < |s| && s[i] == ' ' then
      var j := RunEnd(s, i + 1, IsWordChar);
      if 3 <= j - (i + 1) <= 9 && j < |s| && s[j] == ' ' then
        var k := RunEnd(s, j + 1, IsDigit);
        if k == |s| && (k - (j + 1) == 2 || k - (j + 1) == 4) then
          Some((s[..i], s[i + 1..j], s[j + 1..]))
        else None
      else None
    else None
  }

  /** What the matcher accepts is a day, a month word and a year, separated by single spaces. */
  lemma DayMonthYearSound(s: string)
    ensures MatchDayMonthYear(s).Some? ==>
      var (d, w, y) := MatchDayMonthYear(s).value;
      DayMonthYearParts(d, w, y) && s == DayMonthYearText(d, w, y)
  {
    if MatchDayMonthYear(s).Some? {
      var i := RunEnd(s, 0, IsDigit);
      var j := RunEnd(s, i + 1, IsWordChar);
      assert MatchDayMonthYear(s).value == (s[..i], s[i + 1..j], s[j + 1..]);
      DigitRun(s, 0);
      WordRun(s, i + 1);
      DigitRun(s, j + 1);
      DayMonthYearLayout(s, i, j);
    }
  }

  /** A text cut at two spaces is the day-month-year layout. */
  lemma DayMonthYearLayout(s: string, i: nat, j: nat)
    requires i < j < |s| && s[i] == ' ' && s[j] == ' '
    ensures s == DayMonthYearText(s[..i], s[i + 1..j], s[j + 1..])
  {
    assert s == s[..i] + " " + s[i + 1..j] + " " + s[j + 1..];
  }

  lemma DayMonthYearComplete(d: string, w: string, y: string)
    requires DayMonthYearParts(d, w, y)
    ensures MatchDayMonthYear(DayMonthYearText(d, w, y)) == Some((d, w, y))
  {
    var s := DayMonthYearText(d, w, y);
    var i, j := |d|, |d| + 1 + |w|;
    DayMonthYearRuns(d, w, y);
    assert s[..i] == d && s[i] == ' ' && s[i + 1..j] == w && s[j] == ' ' && s[j + 1..] == y;
    DayMonthYearAt(s, i, j);
  }

  lemma DayMonthYearRuns(d: string, w: string, y: string)
    requires DayMonthYearParts(d, w, y)
    ensures var s := DayMonthYearText(d, w, y);
      RunEnd(s, 0, IsDigit) == |d| && RunEnd(s, |d| + 1, IsWordChar) == |d| + 1 + |w| &&
      RunEnd(s, |d| + |w| + 2, IsDigit) == |s|
  {
    var s := DayMonthYearText(d, w, y);
    assert s == [] + d + (" " + w + " " + y);
    RunEndOfPart([], d, " " + w + " " + y, IsDigit);
    assert s == (d + " ") + w + (" " + y);
    RunEndOfPart(d + " ", w, " " + y, IsWordChar);
    assert s == (d + " " + w + " ") + y + [];
    RunEndOfPart(d + " " + w + " ", y, [], IsDigit);
  }

  /** The matcher on a text whose runs end at the spaces i and j and at the end of the text. */
  lemma DayMonthYearAt(s: string, i: nat, j: nat)
    requires 1 <= i <= 2 && 3 <= j - (i + 1) <= 9 && j < |s| && s[i] == ' ' && s[j] == ' '
    requires RunEnd(s, 0, IsDigit) == i && RunEnd(s, i + 1, IsWordChar) == j && RunEnd(s, j + 1, IsDigit) == |s|
    requires |s| - (j + 1) == 2 || |s| - (j + 1) == 4
    ensures MatchDayMonthYear(s) == Some((s[..i], s[i + 1..j], s[j + 1..]))
  {
  }

  /** `(\w{3,9}) (\d{1,2})\,? (\d{2}|\d{4})`, as in July 1 2005 or July 1, 2005. */
  predicate MonthDayYearParts(w: string, d: string, y: string)
  {
    IsMonthWord(w) && DigitsOfLength(d, 1, 2) && IsYearText(y)
  }

  /** The optional `\,?` between the day and the space before the year. */
  predicate IsOptionalComma(c: string) { c == [] || c == "," }

  function MonthDayYearText(w: string, d: string, c: string, y: string): string
  {
    w + " " + d + c + " " + y
  }

  function MatchMonthDayYear(s: string): Option<(string, string, string)>
  {
    var i := RunEnd(s, 0, IsWordChar);
    if 3 <= i <= 9 && i < |s| && s[i] == ' ' then
      var j := RunEnd(s, i + 1, IsDigit);
      if 1 <= j - (i + 1) <= 2 then
        var k := if j < |s| && s[j] == ',' then j + 1 else j;
        if k < |s| && s[k] == ' ' then
          var e := RunEnd(s, k + 1, IsDigit);
          if e == |s| && (e - (k + 1) == 2 || e - (k + 1) == 4) then
            Some((s[..i], s[i + 1..j], s[k + 1..]))
          else None
        else None
      else None
    else None
  }

  /**
   * The month word of `s` ends at `i`, the day digits at `j`, and the year starts after the space at
   * `k`; between `j` and `k` there is nothing or a comma.
   */
  predicate MonthDayYearCuts(s: string, i: nat, j: nat, k: nat)
  {
    3 <= i <= 9 && 1 <= j - (i + 1) <= 2 && j <= k < |s| && s[i] == ' ' && s[k] == ' ' &&
    (k == j || (k == j + 1 && s[j] == ',')) &&
    RunEnd(s, 0, IsWordChar) == i && RunEnd(s, i + 1, IsDigit) == j && RunEnd(s, k + 1, IsDigit) == |s| &&
    (|s| - (k + 1) == 2 || |s| - (k + 1) == 4)
  }

  /**
   * What the matcher accepts is a month word, one or two digits and a year, laid out as the pattern
   * says, with nothing or a comma after the day.
   */
  lemma MonthDayYearSound(s: string)
    ensures MatchMonthDayYear(s).Some? ==>
      var (w, d, y) := MatchMonthDayYear(s).value;
      MonthDayYearParts(w, d, y) && |s| >= |w| + |d| + |y| + 2 &&
      var c := s[|w| + 1 + |d|..|s| - |y| - 1];
      IsOptionalComma(c) && s == MonthDayYearText(w, d, c, y)
  {
    if MatchMonthDayYear(s).Some? {
      var i := RunEnd(s, 0, IsWordChar);
      var j := RunEnd(s, i + 1, IsDigit);
      var k := if j < |s| && s[j] == ',' then j + 1 else j;
      assert MonthDayYearCuts(s, i, j, k);
      MonthDayYearCutsSound(s, i, j, k);
    }
  }

  /** Text cut where the matcher cuts it has the pattern's parts and layout. */
  lemma MonthDayYearCutsSound(s: string, i: nat, j: nat, k: nat)
    requires MonthDayYearCuts(s, i, j, k)
    ensures MatchMonthDayYear(s) == Some((s[..i], s[i + 1..j], s[k + 1..]))
    ensures MonthDayYearParts(s[..i], s[i + 1..j], s[k + 1..])
    ensures IsOptionalComma(s[j..k]) && s == MonthDayYearText(s[..i], s[i + 1..j], s[j..k], s[k + 1..])
  {
    MonthDayYearAt(s, i, j, k);
    MonthDayYearCutParts(s, i, j, k);
    MonthDayYearCutLayout(s, i, j, k);
  }

  lemma MonthDayYearCutParts(s: string, i: nat, j: nat, k: nat)
    requires MonthDayYearCuts(s, i, j, k)
    ensures MonthDayYearParts(s[..i], s[i + 1..j], s[k + 1..])
  {
    WordRun(s, 0);
    DigitRun(s, i + 1);
    DigitRun(s, k + 1);
    assert s[0..i] == s[..i];
  }

  lemma MonthDayYearCutLayout(s: string, i: nat, j: nat, k: nat)
    requires MonthDayYearCuts(s, i, j, k)
    ensures IsOptionalComma(s[j..k]) && s == MonthDayYearText(s[..i], s[i + 1..j], s[j..k], s[k + 1..])
  {
    FiveCuts(s, i, j, k);
    if k == j + 1 {
      assert s[j..k] == [s[j]];
    }
  }

  /** A text cut at a space `i`, at `j` and at a space `k` is the concatenation of its five pieces. */
  lemma FiveCuts(s: string, i: nat, j: nat, k: nat)
    requires i < j <= k < |s| && s[i] == ' ' && s[k] == ' '
    ensures s == s[..i] + " " + s[i + 1..j] + s[j..k] + " " + s[k + 1..]
  {
    assert s == s[..i] + s[i..i + 1] + s[i + 1..j] + s[j..k] + s[k..k + 1] + s[k + 1..];
  }

  lemma MonthDayYearComplete(w: string, d: string, c: string, y: string)
    requires MonthDayYearParts(w, d, y) && IsOptionalComma(c)
    ensures MatchMonthDayYear(MonthDayYearText(w, d, c, y)) == Some((w, d, y))
  {
    var s := MonthDayYearText(w, d, c, y);
    var i, j := |w|, |w| + 1 + |d|;
    MonthDayYearCutsOfText(w, d, c, y);
    MonthDayYearAt(s, i, j, j + |c|);
  }

  lemma MonthDayYearCutsOfText(w: string, d: string, c: string, y: string)
    requires MonthDayYearParts(w, d, y) && IsOptionalComma(c)
    ensures var s := MonthDayYearText(w, d, c, y);
      var i, j := |w|, |w| + 1 + |d|;
      MonthDayYearCuts(s, i, j, j + |c|) && s[..i] == w && s[i + 1..j] == d && s[j + |c| + 1..] == y
  {
    MonthDayYearRuns(w, d, c, y);
    MonthDayYearPieces(w, d, c, y);
  }

  lemma MonthDayYearRuns(w: string, d: string, c: string, y: string)
    requires MonthDayYearParts(w, d, y) && IsOptionalComma(c)
    ensures var s := MonthDayYearText(w, d, c, y);
      RunEnd(s, 0, IsWordChar) == |w| && RunEnd(s, |w| + 1, IsDigit) == |w| + 1 + |d| &&
      RunEnd(s, |w| + |d| + |c| + 2, IsDigit) == |s|
  {
    MonthWordRun(w, d, c, y);
    DayRunOfText(w, d, c, y);
    YearRunOfText(w, d, c, y);
  }

  lemma MonthWordRun(w: string, d: string, c: string, y: string)
    requires AllWordChars(w)
    ensures RunEnd(MonthDayYearText(w, d, c, y), 0, IsWordChar) == |w|
  {
    assert MonthDayYearText(w, d, c, y) == [] + w + (" " + d + c + " " + y);
    RunEndOfPart([], w, " " + d + c + " " + y, IsWordChar);
  }

  lemma DayRunOfText(w: string, d: string, c: string, y: string)
    requires AllDigits(d) && IsOptionalComma(c)
    ensures RunEnd(MonthDayYearText(w, d, c, y), |w| + 1, IsDigit) == |w| + 1 + |d|
  {
    var s := MonthDayYearText(w, d, c, y);
    var i, j := |w| + 1, |w| + 1 + |d|;
    forall k | i <= k < j ensures IsDigit(s[k]) {
      assert s[k] == d[k - i];
    }
    assert s[j] == if c == [] then ' ' else ',';
    RunEndAt(s, i, j, IsDigit);
  }

  lemma YearRunOfText(w: string, d: string, c: string, y: string)
    requires AllDigits(y)
    ensures RunEnd(MonthDayYearText(w, d, c, y), |w| + |d| + |c| + 2, IsDigit) == |MonthDayYearText(w, d, c, y)|
  {
    assert MonthDayYearText(w, d, c, y) == (w + " " + d + c + " ") + y + [];
    RunEndOfPart(w + " " + d + c + " ", y, [], IsDigit);
  }

  lemma MonthDayYearPieces(w: string, d: string, c: string, y: string)
    requires MonthDayYearParts(w, d, y) && IsOptionalComma(c)
    ensures var s := MonthDayYearText(w, d, c, y);
      var i, j := |w|, |w| + 1 + |d|;
      var k := j + |c|;
      k < |s| && s[..i] == w && s[i] == ' ' && s[i + 1..j] == d && s[k] == ' ' && s[k + 1..] == y &&
      (c != [] ==> s[j] == ',')
  {
  }

  /** The matcher on a text whose runs end at i, j and the end, with the year after the space at k. */
  lemma MonthDayYearAt(s: string, i: nat, j: nat, k: nat)
    requires MonthDayYearCuts(s, i, j, k)
    ensures MatchMonthDayYear(s) == Some((s[..i], s[i + 1..j], s[k + 1..]))
  {
  }

  /** The shortest text any date pattern accepts has six characters (`1/1/06`). */
  lemma ShortTextMatchesNoDate(t: string)
    requires |t| < 6
    ensures MatchNumericDate(t).None? && MatchDayMonthYear(t).None? && MatchMonthDayYear(t).None?
    ensures MatchIsoDate(t).None? && MatchIsoDateTime(t).None?
  {
    NumericDateSound(t);
    DayMonthYearSound(t);
    MonthDayYearSound(t);
  }

  /** `(\d{4})-(\d{2})-(\d{2})`, as in 2006-01-01; also ActiveRecord's `Format::ISO_DATE`. */
  predicate IsoDateParts(y: string, m: string, d: string)
  {
    DigitsOfLength(y, 4, 4) && DigitsOfLength(m, 2, 2) && DigitsOfLength(d, 2, 2)
  }

  function IsoDateText(y: string, m: string, d: string): string
  {
    y + "-" + m + "-" + d
  }

  function MatchIsoDate(s: string): (r: Option<(string, string, string)>)
    ensures r.Some? ==>
      var (y, m, d) := r.value;
      IsoDateParts(y, m, d) && s == IsoDateText(y, m, d)
  {
    if |s| == 10 && s[4] == '-' && s[7] == '-' && IsoDateParts(s[..4], s[5..7], s[8..]) then
      assert s == s[..4] + "-" + s[5..7] + "-" + s[8..];
      Some((s[..4], s[5..7], s[8..]))
    else None
  }

  lemma IsoDateComplete(y: string, m: string, d: string)
    requires IsoDateParts(y, m, d)
    ensures MatchIsoDate(IsoDateText(y, m, d)) == Some((y, m, d))
  {
    var s := IsoDateText(y, m, d);
    assert s[..4] == y && s[5..7] == m && s[8..] == d;
  }

  /** `(\d{4})-(\d{2})-(\d{2})T(\d{2}):(\d{2}):(\d{2})`, as in 2006-01-01T10:10:10. */
  predicate IsoDateTimeParts(y: string, m: string, d: string, h: string, mi: string, sec: string)
  {
    IsoDateParts(y, m, d) && DigitsOfLength(h, 2, 2) && DigitsOfLength(mi, 2, 2) && DigitsOfLength(sec, 2, 2)
  }

  function IsoDateTimeText(y: string, m: string, d: string, h: string, mi: string, sec: string): string
  {
    y + "-" + m + "-" + d + "T" + h + ":" + mi + ":" + sec
  }

  function MatchIsoDateTime(s: string): (r: Option<(string, string, string, string, string, string)>)
    ensures r.Some? ==>
      var (y, m, d, h, mi, sec) := r.value;
      IsoDateTimeParts(y, m, d, h, mi, sec) && s == IsoDateTimeText(y, m, d, h, mi, sec)
  {
    if |s| == 19 && s[4] == '-' && s[7] == '-' && s[10] == 'T' && s[13] == ':' && s[16] == ':' &&
       IsoDateTimeParts(s[..4], s[5..7], s[8..10], s[11..13], s[14..16], s[17..])
    then
      assert s == s[..4] + "-" + s[5..7] + "-" + s[8..10] + "T" + s[11..13] + ":" + s[14..16] + ":" + s[17..];
      Some((s[..4], s[5..7], s[8..10], s[11..13], s[14..16], s[17..]))
    else None
  }

  lemma IsoDateTimeComplete(y: string, m: string, d: string, h: string, mi: string, sec: string)
    requires IsoDateTimeParts(y, m, d, h, mi, sec)
    ensures MatchIsoDateTime(IsoDateTimeText(y, m, d, h, mi, sec)) == Some((y, m, d, h, mi, sec))
  {
    var s := IsoDateTimeText(y, m, d, h, mi, sec);
    assert s[..4] == y && s[5..7] == m && s[8..10] == d && s[11..13] == h && s[14..16] == mi && s[17..] == sec;
  }

  /** At most one date pattern matches any text, so the order in which they are tried does not matter. */
  lemma DatePatternsExclusive(s: string)
    ensures MatchNumericDate(s).Some? ==>
      MatchDayMonthYear(s).None? && MatchMonthDayYear(s).None? && MatchIsoDate(s).None? && MatchIsoDateTime(s).None?
    ensures MatchDayMonthYear(s).Some? ==>
      MatchMonthDayYear(s).None? && MatchIsoDate(s).None? && MatchIsoDateTime(s).None?
    ensures MatchMonthDayYear(s).Some? ==> MatchIsoDate(s).None? && MatchIsoDateTime(s).None?
    ensures MatchIsoDate(s).Some? ==> MatchIsoDateTime(s).None?
  {
    LeadingDigitsExclude(s);
    IsoPrefixExcludes(s);
  }

  /**
   * The numeric and the day-first patterns start with one or two digits followed by a character
   * that is not a word character, so the month-first pattern's leading word is too short for them,
   * and they differ in that character.
   */
  lemma LeadingDigitsExclude(s: string)
    ensures MatchNumericDate(s).Some? ==> MatchDayMonthYear(s).None? && MatchMonthDayYear(s).None?
    ensures MatchDayMonthYear(s).Some? ==> MatchMonthDayYear(s).None?
  {
    var i := RunEnd(s, 0, IsDigit);
    if i < |s| && !IsWordChar(s[i]) {
      RunEndAt(s, 0, i, IsWordChar);
    }
  }

  /**
   * The ISO patterns start with four digits and a dash: too many digits for the numeric and
   * day-first patterns, and a four-character word not followed by a space for the month-first one.
   */
  lemma IsoPrefixExcludes(s: string)
    ensures MatchIsoDate(s).Some? || MatchIsoDateTime(s).Some? ==>
      MatchNumericDate(s).None? && MatchDayMonthYear(s).None? && MatchMonthDayYear(s).None?
    ensures MatchIsoDate(s).Some? ==> MatchIsoDateTime(s).None?
  {
    if |s| >= 5 && AllDigits(s[..4]) && s[4] == '-' {
      assert s == [] + s[..4] + s[4..];
      RunEndOfPart([], s[..4], s[4..], IsWordChar);
    }
  }

  // ---------------------------------------------------------------------------------------------
  // Time-of-day patterns

  /** The case-insensitive alternative `(am|pm)`. */
  predicate IsMeridiem(m: string)
  {
    |m| == 2 && (m[0] == 'a' || m[0] == 'A' || m[0] == 'p' || m[0] == 'P') && (m[1] == 'm' || m[1] == 'M')
  }

  /** `\s?(am|pm)\Z` (case-insensitive) read from index k on: the meridiem, when the rest is one. */
  function MeridiemFrom(s: string, k: nat): (r: Option<string>)
    requires k <= |s|
    ensures r.Some? ==> |s| >= k + 2 && r.value == s[|s| - 2..] && IsMeridiem(r.value) && IsOptionalSpace(s[k..|s| - 2])
  {
    if |s| - k == 2 && IsMeridiem(s[k..]) then Some(s[k..])
    else if |s| - k == 3 && IsSpace(s[k]) && IsMeridiem(s[k + 1..]) then Some(s[k + 1..])
    else None
  }

  lemma MeridiemFromComplete(prefix: string, gap: string, mer: string)
    requires IsOptionalSpace(gap) && IsMeridiem(mer)
    ensures MeridiemFrom(prefix + gap + mer, |prefix|) == Some(mer)
  {
    var s := prefix + gap + mer;
    assert s[|prefix| + |gap|..] == mer;
    if gap != [] {
      assert s[|prefix|] == gap[0];
    }
  }

  /** `(\d{1,2})[\. :](\d{2})[\. :](\d{2})\s?(am|pm)`, case-insensitive, as in 7:30:05 pm. */
  predicate Clock12SecondsParts(h: string, c1: char, mm: string, c2: char, ss: string, gap: string, mer: string)
  {
    DigitsOfLength(h, 1, 2) && IsTimeSep(c1) && DigitsOfLength(mm, 2, 2) && IsTimeSep(c2) &&
    DigitsOfLength(ss, 2, 2) && IsOptionalSpace(gap) && IsMeridiem(mer)
  }

  function Clock12SecondsText(h: string, c1: char, mm: string, c2: char, ss: string, gap: string, mer: string): string
  {
    h + [c1] + mm + [c2] + ss + gap + mer
  }

  function MatchClock12Seconds(s: string): (r: Option<(string, string, string, string)>)
    ensures r.Some? ==>
      var (h, mm, ss, mer) := r.value;
      var n := |h|;
      n + 8 <= |s| <= n + 9 &&
      Clock12SecondsParts(h, s[n], mm, s[n + 3], ss, s[n + 6..|s| - 2], mer) &&
      s == Clock12SecondsText(h, s[n], mm, s[n + 3], ss, s[n + 6..|s| - 2], mer)
  {
    var i := RunEnd(s, 0, IsDigit);
    if 1 <= i <= 2 && i + 6 <= |s| && IsTimeSep(s[i]) && AllDigits(s[i + 1..i + 3]) &&
       IsTimeSep(s[i + 3]) && AllDigits(s[i + 4..i + 6])
    then
      match MeridiemFrom(s, i + 6)
      case None => None
      case Some(mer) =>
        Clock12SecondsCuts(s, i);
        Some((s[..i], s[i + 1..i + 3], s[i + 4..i + 6], mer))
    else None
  }

  /** Text cut where the matcher cuts it has the pattern's parts and layout. */
  lemma Clock12SecondsCuts(s: string, i: nat)
    requires RunEnd(s, 0, IsDigit) == i && 1 <= i <= 2 && i + 6 <= |s|
    requires IsTimeSep(s[i]) && AllDigits(s[i + 1..i + 3]) && IsTimeSep(s[i + 3]) && AllDigits(s[i + 4..i + 6])
    requires MeridiemFrom(s, i + 6).Some?
    ensures var mer := MeridiemFrom(s, i + 6).value;
      i + 8 <= |s| <= i + 9 &&
      Clock12SecondsParts(s[..i], s[i], s[i + 1..i + 3], s[i + 3], s[i + 4..i + 6], s[i + 6..|s| - 2], mer) &&
      s == Clock12SecondsText(s[..i], s[i], s[i + 1..i + 3], s[i + 3], s[i + 4..i + 6], s[i + 6..|s| - 2], mer)
  {
    DigitRun(s, 0);
    assert s[0..i] == s[..i];
    Clock12SecondsLayout(s, i, MeridiemFrom(s, i + 6).value);
  }

  /** Text with a meridiem at its end is its seven pieces laid end to end. */
  lemma Clock12SecondsLayout(s: string, i: nat, mer: string)
    requires i + 8 <= |s| && mer == s[|s| - 2..]
    ensures s == Clock12SecondsText(s[..i], s[i], s[i + 1..i + 3], s[i + 3], s[i + 4..i + 6], s[i + 6..|s| - 2], mer)
  {
    assert s == s[..i] + [s[i]] + s[i + 1..i + 3] + [s[i + 3]] + s[i + 4..i + 6] + s[i + 6..|s| - 2] + mer;
  }

  lemma Clock12SecondsComplete(h: string, c1: char, mm: string, c2: char, ss: string, gap: string, mer: string)
    requires Clock12SecondsParts(h, c1, mm, c2, ss, gap, mer)
    ensures MatchClock12Seconds(Clock12SecondsText(h, c1, mm, c2, ss, gap, mer)) == Some((h, mm, ss, mer))
  {
    var prefix := h + [c1] + mm + [c2] + ss;
    var s := prefix + gap + mer;
    var i := |h|;
    assert s[..i] == h && s[i] == c1 && s[i + 1..i + 3] == mm && s[i + 3] == c2 && s[i + 4..i + 6] == ss;
    RunEndAt(s, 0, i, IsDigit);
    MeridiemFromComplete(prefix, gap, mer);
  }

  /** `(\d{1,2})[\. :](\d{2})\s?(am|pm)`, case-insensitive, as in 7.30pm, 11:20am or 2 20PM. */
  predicate Clock12MinutesParts(h: string, c1: char, mm: string, gap: string, mer: string)
  {
    DigitsOfLength(h, 1, 2) && IsTimeSep(c1) && DigitsOfLength(mm, 2, 2) && IsOptionalSpace(gap) && IsMeridiem(mer)
  }

  function Clock12MinutesText(h: string, c1: char, mm: string, gap: string, mer: string): string
  {
    h + [c1] + mm + gap + mer
  }

  function MatchClock12Minutes(s: string): (r: Option<(string, string, string)>)
    ensures r.Some? ==>
      var (h, mm, mer) := r.value;
      var n := |h|;
      n + 5 <= |s| <= n + 6 &&
      Clock12MinutesParts(h, s[n], mm, s[n + 3..|s| - 2], mer) &&
      s == Clock12MinutesText(h, s[n], mm, s[n + 3..|s| - 2], mer)
  {
    var i := RunEnd(s, 0, IsDigit);
    if 1 <= i <= 2 && i + 3 <= |s| && IsTimeSep(s[i]) && AllDigits(s[i + 1..i + 3]) then
      match MeridiemFrom(s, i + 3)
      case None => None
      case Some(mer) =>
        assert s == s[..i] + [s[i]] + s[i + 1..i + 3] + s[i + 3..|s| - 2] + mer;
        Some((s[..i], s[i + 1..i + 3], mer))
    else None
  }

  lemma Clock12MinutesComplete(h: string, c1: char, mm: string, gap: string, mer: string)
    requires Clock12MinutesParts(h, c1, mm, gap, mer)
    ensures MatchClock12Minutes(Clock12MinutesText(h, c1, mm, gap, mer)) == Some((h, mm, mer))
  {
    var prefix := h + [c1] + mm;
    var s := prefix + gap + mer;
    var i := |h|;
    assert s[..i] == h && s[i] == c1 && s[i + 1..i + 3] == mm;
    RunEndAt(s, 0, i, IsDigit);
    MeridiemFromComplete(prefix, gap, mer);
  }

  /** `(\d{1,2})\s?(am|pm)`, case-insensitive, as in 2pm, 11Am or 7 pm. */
  predicate Clock12HourParts(h: string, gap: string, mer: string)
  {
    DigitsOfLength(h, 1, 2) && IsOptionalSpace(gap) && IsMeridiem(mer)
  }

  function Clock12HourText(h: string, gap: string, mer: string): string
  {
    h + gap + mer
  }

  function MatchClock12Hour(s: string): (r: Option<(string, string)>)
    ensures r.Some? ==>
      var (h, mer) := r.value;
      var n := |h|;
      n + 2 <= |s| <= n + 3 &&
      Clock12HourParts(h, s[n..|s| - 2], mer) && s == Clock12HourText(h, s[n..|s| - 2], mer)
  {
    var i := RunEnd(s, 0, IsDigit);
    if 1 <= i <= 2 then
      match MeridiemFrom(s, i)
      case None => None
      case Some(mer) =>
        assert s == s[..i] + s[i..|s| - 2] + mer;
        Some((s[..i], mer))
    else None
  }

  lemma Clock12HourComplete(h: string, gap: string, mer: string)
    requires Clock12HourParts(h, gap, mer)
    ensures MatchClock12Hour(Clock12HourText(h, gap, mer)) == Some((h, mer))
  {
    var s := h + gap + mer;
    assert s[..|h|] == h;
    if |h| < |s| {
      assert !IsDigit(s[|h|]) by {
        if gap != [] { assert s[|h|] == gap[0]; } else { assert s[|h|] == mer[0]; }
      }
    }
    RunEndAt(s, 0, |h|, IsDigit);
    MeridiemFromComplete(h, gap, mer);
  }

  /**
   * `(\d{2})[\. :](\d{2})([\. :](\d{2})(\.(\d{1,6}))?)?`, as in 22:30, 03.10, 12 30 or 22:30:05.5:
   * the seconds with their separator are optional, and the fraction is allowed only after seconds.
   */
  predicate Clock24Parts(hh: string, c1: char, mm: string, seconds: Option<(char, string)>, fraction: Option<string>)
  {
    DigitsOfLength(hh, 2, 2) && IsTimeSep(c1) && DigitsOfLength(mm, 2, 2) &&
    (seconds.Some? ==> IsTimeSep(seconds.value.0) && DigitsOfLength(seconds.value.1, 2, 2)) &&
    (fraction.Some? ==> seconds.Some? && DigitsOfLength(fraction.value, 1, 6))
  }

  function Clock24Text(hh: string, c1: char, mm: string, seconds: Option<(char, string)>, fraction: Option<string>): string
  {
    hh + [c1] + mm +
    match seconds
    case None => ""
    case Some((c2, ss)) => [c2] + ss + (match fraction case None => "" case Some(f) => "." + f)
  }

  /** The group `(\d{2})` of the seconds, when the optional part is there. */
  function SecondsGroup(seconds: Option<(char, string)>): Option<string>
  {
    match seconds
    case None => None
    case Some((_, ss)) => Some(ss)
  }

  function MatchClock24(s: string): (r: Option<(string, string, Option<string>, Option<string>)>)
    ensures r.Some? ==>
      var (hh, mm, ss, frac) := r.value;
      |s| >= 5 && (ss.Some? ==> |s| >= 8) &&
      var seconds := if ss.Some? then Some((s[5], ss.value)) else None;
      Clock24Parts(hh, s[2], mm, seconds, frac) && s == Clock24Text(hh, s[2], mm, seconds, frac)
  {
    if |s| >= 5 && AllDigits(s[..2]) && IsTimeSep(s[2]) && AllDigits(s[3..5]) then
      if |s| == 5 then
        assert s == s[..2] + [s[2]] + s[3..5];
        Some((s[..2], s[3..5], None, None))
      else if |s| >= 8 && IsTimeSep(s[5]) && AllDigits(s[6..8]) then
        if |s| == 8 then
          assert s == s[..2] + [s[2]] + s[3..5] + ([s[5]] + s[6..8] + "");
          Some((s[..2], s[3..5], Some(s[6..8]), None))
        else if s[8] == '.' && 1 <= |s| - 9 <= 6 && AllDigits(s[9..]) then
          assert s == s[..2] + [s[2]] + s[3..5] + ([s[5]] + s[6..8] + ("." + s[9..]));
          Some((s[..2], s[3..5], Some(s[6..8]), Some(s[9..])))
        else None
      else None
    else None
  }

  lemma Clock24Complete(hh: string, c1: char, mm: string, seconds: Option<(char, string)>, fraction: Option<string>)
    requires Clock24Parts(hh, c1, mm, seconds, fraction)
    ensures MatchClock24(Clock24Text(hh, c1, mm, seconds, fraction)) == Some((hh, mm, SecondsGroup(seconds), fraction))
  {
    var s := Clock24Text(hh, c1, mm, seconds, fraction);
    assert s[..2] == hh && s[2] == c1 && s[3..5] == mm;
    match seconds
    case None =>
    case Some((c2, ss)) =>
      assert s[5] == c2 && s[6..8] == ss;
      match fraction
      case None =>
      case Some(f) =>
        assert s[8] == '.' && s[9..] == f;
  }

  /** At most one time-of-day pattern matches any text, so their order does not matter. */
  lemma TimePatternsExclusive(s: string)
    ensures MatchClock12Seconds(s).Some? ==>
      MatchClock12Minutes(s).None? && MatchClock12Hour(s).None? && MatchClock24(s).None? && MatchIsoDateTime(s).None?
    ensures MatchClock12Minutes(s).Some? ==>
      MatchClock12Hour(s).None? && MatchClock24(s).None? && MatchIsoDateTime(s).None?
    ensures MatchClock12Hour(s).Some? ==> MatchClock24(s).None? && MatchIsoDateTime(s).None?
    ensures MatchClock24(s).Some? ==> MatchIsoDateTime(s).None?
  {
    Clock12SecondsExcludes(s);
    Clock12MinutesExcludes(s);
    Clock12HourExcludes(s);
    Clock24Excludes(s);
  }

  /** A text ending in a meridiem is no 24-hour reading and no ISO timestamp, which end in a digit. */
  lemma EndsInDigitOrMeridiem(s: string)
    ensures MatchClock24(s).Some? ==> |s| > 0 && IsDigit(s[|s| - 1])
    ensures MatchIsoDateTime(s).Some? ==> |s| > 0 && IsDigit(s[|s| - 1])
  {
  }

  lemma Clock12SecondsExcludes(s: string)
    ensures MatchClock12Seconds(s).Some? ==>
      MatchClock12Minutes(s).None? && MatchClock12Hour(s).None? && MatchClock24(s).None? && MatchIsoDateTime(s).None?
  {
    EndsInDigitOrMeridiem(s);
  }

  lemma Clock12MinutesExcludes(s: string)
    ensures MatchClock12Minutes(s).Some? ==>
      MatchClock12Hour(s).None? && MatchClock24(s).None? && MatchIsoDateTime(s).None?
  {
    EndsInDigitOrMeridiem(s);
  }

  lemma Clock12HourExcludes(s: string)
    ensures MatchClock12Hour(s).Some? ==> MatchClock24(s).None? && MatchIsoDateTime(s).None?
  {
    EndsInDigitOrMeridiem(s);
  }

  /** A 24-hour reading has at most two digits before its first separator; an ISO timestamp has four. */
  lemma Clock24Excludes(s: string)
    ensures MatchClock24(s).Some? ==> MatchIsoDateTime(s).None?
  {
    if MatchClock24(s).Some? {
      assert IsDigit(s[0]) && IsDigit(s[1]) && !IsDigit(s[2]);
    }
  }
}
