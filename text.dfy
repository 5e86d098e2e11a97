/**
 * Characters, white space and the Ruby `String` operations the parser relies on:
 * `strip`, `blank?`, `to_i`, `capitalize` and `downcase`.
 */
module Text {

  /** `\d` */
  predicate IsDigit(c: char) { '0' <= c <= '9' }

  predicate IsLetter(c: char) { 'a' <= c <= 'z' || 'A' <= c <= 'Z' }

  /** `\w`: ASCII letters, digits and the underscore. */
  predicate IsWordChar(c: char) { IsDigit(c) || IsLetter(c) || c == '_' }

  /** `\s`, and what `strip` and `blank?` remove: space, tab, line feed, vertical tab, form feed, carriage return. */
  predicate IsSpace(c: char)
  {
    c == ' ' || c == '\t' || c == '\n' || c == '\U{B}' || c == '\U{C}' || c == '\r'
  }

  predicate AllDigits(s: string) { forall i :: 0 <= i < |s| ==> IsDigit(s[i]) }

  predicate AllWordChars(s: string) { forall i :: 0 <= i < |s| ==> IsWordChar(s[i]) }

  /** ActiveSupport's `String#blank?`: the string is empty or white space only. */
  predicate Blank(s: string) { forall i :: 0 <= i < |s| ==> IsSpace(s[i]) }

  /** `lstrip`: the suffix left after the leading white space. */
  function TrimStart(s: string): (r: string)
    ensures |r| <= |s| && r == s[|s| - |r|..]
    ensures forall i :: 0 <= i < |s| - |r| ==> IsSpace(s[i])
    ensures r == [] || !IsSpace(r[0])
  {
    if s != [] && IsSpace(s[0]) then TrimStart(s[1..]) else s
  }

  /** `rstrip`: the prefix left before the trailing white space. */
  function TrimEnd(s: string): (r: string)
    ensures |r| <= |s| && r == s[..|r|]
    ensures forall i :: |r| <= i < |s| ==> IsSpace(s[i])
    ensures r == [] || !IsSpace(r[|r| - 1])
  {
    if s != [] && IsSpace(s[|s| - 1]) then TrimEnd(s[..|s| - 1]) else s
  }

  /** `strip`: white space removed at both ends; empty exactly when the string is blank. */
  function Strip(s: string): (r: string)
    ensures |r| <= |s|
    ensures r == [] <==> Blank(s)
    ensures r != [] ==> !IsSpace(r[0]) && !IsSpace(r[|r| - 1])
  {
    var t := TrimStart(s);
    var r := TrimEnd(t);
    r
  }

  /** Stripping changes nothing when neither end is white space. */
  lemma StripUnchanged(s: string)
    requires s != [] && !IsSpace(s[0]) && !IsSpace(s[|s| - 1])
    ensures Strip(s) == s
  {
  }

  /** Stripping twice is stripping once. */
  lemma StripIdempotent(s: string)
    ensures Strip(Strip(s)) == Strip(s)
  {
    if Strip(s) != [] {
      StripUnchanged(Strip(s));
    }
  }

  lemma {:induction false} TrimStartBlank(pre: string, x: string)
    requires Blank(pre) && (x == [] || !IsSpace(x[0]))
    ensures TrimStart(pre + x) == x
  {
    if pre != [] {
      assert (pre + x)[1..] == pre[1..] + x;
      TrimStartBlank(pre[1..], x);
    } else {
      assert pre + x == x;
    }
  }

  lemma {:induction false} TrimEndBlank(x: string, post: string)
    requires Blank(post) && (x == [] || !IsSpace(x[|x| - 1]))
    ensures TrimEnd(x + post) == x
  {
    if post != [] {
      assert (x + post)[..|x + post| - 1] == x + post[..|post| - 1];
      TrimEndBlank(x, post[..|post| - 1]);
    } else {
      assert x + post == x;
    }
  }

  /** White space around a text whose ends are not white space is exactly what `strip` removes. */
  lemma StripPadded(pre: string, t: string, post: string)
    requires Blank(pre) && Blank(post) && t != [] && !IsSpace(t[0]) && !IsSpace(t[|t| - 1])
    ensures Strip(pre + t + post) == t
  {
    assert pre + t + post == pre + (t + post);
    TrimStartBlank(pre, t + post);
    TrimEndBlank(t, post);
  }

  function DigitValue(c: char): nat
    requires IsDigit(c)
  {
    c as int - '0' as int
  }

  function DigitChar(n: nat): (c: char)
    requires n < 10
    ensures IsDigit(c) && DigitValue(c) == n
  {
    ('0' as int + n) as char
  }

  function Pow10(n: nat): (p: nat)
    ensures p >= 1
  {
    if n == 0 then 1 else 10 * Pow10(n - 1)
  }

  lemma {:induction false} Pow10Monotone(a: nat, b: nat)
    requires a <= b
    ensures Pow10(a) <= Pow10(b)
  {
    if a < b {
      Pow10Monotone(a, b - 1);
    }
  }

  /** The base-10 value of a digit string, most significant digit first; it has at most |s| digits. */
  function DecimalValue(s: string): (v: nat)
    requires AllDigits(s)
    ensures v < Pow10(|s|)
  {
    if s == [] then 0 else DecimalValue(s[..|s| - 1]) * 10 + DigitValue(s[|s| - 1])
  }

  /** Appending a digit multiplies the value by ten and adds the digit. */
  lemma DecimalValuePush(s: string, c: char)
    requires AllDigits(s) && IsDigit(c)
    ensures AllDigits(s + [c]) && DecimalValue(s + [c]) == 10 * DecimalValue(s) + DigitValue(c)
  {
    assert (s + [c])[..|s|] == s;
  }

  /** A two-digit string reads as tens and units. */
  lemma DecimalValueOfTwo(s: string)
    requires |s| == 2 && AllDigits(s)
    ensures DecimalValue(s) == 10 * DigitValue(s[0]) + DigitValue(s[1])
  {
    assert s[..1][..0] == [];
  }

  /** Two digits read as ten times the first plus the second, with `to_i` as with the decimal value. */
  lemma ToIOfTwoDigits(s: string)
    requires |s| == 2 && IsDigit(s[0]) && IsDigit(s[1])
    ensures AllDigits(s)
    ensures ToI(s) == DecimalValue(s) == 10 * DigitValue(s[0]) + DigitValue(s[1])
  {
    ToIOfDigits(s);
    DecimalValueOfTwo(s);
  }

  /** A four-digit string reads as a hundred times its first half plus its second half. */
  lemma DecimalValueOfFour(s: string)
    requires |s| == 4 && AllDigits(s)
    ensures DecimalValue(s) == 100 * DecimalValue(s[..2]) + DecimalValue(s[2..])
  {
    assert s == s[..2] + s[2..];
    DecimalValueAppend(s[..2], s[2..]);
    assert Pow10(2) == 100;
  }

  /** Four digits read as their thousands, hundreds, tens and units, with `to_i` as with the decimal value. */
  lemma ToIOfFourDigits(s: string)
    requires |s| == 4 && IsDigit(s[0]) && IsDigit(s[1]) && IsDigit(s[2]) && IsDigit(s[3])
    ensures AllDigits(s)
    ensures ToI(s) == DecimalValue(s) ==
      1000 * DigitValue(s[0]) + 100 * DigitValue(s[1]) + 10 * DigitValue(s[2]) + DigitValue(s[3])
  {
    ToIOfTwoDigits(s[..2]);
    ToIOfTwoDigits(s[2..]);
    DecimalValueOfFour(s);
    ToIOfDigits(s);
  }

  /** Reading a concatenation shifts the first part left by the length of the second. */
  lemma {:induction false} DecimalValueAppend(a: string, b: string)
    requires AllDigits(a) && AllDigits(b)
    ensures AllDigits(a + b)
    ensures DecimalValue(a + b) == DecimalValue(a) * Pow10(|b|) + DecimalValue(b)
  {
    AllDigitsAppend(a, b);
    if b == [] {
      assert a + b == a;
    } else {
      var b', ab := b[..|b| - 1], a + b;
      DecimalValueAppend(a, b');
      assert ab[..|ab| - 1] == a + b' && ab[|ab| - 1] == b[|b| - 1];
      var x: int, p: int, y: int, d: int := DecimalValue(a), Pow10(|b'|), DecimalValue(b'), DigitValue(b[|b| - 1]);
      assert DecimalValue(ab) == (x * p + y) * 10 + d;
      assert DecimalValue(b) == y * 10 + d;
      ShiftStep(x, p, y, d);
    }
  }

  lemma AllDigitsAppend(a: string, b: string)
    requires AllDigits(a) && AllDigits(b)
    ensures AllDigits(a + b)
  {
  }

  /** One more digit: shifting the whole number left is shifting its first part one place further. */
  lemma ShiftStep(x: int, p: int, y: int, d: int)
    ensures (x * p + y) * 10 + d == x * (10 * p) + (y * 10 + d)
  {
    assert (x * p + y) * 10 == (x * p) * 10 + y * 10;
    assert (x * p) * 10 == x * (10 * p);
  }

  /**
   * The digits Ruby's `String#to_i` reads from the front of a string of word characters: the leading
   * digits, where one underscore standing between two digits is skipped.
   */
  function LeadingDigits(s: string): (ds: string)
    ensures AllDigits(ds) && |ds| <= |s|
  {
    if s == [] || !IsDigit(s[0]) then []
    else if |s| >= 3 && s[1] == '_' && IsDigit(s[2]) then [s[0]] + LeadingDigits(s[2..])
    else [s[0]] + LeadingDigits(s[1..])
  }

  /** `String#to_i` on a string without leading white space or sign: 0 when it does not start with a digit. */
  function ToI(s: string): nat
  {
    DecimalValue(LeadingDigits(s))
  }

  /** On a digit string `to_i` is its decimal value. */
  lemma {:induction false} ToIOfDigits(s: string)
    requires AllDigits(s)
    ensures LeadingDigits(s) == s
    ensures ToI(s) == DecimalValue(s)
  {
    if s != [] {
      ToIOfDigits(s[1..]);
      assert [s[0]] + s[1..] == s;
    }
  }

  /** A number written with `width` digits reads back as itself when it fits. */
  lemma ToIOfPad(n: nat, width: nat)
    requires n < Pow10(width)
    ensures ToI(Pad(n, width)) == n
  {
    ToIOfDigits(Pad(n, width));
  }

  /** A single digit reads as its value. */
  lemma ToIOfOneDigit(s: string)
    requires |s| == 1 && IsDigit(s[0])
    ensures ToI(s) == DigitValue(s[0])
  {
    ToIOfDigits(s);
  }

  /** A string that does not start with a digit reads as 0. */
  lemma ToIOfNonDigit(s: string)
    requires s == [] || !IsDigit(s[0])
    ensures ToI(s) == 0
  {
  }

  /** `n` written with exactly `width` digits, zero-padded on the left (`format("%0<width>d", n)`). */
  function Pad(n: nat, width: nat): (s: string)
    ensures |s| == width && AllDigits(s)
    ensures n < Pow10(width) ==> DecimalValue(s) == n
  {
    if width == 0 then []
    else
      var s := Pad(n / 10, width - 1) + [DigitChar(n % 10)];
      assert s[..|s| - 1] == Pad(n / 10, width - 1);
      s
  }

  function Upcase(c: char): char
  {
    if 'a' <= c <= 'z' then (c as int - 32) as char else c
  }

  function Downcase(c: char): char
  {
    if 'A' <= c <= 'Z' then (c as int + 32) as char else c
  }

  /** `downcase` */
  function DowncaseAll(s: string): string
  {
    seq(|s|, i requires 0 <= i < |s| => Downcase(s[i]))
  }

  /** `capitalize`: the first character upper case, the others lower case. */
  function Capitalize(s: string): string
  {
    if s == [] then [] else [Upcase(s[0])] + DowncaseAll(s[1..])
  }
}
