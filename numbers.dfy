/** Python's `str(n)` for integers and `int(s)` for strings, on ASCII text. */
module Numbers {
  import opened Wrappers

  predicate IsDigit(c: char) {
    '0' <= c <= '9'
  }

  /** The whitespace `int()` strips from ASCII text: space, tab, line feed, vertical tab,
      form feed and carriage return (not the separators 0x1C-0x1F, which `str.isspace()`
      accepts but `int()` rejects). */
  predicate IsSpace(c: char) {
    c == ' ' || '\t' <= c <= '\r'
  }

  predicate AllDigits(s: string) {
    forall i :: 0 <= i < |s| ==> IsDigit(s[i])
  }

  function StripLeading(s: string): (r: string)
    ensures |r| <= |s|
    ensures r != [] ==> !IsSpace(r[0])
  {
    if s != [] && IsSpace(s[0]) then StripLeading(s[1..]) else s
  }

  function StripTrailing(s: string): (r: string)
    ensures |r| <= |s|
    ensures r != [] ==> !IsSpace(r[|r| - 1])
  {
    if s != [] && IsSpace(s[|s| - 1]) then StripTrailing(s[..|s| - 1]) else s
  }

  /** The surrounding whitespace that `int()` ignores, removed. */
  function Strip(s: string): (r: string) {
    StripTrailing(StripLeading(s))
  }

  function DigitValue(c: char): (r: nat)
    requires IsDigit(c)
  {
    (c as int) - ('0' as int)
  }

  function DigitChar(d: nat): (c: char)
    requires d < 10
    ensures IsDigit(c) && DigitValue(c) == d
  {
    ('0' as int + d) as char
  }

  /** The value of a string of decimal digits, most significant first. */
  function DigitsValue(s: string): (r: nat)
    requires AllDigits(s)
  {
    if s == [] then 0 else DigitsValue(s[..|s| - 1]) * 10 + DigitValue(s[|s| - 1])
  }

  /** The decimal digits of `n` without leading zeros (a lone "0" for zero). */
  function Digits(n: nat): (r: string)
    ensures r != [] && AllDigits(r)
    ensures r[0] == '0' <==> n == 0
    ensures n == 0 ==> r == "0"
  {
    if n < 10 then [DigitChar(n)] else Digits(n / 10) + [DigitChar(n % 10)]
  }

  /** `str(n)`: a minus sign exactly for negative numbers, then the digits of the magnitude
      without leading zeros. */
  function Decimal(n: int): (r: string)
    ensures r != []
    ensures (r[0] == '-') <==> n < 0
    ensures n < 0 ==> |r| > 1 && AllDigits(r[1..]) && r[1] != '0'
    ensures n >= 0 ==> AllDigits(r) && (r[0] == '0' <==> r == "0")
  {
    if n < 0 then "-" + Digits(-n) else Digits(n)
  }

  /** `int(s)`: an optional sign and one or more decimal digits, with surrounding
      whitespace ignored; anything else is the ValueError, here None. */
  function ParseInt(s: string): (r: Option<int>)
    ensures r.Some? ==> Strip(s) != [] && !IsSpace(Strip(s)[0])
    ensures r.Some? && r.value < 0 ==> Strip(s)[0] == '-'
    ensures r.Some? && Strip(s)[0] == '-' ==> r.value <= 0
  {
    var t := Strip(s);
    if t != [] && (t[0] == '-' || t[0] == '+') then
      if |t| > 1 && AllDigits(t[1..]) then
        var v: int := DigitsValue(t[1..]);
        Some(if t[0] == '-' then -v else v)
      else None
    else if t != [] && AllDigits(t) then Some(DigitsValue(t))
    else None
  }

  lemma {:induction false} DigitsRoundTrip(n: nat)
    ensures DigitsValue(Digits(n)) == n
  {
    if n >= 10 {
      var d := Digits(n / 10);
      var r := d + [DigitChar(n % 10)];
      assert r[..|r| - 1] == d;
      DigitsRoundTrip(n / 10);
    }
  }

  lemma StripUnchanged(s: string)
    requires s != [] && !IsSpace(s[0]) && !IsSpace(s[|s| - 1])
    ensures Strip(s) == s
  {
  }

  /** Reading back what `str` wrote gives the same integer: `int(str(n)) == n`. */
  lemma DecimalRoundTrip(n: int)
    ensures ParseInt(Decimal(n)) == Some(n)
  {
    var s := Decimal(n);
    var m: nat := if n < 0 then -n else n;
    DigitsRoundTrip(m);
    var d := Digits(m);
    assert !IsSpace(d[0]) && !IsSpace(d[|d| - 1]);
    if n < 0 {
      assert s[1..] == d && s[|s| - 1] == d[|d| - 1];
    }
    StripUnchanged(s);
  }

  /** The worked value of the data processor's test: `int("42") == 42`. */
  lemma ParseFortyTwo()
    ensures ParseInt("42") == Some(42)
  {
    assert Digits(42) == "42";
    DecimalRoundTrip(42);
  }

  /** Text that is only whitespace, or whose first character after the whitespace is not
      a sign or a digit, or that is a lone sign, or that has a non-digit after its first
      character, is not an integer. */
  lemma ParseRejectsNonNumbers(s: string)
    ensures Strip(s) == [] ==> ParseInt(s) == None
    ensures Strip(s) != [] && !IsDigit(Strip(s)[0]) && Strip(s)[0] != '-' && Strip(s)[0] != '+' ==> ParseInt(s) == None
    ensures Strip(s) == "-" || Strip(s) == "+" ==> ParseInt(s) == None
    ensures (exists i :: 1 <= i < |Strip(s)| && !IsDigit(Strip(s)[i])) ==> ParseInt(s) == None
  {
    var t := Strip(s);
    if exists i :: 1 <= i < |t| && !IsDigit(t[i]) {
      var i :| 1 <= i < |t| && !IsDigit(t[i]);
      assert t[1..][i - 1] == t[i];
    }
  }

  /** The text `int()` accepts once whitespace is stripped: one or more decimal digits,
      after an optional sign. */
  predicate IntegerText(t: string) {
    t != [] && (AllDigits(t) || ((t[0] == '-' || t[0] == '+') && |t| > 1 && AllDigits(t[1..])))
  }

  /** The value such a text denotes: its digits read in base ten, negated after a minus. */
  function TextValue(t: string): (r: int)
    requires IntegerText(t)
  {
    var v: int := if t[0] == '-' || t[0] == '+' then DigitsValue(t[1..]) else DigitsValue(t);
    if t[0] == '-' then -v else v
  }

  /** `int()` succeeds exactly on an optional sign followed by digits (after stripping
      whitespace), and then gives the value those digits denote. */
  lemma ParseWellFormed(s: string)
    ensures ParseInt(s).Some? <==> IntegerText(Strip(s))
    ensures IntegerText(Strip(s)) ==> ParseInt(s) == Some(TextValue(Strip(s)))
  {
    var t := Strip(s);
    if ParseInt(s).Some? && t[0] != '-' && t[0] != '+' {
      assert AllDigits(t);
    }
  }

  /** Leading zeros do not change the value of a string of digits. */
  lemma {:induction false} LeadingZeroIgnored(t: string)
    requires AllDigits(t)
    ensures AllDigits("0" + t) && DigitsValue("0" + t) == DigitsValue(t)
    decreases |t|
  {
    var z := "0" + t;
    assert forall i :: 0 <= i < |z| ==> IsDigit(z[i]) by {
      forall i | 0 <= i < |z| ensures IsDigit(z[i]) {
        if i > 0 { assert z[i] == t[i - 1]; }
      }
    }
    if t != [] {
      var u := t[..|t| - 1];
      assert AllDigits(u) by {
        forall i | 0 <= i < |u| ensures IsDigit(u[i]) { assert u[i] == t[i]; }
      }
      LeadingZeroIgnored(u);
      assert z[..|z| - 1] == "0" + u;
      assert z[|z| - 1] == t[|t| - 1];
    }
  }

  /** Zero padding and surrounding blanks, which `str` never writes, still parse. */
  lemma ParseZeroPadded()
    ensures ParseInt(" 007 ") == Some(7)
  {
    assert Strip(" 007 ") == "007" by {
      assert (" 007 ")[1..] == "007 ";
      assert StripLeading(" 007 ") == "007 ";
      assert ("007 ")[..3] == "007";
    }
    assert AllDigits("007") && DigitsValue("007") == 7 by {
      LeadingZeroIgnored("7");
      assert "0" + "7" == "07";
      LeadingZeroIgnored("07");
      assert "0" + "07" == "007";
    }
    assert IntegerText("007") && TextValue("007") == 7;
    ParseWellFormed(" 007 ");
  }

  /** A plus sign and negative zero, which `str` never writes, still parse. */
  lemma ParseSignedForms()
    ensures ParseInt("+5") == Some(5)
    ensures ParseInt("-0") == Some(0)
  {
    assert Strip("+5") == "+5";
    assert ("+5")[1..] == "5";
    ParseWellFormed("+5");
    assert Strip("-0") == "-0";
    assert ("-0")[1..] == "0";
    ParseWellFormed("-0");
  }

  /** The whitespace `int()` skips around a number is space and tab to carriage return
      only: vertical tab and form feed are skipped, the separators 0x1C and 0x1F are not. */
  lemma ParseStripsOnlyAsciiSpace()
    ensures ParseInt([0x0B as char] + "42" + [0x0C as char]) == Some(42)
    ensures ParseInt([0x1C as char] + "42") == None
    ensures ParseInt("42" + [0x1F as char]) == None
  {
    var s := [0x0B as char] + "42" + [0x0C as char];
    assert s[1..] == "42" + [0x0C as char];
    assert StripLeading(s) == "42" + [0x0C as char];
    var t := "42" + [0x0C as char];
    assert t[..|t| - 1] == "42";
    assert StripTrailing(t) == StripTrailing("42") == "42";
    assert Strip(s) == "42";
    ParseFortyTwo();
    var a := [0x1C as char] + "42";
    assert Strip(a) == a;
    var b := "42" + [0x1F as char];
    assert Strip(b) == b;
    assert !IsDigit(b[2]);
  }
}
