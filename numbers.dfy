/**
 * Decimal numerals: the zero-padded field formatting of
 * QString::arg(n, width, 10, QChar('0')) and the text-to-number
 * conversion of QString::toDouble, on exact (real) values.
 */
module Numbers {
  import opened Wrappers
  import opened Sequences
  import opened Text

  predicate IsDigit(c: char) {
    '0' <= c <= '9'
  }

  predicate AllDigits(s: string) {
    forall i :: 0 <= i < |s| ==> IsDigit(s[i])
  }

  function DigitValue(c: char): nat
    requires IsDigit(c)
  {
    c as int - '0' as int
  }

  function DigitChar(d: nat): (c: char)
    requires d < 10
    ensures IsDigit(c) && DigitValue(c) == d
  {
    ('0' as int + d) as char
  }

  /** The number a string of decimal digits denotes, most significant first. */
  function DigitsValue(s: string): nat
    requires AllDigits(s)
  {
    if s == [] then 0 else 10 * DigitsValue(s[..|s| - 1]) + DigitValue(s[|s| - 1])
  }

  lemma DigitsValueAppend(s: string, c: char)
    requires AllDigits(s) && IsDigit(c)
    ensures AllDigits(s + [c]) && DigitsValue(s + [c]) == 10 * DigitsValue(s) + DigitValue(c)
  {
    assert (s + [c])[..|s|] == s;
  }

  function Pow10(n: nat): (p: nat)
    ensures p >= 1
  {
    if n == 0 then 1 else 10 * Pow10(n - 1)
  }

  /** The shortest decimal numeral of `n`: digits only, no leading zero, denoting `n`. */
  function Decimal(n: nat): (s: string)
    ensures 1 <= |s| && AllDigits(s) && DigitsValue(s) == n
    ensures |s| > 1 ==> s[0] != '0'
  {
    if n < 10 then [DigitChar(n)]
    else
      var d := Decimal(n / 10);
      DigitsValueAppend(d, DigitChar(n % 10));
      d + [DigitChar(n % 10)]
  }

  /** A numeral of `n` fits in `width` characters exactly when `n` is below 10^width. */
  lemma {:induction false} DecimalFits(n: nat, width: nat)
    requires width >= 1
    ensures |Decimal(n)| <= width <==> n < Pow10(width)
  {
    if n >= 10 {
      if width == 1 {
        assert |Decimal(n)| >= 2;
        assert Pow10(1) == 10;
      } else {
        DecimalFits(n / 10, width - 1);
      }
    } else {
      assert Pow10(width) >= 10 by { PowerAtLeastTen(width); }
    }
  }

  lemma {:induction false} PowerAtLeastTen(n: nat)
    requires n >= 1
    ensures Pow10(n) >= 10
  {
    if n > 1 {
      PowerAtLeastTen(n - 1);
    }
  }

  /** `k` zero characters. */
  function Zeros(k: nat): (z: string)
    ensures |z| == k && AllDigits(z) && DigitsValue(z) == 0
  {
    if k == 0 then []
    else
      DigitsValueAppend(Zeros(k - 1), '0');
      Zeros(k - 1) + ['0']
  }

  /** Leading zeros do not change the value of a numeral. */
  lemma {:induction false} LeadingZeros(k: nat, s: string)
    requires AllDigits(s)
    ensures AllDigits(Zeros(k) + s) && DigitsValue(Zeros(k) + s) == DigitsValue(s)
    decreases |s|
  {
    if s != [] {
      var init, last := s[..|s| - 1], s[|s| - 1];
      assert s == init + [last];
      LeadingZeros(k, init);
      assert Zeros(k) + s == (Zeros(k) + init) + [last];
      DigitsValueAppend(Zeros(k) + init, last);
    } else {
      assert Zeros(k) + s == Zeros(k);
    }
  }

  /**
   * QString::arg(n, width, 10, QChar('0')): the numeral of `n`, padded on
   * the left with zeros to at least `width` characters; it still denotes
   * `n` and is never shorter than `width`.
   */
  function Pad(n: nat, width: nat): (s: string)
    ensures AllDigits(s) && DigitsValue(s) == n
    ensures |s| >= width
  {
    var d := Decimal(n);
    if |d| < width then
      LeadingZeros(width - |d|, d);
      Zeros(width - |d|) + d
    else d
  }

  /** A number below 10^width is padded to exactly `width` characters; a larger one is not cut. */
  lemma PadWidth(n: nat, width: nat)
    requires width >= 1
    ensures |Pad(n, width)| == width <==> n < Pow10(width)
    ensures |Pad(n, width)| == width || Pad(n, width) == Decimal(n)
  {
    DecimalFits(n, width);
  }

  /** The value of a mantissa: "ddd", "ddd.", ".ddd" or "ddd.ddd". */
  function ParseMantissa(t: string): (r: Option<real>)
    ensures r.Some? ==> t != [] && (IsDigit(t[0]) || t[0] == '.')
  {
    var k := IndexOf(t, '.');
    if k == -1 then
      if t != [] && AllDigits(t) then Some(DigitsValue(t) as real) else None
    else
      var whole, fraction := t[..k], t[k + 1..];
      if (whole != [] || fraction != []) && AllDigits(whole) && AllDigits(fraction) then
        assert whole == [] ==> t[0] == '.';
        assert whole != [] ==> t[0] == whole[0];
        Some(DigitsValue(whole) as real + DigitsValue(fraction) as real / Pow10(|fraction|) as real)
      else None
  }

  /** The value of an exponent: optionally signed digits. */
  function ParseExponent(t: string): Option<int> {
    if |t| > 1 && (t[0] == '+' || t[0] == '-') && AllDigits(t[1..]) then
      Some(if t[0] == '-' then -(DigitsValue(t[1..]) as int) else DigitsValue(t[1..]))
    else if t != [] && AllDigits(t) then Some(DigitsValue(t))
    else None
  }

  /** `v` times 10 to the power `e`. */
  function Scale(v: real, e: int): real {
    if e >= 0 then v * Pow10(e) as real else v / Pow10(-e) as real
  }

  /** Position of the first exponent marker, 'e' or 'E', or -1. */
  function ExponentIndex(t: string): (k: int)
    ensures k == -1 <==> 'e' !in t && 'E' !in t
    ensures k != -1 ==> 0 <= k < |t| && (t[k] == 'e' || t[k] == 'E')
    ensures k != -1 ==> 'e' !in t[..k] && 'E' !in t[..k]
  {
    var lower, upper := IndexOf(t, 'e'), IndexOf(t, 'E');
    if lower == -1 then upper
    else if upper == -1 then lower
    else if lower < upper then
      assert t[..lower] == t[..upper][..lower];
      lower
    else
      assert t[..upper] == t[..lower][..upper];
      upper
  }

  /** An unsigned numeral: a mantissa, then optionally an exponent marker and an exponent. */
  function ParseUnsigned(t: string): (r: Option<real>)
    ensures r.Some? ==> t != [] && (IsDigit(t[0]) || t[0] == '.')
  {
    var k := ExponentIndex(t);
    if k == -1 then ParseMantissa(t)
    else
      match (ParseMantissa(t[..k]), ParseExponent(t[k + 1..]))
      case (Some(m), Some(e)) =>
        assert t[0] == t[..k][0];
        Some(Scale(m, e))
      case _ => None
  }

  /**
   * QString::toDouble with its success flag: leading and trailing
   * whitespace is ignored, then an optional sign and an unsigned numeral
   * must make up the rest; otherwise the conversion fails. A successful
   * conversion therefore saw a sign, a digit or a point first.
   */
  function ParseNumber(s: string): (r: Option<real>)
    ensures r.Some? ==> StartsNumeral(Trimmed(s))
  {
    var t := Trimmed(s);
    if |t| > 0 && (t[0] == '+' || t[0] == '-') then
      match ParseUnsigned(t[1..])
      case Some(v) => Some(if t[0] == '-' then -v else v)
      case None => None
    else ParseUnsigned(t)
  }

  /** `t` begins with a sign, a point or a digit. */
  predicate StartsNumeral(t: string) {
    t != [] && (t[0] == '+' || t[0] == '-' || t[0] == '.' || IsDigit(t[0]))
  }

  lemma DigitsHaveNoMarkers(s: string)
    requires AllDigits(s)
    ensures '.' !in s && 'e' !in s && 'E' !in s && '+' !in s && '-' !in s
    ensures s != [] ==> !IsSpace(s[0]) && !IsSpace(s[|s| - 1])
  {
  }

  /** A string of digits converts to the number it denotes. */
  lemma NumberOfDigits(d: string)
    requires d != [] && AllDigits(d)
    ensures ParseNumber(d) == Some(DigitsValue(d) as real)
  {
    DigitsHaveNoMarkers(d);
    NumberOfUnsigned(d);
    UnsignedWithoutExponent(d);
  }

  /** The numeral of a natural number converts back to that number. */
  lemma NumberOfDecimal(n: nat)
    ensures ParseNumber(Decimal(n)) == Some(n as real)
  {
    NumberOfDigits(Decimal(n));
  }

  /** Text already trimmed and without a sign converts as an unsigned numeral. */
  lemma NumberOfUnsigned(t: string)
    requires t != [] && !IsSpace(t[0]) && !IsSpace(t[|t| - 1])
    requires t[0] != '+' && t[0] != '-'
    ensures ParseNumber(t) == ParseUnsigned(t)
  {
    TrimmedNoOp(t);
  }

  /** A numeral "d.fraction" converts to d + fraction / 10^|fraction|. */
  lemma NumberOfFixedPoint(d: string, fraction: string)
    requires d != [] && AllDigits(d) && AllDigits(fraction)
    ensures ParseNumber(d + "." + fraction)
         == Some(DigitsValue(d) as real + DigitsValue(fraction) as real / Pow10(|fraction|) as real)
  {
    var t := d + "." + fraction;
    FixedPointShape(d, fraction);
    MantissaWithPoint(t, d, fraction);
    UnsignedWithoutExponent(t);
    NumberOfUnsigned(t);
  }

  lemma FixedPointShape(d: string, fraction: string)
    requires d != [] && AllDigits(d) && AllDigits(fraction)
    ensures var t := d + "." + fraction;
      && !IsSpace(t[0]) && !IsSpace(t[|t| - 1]) && t[0] != '+' && t[0] != '-'
      && 'e' !in t && 'E' !in t
      && IndexOf(t, '.') == |d| && t[..|d|] == d && t[|d| + 1..] == fraction
  {
    var t := d + "." + fraction;
    DigitsHaveNoMarkers(d);
    DigitsHaveNoMarkers(fraction);
    assert t[0] == d[0];
    assert !IsSpace(t[|t| - 1]) by {
      if fraction == [] { assert t[|t| - 1] == '.'; } else { assert t[|t| - 1] == fraction[|fraction| - 1]; }
    }
    assert 'e' !in t && 'E' !in t by {
      assert forall i :: 0 <= i < |t| ==> t[i] in d || t[i] == '.' || t[i] in fraction;
    }
    assert t[..|d|] == d;
    IndexOfAt(t, '.', |d|);
    assert t[|d| + 1..] == fraction;
  }

  lemma UnsignedWithoutExponent(t: string)
    requires 'e' !in t && 'E' !in t
    ensures ParseUnsigned(t) == ParseMantissa(t)
  {
  }

  lemma MantissaWithPoint(t: string, d: string, fraction: string)
    requires d != [] && AllDigits(d) && AllDigits(fraction)
    requires IndexOf(t, '.') == |d| && t[..|d|] == d && t[|d| + 1..] == fraction
    ensures ParseMantissa(t) == Some(DigitsValue(d) as real + DigitsValue(fraction) as real / Pow10(|fraction|) as real)
  {
    var k := IndexOf(t, '.');
    assert t[..k] == d && t[k + 1..] == fraction;
    assert d != [] && AllDigits(t[..k]) && AllDigits(t[k + 1..]);
  }

  /** A leading minus sign negates the converted value; the conversion fails or succeeds alike. */
  lemma NumberOfNegated(t: string)
    requires t != [] && !IsSpace(t[0]) && !IsSpace(t[|t| - 1])
    requires t[0] != '+' && t[0] != '-'
    ensures ParseNumber("-" + t) == Negated(ParseNumber(t))
  {
    var m := "-" + t;
    assert m[0] == '-' && m[1..] == t;
    assert ParseNumber(m) == Negated(ParseUnsigned(t)) by {
      SignedTrimmed(t);
      NumberOfMinus(m);
    }
    assert ParseNumber(t) == ParseUnsigned(t) by {
      NumberOfUnsigned(t);
    }
  }

  /** The negation of a converted value, or no value. */
  function Negated(o: Option<real>): Option<real> {
    match o
    case Some(v) => Some(-v)
    case None => None
  }

  lemma SignedTrimmed(t: string)
    requires t != [] && !IsSpace(t[|t| - 1])
    ensures Trimmed("-" + t) == "-" + t
  {
    var m := "-" + t;
    assert m[|m| - 1] == t[|t| - 1];
    TrimmedNoOp(m);
  }

  lemma NumberOfMinus(m: string)
    requires Trimmed(m) == m && |m| > 0 && m[0] == '-'
    ensures ParseNumber(m) == Negated(ParseUnsigned(m[1..]))
  {
  }

  /** A character that can occur in a numeral: a digit, a point, an exponent marker or a sign. */
  predicate NumeralChar(c: char) {
    IsDigit(c) || c == '.' || c == 'e' || c == 'E' || c == '+' || c == '-'
  }

  predicate InAlphabet(t: string) {
    forall j :: 0 <= j < |t| ==> NumeralChar(t[j])
  }

  /**
   * Text whose trimmed form holds a character that cannot occur in a
   * numeral does not convert: trailing junk such as a unit glued to the
   * number makes the conversion fail.
   */
  lemma NumberRejectsJunk(s: string, i: nat)
    requires i < |Trimmed(s)| && !NumeralChar(Trimmed(s)[i])
    ensures ParseNumber(s) == None
  {
    if ParseNumber(s).Some? {
      NumberAlphabet(s);
      assert false;
    }
  }

  /** A number followed directly by its unit, as in "12mS", is not a number. */
  lemma NumberWithUnitRejected()
    ensures ParseNumber("12mS") == None
  {
    var w := "12mS";
    assert !IsSpace(w[0]) && !IsSpace(w[|w| - 1]);
    TrimmedNoOp(w);
    NumberRejectsJunk(w, 2);
  }

  lemma NumberAlphabet(s: string)
    requires ParseNumber(s).Some?
    ensures InAlphabet(Trimmed(s))
  {
    var t := Trimmed(s);
    if |t| > 0 && (t[0] == '+' || t[0] == '-') {
      UnsignedAlphabet(t[1..]);
      AlphabetParts(t, 0);
    } else {
      UnsignedAlphabet(t);
    }
  }

  lemma UnsignedAlphabet(t: string)
    requires ParseUnsigned(t).Some?
    ensures InAlphabet(t)
  {
    var k := ExponentIndex(t);
    if k == -1 {
      MantissaAlphabet(t);
    } else {
      MantissaAlphabet(t[..k]);
      ExponentAlphabet(t[k + 1..]);
      AlphabetParts(t, k);
    }
  }

  lemma MantissaAlphabet(t: string)
    requires ParseMantissa(t).Some?
    ensures InAlphabet(t)
  {
    var k := IndexOf(t, '.');
    if k != -1 {
      AlphabetParts(t, k);
    }
  }

  lemma ExponentAlphabet(t: string)
    requires ParseExponent(t).Some?
    ensures InAlphabet(t)
  {
    if |t| > 1 && (t[0] == '+' || t[0] == '-') && AllDigits(t[1..]) {
      AlphabetParts(t, 0);
    }
  }

  /** A text is in the numeral alphabet when the parts around one numeral character are. */
  lemma AlphabetParts(t: string, k: nat)
    requires k < |t| && NumeralChar(t[k])
    requires InAlphabet(t[..k]) && InAlphabet(t[k + 1..])
    ensures InAlphabet(t)
  {
    forall j | 0 <= j < |t|
      ensures NumeralChar(t[j])
    {
      if j < k {
        assert t[j] == t[..k][j];
      } else if j > k {
        assert t[j] == t[k + 1..][j - k - 1];
      }
    }
  }

  /** Text that begins, after whitespace, with neither a sign, a point nor a digit does not convert. */
  lemma NumberRejectsWord(s: string)
    requires !StartsNumeral(Trimmed(s))
    ensures ParseNumber(s) == None
  {
  }
}
