/** Numbers as Python writes them into JSON, and how such text is read. */
module Numbers {
  import opened Basics

  /** The value digits * 10^exponent, with a sign that zero has too. */
  datatype Scientific = Scientific(negative: bool, digits: nat, exponent: int)

  predicate Normal(f: Scientific) {
    if f.digits == 0 then f.exponent == 0 else f.digits % 10 != 0
  }

  /** A finite float, given by the shortest decimal that denotes it. */
  type FiniteFloat = f: Scientific | Normal(f) witness Scientific(false, 0, 0)

  datatype Number = Int(n: int) | Float(f: FiniteFloat)

  // ---------------------------------------------------------------- writing

  function Zeros(n: nat): (s: string)
    ensures |s| == n
  {
    if n == 0 then "" else Zeros(n - 1) + "0"
  }

  /** How a float is laid out: what stands before the point, what behind it, and the exponent if one is written. */
  datatype Layout = Layout(whole: string, fraction: string, exponent: Option<int>)

  /** `repr` of a float with these digits: positional for exponents from -4 to 15, else scientific. */
  function LayoutOf(s: string, point: int): Layout
    requires s != ""
  {
    if !(-4 < point <= 16) then Layout(s[..1], s[1..], Some(point - 1))
    else if point <= 0 then Layout("0", Zeros(-point) + s, None)
    else if point >= |s| then Layout(s + Zeros(point - |s|), "0", None)
    else Layout(s[..point], s[point..], None)
  }

  function FractionText(fraction: string): string {
    if fraction == "" then "" else "." + fraction
  }

  /** The sign of an exponent is always written, and at least two digits. */
  function ExponentText(exponent: Option<int>): string {
    match exponent
    case None => ""
    case Some(e) => ['e', if e < 0 then '-' else '+'] + TwoDigits(Magnitude(e))
  }

  lemma ExponentWidth(e: int)
    ensures var text := ExponentText(Some(e));
            |text| >= 4 && text[0] == 'e' && (if e < 0 then text[1] == '-' else text[1] == '+')
  {
  }

  function Magnitude(n: int): nat {
    if n < 0 then -n else n
  }

  function WithSign(negative: bool, n: nat): int {
    var m: int := n;
    if negative then -m else m
  }

  function TwoDigits(n: nat): string {
    if n < 10 then "0" + Decimal(n) else Decimal(n)
  }

  function LayoutText(l: Layout): string {
    l.whole + (FractionText(l.fraction) + ExponentText(l.exponent))
  }

  function Signed(negative: bool, text: string): string {
    if negative then "-" + text else text
  }

  function NumberText(x: Number): string {
    match x
    case Int(n) => Signed(n < 0, Decimal(Magnitude(n)))
    case Float(f) => Signed(f.negative, LayoutText(LayoutOf(Decimal(f.digits), |Decimal(f.digits)| + f.exponent)))
  }

  // ---------------------------------------------------------------- reading

  predicate IsDigit(c: char) {
    '0' <= c <= '9'
  }

  predicate AllDigits(s: string) {
    forall i :: 0 <= i < |s| ==> IsDigit(s[i])
  }

  /** The digits that s starts with. */
  function LeadingDigits(s: string): (r: string)
    ensures r <= s && AllDigits(r)
  {
    if s != "" && IsDigit(s[0]) then [s[0]] + LeadingDigits(s[1..]) else ""
  }

  function ValueOf(s: string): nat
    requires AllDigits(s)
  {
    if s == "" then 0 else ValueOf(s[..|s| - 1]) * 10 + (s[|s| - 1] as int - '0' as int)
  }

  /** The normal form of digits * 10^exponent. */
  function Normalised(negative: bool, digits: nat, exponent: int): FiniteFloat
    decreases digits
  {
    if digits == 0 then Scientific(negative, 0, 0)
    else if digits % 10 == 0 then Normalised(negative, digits / 10, exponent + 1)
    else Scientific(negative, digits, exponent)
  }

  /** An optional point, with digits behind it. */
  function ReadFraction(s: string): (r: Option<(string, string)>)
    ensures r.Some? ==> AllDigits(r.value.0) && |r.value.1| <= |s|
  {
    if s == "" || s[0] != '.' then Some(("", s))
    else
      var digits := LeadingDigits(s[1..]);
      if digits == "" then None else Some((digits, s[1 + |digits|..]))
  }

  function ReadExponent(s: string): (r: Option<(Option<int>, string)>)
    ensures r.Some? ==> |r.value.1| <= |s|
  {
    if s == "" || !(s[0] == 'e' || s[0] == 'E') then Some((None, s))
    else
      var signed := |s| > 1 && (s[1] == '-' || s[1] == '+');
      var t := if signed then s[2..] else s[1..];
      var digits := LeadingDigits(t);
      if digits == "" then None
      else Some((Some(WithSign(signed && s[1] == '-', ValueOf(digits))), t[|digits|..]))
  }

  /** Text without point and exponent is an integer, other text a float. */
  function NumberOf(negative: bool, whole: string, fraction: string, exponent: Option<int>): Number
    requires AllDigits(whole) && AllDigits(fraction)
  {
    if fraction == "" && exponent.None? then Int(WithSign(negative, ValueOf(whole)))
    else Float(Normalised(negative, ValueOf(whole + fraction),
                          (if exponent.Some? then exponent.value else 0) - |fraction|))
  }

  function ReadUnsigned(negative: bool, s: string): (r: Option<(Number, string)>)
    ensures r.Some? ==> |r.value.1| < |s|
  {
    var whole := LeadingDigits(s);
    if whole == "" || (|whole| > 1 && whole[0] == '0') then None
    else
      var fraction := ReadFraction(s[|whole|..]);
      if fraction.None? then None
      else
        var exponent := ReadExponent(fraction.value.1);
        if exponent.None? then None
        else Some((NumberOf(negative, whole, fraction.value.0, exponent.value.0), exponent.value.1))
  }

  /** A number in the grammar of section 6 of RFC 8259. */
  function ReadNumber(s: string): (r: Option<(Number, string)>)
    ensures r.Some? ==> |r.value.1| < |s|
  {
    if s != "" && s[0] == '-' then ReadUnsigned(true, s[1..]) else ReadUnsigned(false, s)
  }

  // ---------------------------------------------------------------- digits come back

  predicate EndsDigits(rest: string) {
    rest != "" ==> !IsDigit(rest[0])
  }

  /** No digit, point or exponent follows. */
  predicate EndsNumber(rest: string) {
    rest != "" ==> !IsDigit(rest[0]) && rest[0] != '.' && rest[0] != 'e' && rest[0] != 'E'
  }

  lemma {:induction false} LeadingDigitsOf(a: string, rest: string)
    requires AllDigits(a) && EndsDigits(rest)
    ensures LeadingDigits(a + rest) == a && (a + rest)[|a|..] == rest
    decreases |a|
  {
    if a == "" {
      assert a + rest == rest;
    } else {
      assert (a + rest)[1..] == a[1..] + rest;
      LeadingDigitsOf(a[1..], rest);
    }
  }

  lemma DigitChar(d: nat)
    requires d < 10
    ensures IsDigit("0123456789"[d]) && "0123456789"[d] as int - '0' as int == d
  {
  }

  lemma {:induction false} DecimalDigits(n: nat)
    ensures AllDigits(Decimal(n)) && ValueOf(Decimal(n)) == n
    ensures Decimal(n) != "" && (n > 0 ==> Decimal(n)[0] != '0') && (n == 0 ==> Decimal(n) == "0")
  {
    DigitChar(n % 10);
    var s := Decimal(n);
    assert s[|s| - 1] == "0123456789"[n % 10];
    if n < 10 {
      assert s[..|s| - 1] == "" && ValueOf("") == 0;
    } else {
      DecimalDigits(n / 10);
      assert s[..|s| - 1] == Decimal(n / 10);
    }
  }

  lemma {:induction false} ZerosDigits(k: nat)
    ensures AllDigits(Zeros(k)) && ValueOf(Zeros(k)) == 0
  {
    if k > 0 {
      ZerosDigits(k - 1);
      assert Zeros(k)[..k - 1] == Zeros(k - 1);
    }
  }

  /** Leading zeros do not count. */
  lemma {:induction false} LeadingZeros(k: nat, s: string)
    requires AllDigits(s)
    ensures AllDigits(Zeros(k) + s) && ValueOf(Zeros(k) + s) == ValueOf(s)
    decreases |s|
  {
    ZerosDigits(k);
    if s == "" {
      assert Zeros(k) + s == Zeros(k);
    } else {
      var t := Zeros(k) + s;
      LeadingZeros(k, s[..|s| - 1]);
      assert t[..|t| - 1] == Zeros(k) + s[..|s| - 1];
    }
  }

  lemma ValueSnoc(s: string, c: char)
    requires AllDigits(s) && IsDigit(c)
    ensures AllDigits(s + [c]) && ValueOf(s + [c]) == ValueOf(s) * 10 + (c as int - '0' as int)
  {
    assert (s + [c])[..|s|] == s;
  }

  lemma NormalisedTenfold(negative: bool, digits: nat, exponent: int)
    ensures Normalised(negative, digits * 10, exponent) == Normalised(negative, digits, exponent + 1)
  {
    assert digits * 10 % 10 == 0 && digits * 10 / 10 == digits;
  }

  /** Trailing zeros move into the exponent. */
  lemma {:induction false} TrailingZeros(negative: bool, s: string, k: nat, exponent: int)
    requires AllDigits(s)
    ensures AllDigits(s + Zeros(k))
    ensures Normalised(negative, ValueOf(s + Zeros(k)), exponent) == Normalised(negative, ValueOf(s), exponent + k)
    decreases k
  {
    if k == 0 {
      assert s + Zeros(0) == s;
    } else {
      var t := s + Zeros(k - 1);
      assert s + Zeros(k) == t + ['0'];
      TrailingZeros(negative, s, k - 1, exponent + 1);
      ValueSnoc(t, '0');
      NormalisedTenfold(negative, ValueOf(t), exponent);
    }
  }

  lemma TwoDigitsBack(n: nat)
    ensures AllDigits(TwoDigits(n)) && TwoDigits(n) != "" && ValueOf(TwoDigits(n)) == n
  {
    DecimalDigits(n);
    LeadingZeros(1, Decimal(n));
    assert Zeros(1) == "0";
  }

  // ---------------------------------------------------------------- numbers come back

  lemma FractionBack(fraction: string, rest: string)
    requires AllDigits(fraction) && EndsDigits(rest) && (rest != "" ==> rest[0] != '.')
    ensures ReadFraction(FractionText(fraction) + rest) == Some((fraction, rest))
  {
    var s := FractionText(fraction) + rest;
    if fraction != "" {
      assert s[1..] == fraction + rest;
      LeadingDigitsOf(fraction, rest);
      assert s[1 + |fraction|..] == s[1..][|fraction|..];
    } else {
      assert s == rest;
    }
  }

  lemma ExponentRead(sign: char, digits: string, rest: string)
    requires (sign == '-' || sign == '+') && AllDigits(digits) && digits != "" && EndsDigits(rest)
    ensures ReadExponent(['e', sign] + digits + rest) == Some((Some(WithSign(sign == '-', ValueOf(digits))), rest))
  {
    var s := ['e', sign] + digits + rest;
    assert s[2..] == digits + rest;
    LeadingDigitsOf(digits, rest);
  }

  lemma ExponentTextIs(e: int, digits: string)
    requires digits == TwoDigits(Magnitude(e))
    ensures ExponentText(Some(e)) == ['e', if e < 0 then '-' else '+'] + digits
  {
  }

  lemma WrittenExponentBack(e: int, digits: string, text: string, rest: string)
    requires AllDigits(digits) && digits != "" && ValueOf(digits) == Magnitude(e) && EndsDigits(rest)
    requires text == ['e', if e < 0 then '-' else '+'] + digits
    ensures ReadExponent(text + rest) == Some((Some(e), rest)) && text + rest != "" && (text + rest)[0] == 'e'
  {
    ExponentRead(if e < 0 then '-' else '+', digits, rest);
  }

  lemma ExponentBack(exponent: Option<int>, rest: string)
    requires EndsNumber(rest)
    ensures ReadExponent(ExponentText(exponent) + rest) == Some((exponent, rest))
    ensures EndsDigits(ExponentText(exponent) + rest)
    ensures ExponentText(exponent) + rest != "" ==> (ExponentText(exponent) + rest)[0] != '.'
  {
    if exponent.None? {
      assert ExponentText(exponent) + rest == rest;
    } else {
      var e := exponent.value;
      var digits := TwoDigits(Magnitude(e));
      TwoDigitsBack(Magnitude(e));
      ExponentTextIs(e, digits);
      WrittenExponentBack(e, digits, ExponentText(exponent), rest);
    }
  }

  lemma LayoutBack(negative: bool, l: Layout, rest: string)
    requires WellFormed(l) && EndsNumber(rest)
    ensures ReadUnsigned(negative, LayoutText(l) + rest)
         == Some((NumberOf(negative, l.whole, l.fraction, l.exponent), rest))
  {
    var behind := ExponentText(l.exponent) + rest;
    var after := FractionText(l.fraction) + behind;
    assert LayoutText(l) + rest == l.whole + after;
    ExponentBack(l.exponent, rest);
    FractionBack(l.fraction, behind);
    assert EndsDigits(after);
    LeadingDigitsOf(l.whole, after);
  }

  predicate WellFormed(l: Layout) {
    AllDigits(l.whole) && l.whole != "" && (|l.whole| > 1 ==> l.whole[0] != '0') && AllDigits(l.fraction)
  }

  /** The layout of a normal form has well-formed parts, and reads as that form. */
  lemma LayoutMeans(f: FiniteFloat, s: string)
    requires s == Decimal(f.digits)
    ensures var l := LayoutOf(s, |s| + f.exponent);
            WellFormed(l) && NumberOf(f.negative, l.whole, l.fraction, l.exponent) == Float(f)
  {
    var point := |s| + f.exponent;
    DecimalDigits(f.digits);
    if !(-4 < point <= 16) {
      SplitMeans(f, s, 1, point - 1);
    } else if point <= 0 {
      SmallMeans(f, s, -point);
    } else if point >= |s| {
      LargeMeans(f, s, point - |s|);
    } else {
      SplitMeans(f, s, point, 0);
    }
  }

  /** The digits with a point among them. */
  lemma SplitMeans(f: FiniteFloat, s: string, k: nat, e: int)
    requires AllDigits(s) && 0 < k <= |s| && ValueOf(s) == f.digits && f.exponent == e - (|s| - k)
    ensures AllDigits(s[..k]) && AllDigits(s[k..])
    ensures NumberOf(f.negative, s[..k], s[k..], Some(e)) == Float(f)
    ensures k < |s| && e == 0 ==> NumberOf(f.negative, s[..k], s[k..], None) == Float(f)
  {
    assert s[..k] + s[k..] == s;
  }

  /** What a text with a fraction and no exponent denotes. */
  lemma PointMeans(f: FiniteFloat, whole: string, fraction: string, all: string)
    requires AllDigits(whole) && AllDigits(fraction) && fraction != "" && whole + fraction == all
    requires AllDigits(all) && Normalised(f.negative, ValueOf(all), 0 - |fraction|) == f
    ensures NumberOf(f.negative, whole, fraction, None) == Float(f)
  {
  }

  lemma NormalStays(f: FiniteFloat)
    ensures Normalised(f.negative, f.digits, f.exponent) == f
  {
  }

  lemma SmallMeans(f: FiniteFloat, s: string, k: nat)
    requires AllDigits(s) && s != "" && ValueOf(s) == f.digits && f.exponent == 0 - k - |s|
    ensures AllDigits(Zeros(k) + s) && NumberOf(f.negative, "0", Zeros(k) + s, None) == Float(f)
  {
    LeadingZeros(k, s);
    var fraction := Zeros(k) + s;
    var all := "0" + fraction;
    assert AllDigits(all) && ValueOf(all) == f.digits by {
      LeadingZeros(1, fraction);
      assert Zeros(1) == "0";
    }
    NormalStays(f);
    PointMeans(f, "0", fraction, all);
  }

  lemma OneMoreZero(s: string, k: nat)
    ensures s + Zeros(k) + "0" == s + Zeros(k + 1)
  {
  }

  lemma LargeMeans(f: FiniteFloat, s: string, k: nat)
    requires AllDigits(s) && s != "" && ValueOf(s) == f.digits && f.exponent == k
    ensures AllDigits(s + Zeros(k)) && NumberOf(f.negative, s + Zeros(k), "0", None) == Float(f)
  {
    ZerosDigits(k);
    var whole, all := s + Zeros(k), s + Zeros(k + 1);
    OneMoreZero(s, k);
    assert AllDigits(all) && Normalised(f.negative, ValueOf(all), -1) == f by {
      TrailingZeros(f.negative, s, k + 1, -1);
      NormalStays(f);
    }
    PointMeans(f, whole, "0", all);
  }

  lemma WholeBack(negative: bool, text: string, m: nat, rest: string)
    requires AllDigits(text) && text != "" && (|text| > 1 ==> text[0] != '0') && ValueOf(text) == m && EndsNumber(rest)
    ensures ReadNumber(Signed(negative, text) + rest) == Some((Int(WithSign(negative, m)), rest))
  {
    var l := Layout(text, "", None);
    assert FractionText("") + ExponentText(None) == "" && text + "" == text;
    assert LayoutText(l) == text;
    LayoutBack(negative, l, rest);
    SignedBack(negative, text, rest);
  }

  lemma IntBack(n: int, rest: string)
    requires EndsNumber(rest)
    ensures ReadNumber(NumberText(Int(n)) + rest) == Some((Int(n), rest))
  {
    DecimalDigits(Magnitude(n));
    WholeBack(n < 0, Decimal(Magnitude(n)), Magnitude(n), rest);
  }

  lemma FloatBack(f: FiniteFloat, rest: string)
    requires EndsNumber(rest)
    ensures ReadNumber(NumberText(Float(f)) + rest) == Some((Float(f), rest))
  {
    var s := Decimal(f.digits);
    var l := LayoutOf(s, |s| + f.exponent);
    LayoutMeans(f, s);
    LayoutBack(f.negative, l, rest);
    SignedBack(f.negative, LayoutText(l), rest);
  }

  /** Every number is read back as what was written, integers as integers and floats as floats. */
  lemma NumberBack(x: Number, rest: string)
    requires EndsNumber(rest)
    ensures ReadNumber(NumberText(x) + rest) == Some((x, rest))
  {
    match x
    case Int(n) => IntBack(n, rest);
    case Float(f) => FloatBack(f, rest);
  }

  /** A number's text starts with a minus sign or a digit, and consists of number characters. */
  lemma NumberStarts(x: Number)
    ensures NumberText(x) != "" && (NumberText(x)[0] == '-' || IsDigit(NumberText(x)[0]))
  {
    match x
    case Int(n) => DecimalDigits(Magnitude(n));
    case Float(f) => LayoutMeans(f, Decimal(f.digits));
  }

  lemma SignedBack(negative: bool, text: string, rest: string)
    requires text != "" && IsDigit(text[0])
    ensures ReadNumber(Signed(negative, text) + rest) == ReadUnsigned(negative, text + rest)
  {
    var s := Signed(negative, text) + rest;
    if negative {
      assert s[1..] == text + rest;
    }
  }
}
