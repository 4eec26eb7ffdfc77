/** Numeric literals of standard SQL: digits, an optional fraction and an optional exponent. */
module SqlNumber {
  import opened Prelude
  import D = Decimal

  type Digits = s: string | D.AllDigits(s)

  /** An integer, or `mantissa` times ten to the power `exponent`. */
  datatype Number = Int(n: int) | Decimal(mantissa: int, exponent: int)

  function Negate(x: Number): Number {
    match x
    case Int(n) => Int(-n)
    case Decimal(m, e) => Decimal(-m, e)
  }

  // ----- Reading

  /** The digits after a period, if there is one, and what follows. */
  function ReadFraction(s: string): (Option<Digits>, string) {
    if s != "" && s[0] == '.' then
      var k := D.Span(s[1..]);
      (Some(s[1..][..k]), s[1..][k..])
    else (None, s)
  }

  predicate Signed(s: string) {
    s != "" && (s[0] == '+' || s[0] == '-')
  }

  /** A sign is optional. */
  function Unsigned(s: string): string {
    if Signed(s) then s[1..] else s
  }

  function Negative(s: string): bool {
    s != "" && s[0] == '-'
  }

  function WithSign(negative: bool, n: int): int {
    if negative then -n else n
  }

  /** The exponent, if there is one, and what follows. */
  function ReadExponent(s: string): (Option<int>, string) {
    if s != "" && (s[0] == 'e' || s[0] == 'E') then
      var u := Unsigned(s[1..]);
      var k := D.Span(u);
      if k == 0 then (None, s) else (Some(WithSign(Negative(s[1..]), D.Value(u[..k]))), u[k..])
    else (None, s)
  }

  function NumberOf(whole: Digits, fraction: Option<Digits>, exponent: Option<int>): Number {
    if fraction.None? && exponent.None? then Int(D.Value(whole))
    else
      var f: Digits := if fraction.Some? then fraction.value else "";
      var e := if exponent.Some? then exponent.value else 0;
      Decimal(D.Value(Concat(whole, f)), e - |f|)
  }

  function Concat(a: Digits, b: Digits): Digits {
    a + b
  }

  function ReadNumber(s: string): Option<(Number, string)> {
    var n := D.Span(s);
    var (fraction, s2) := ReadFraction(s[n..]);
    var (exponent, s3) := ReadExponent(s2);
    if n == 0 && (fraction.None? || fraction.value == "") then None
    else Some((NumberOf(s[..n], fraction, exponent), s3))
  }

  // ----- Reading with something behind

  /** Nothing follows, or the list goes on or ends. */
  predicate Ends(rest: string) {
    rest == "" || rest[0] == ',' || rest[0] == ')'
  }

  lemma {:induction false} SpanExtends(s: string, rest: string)
    requires rest == "" || !D.IsDigit(rest[0])
    ensures D.Span(s + rest) == D.Span(s)
  {
    if s == "" {
      assert s + rest == rest;
    } else {
      assert (s + rest)[1..] == s[1..] + rest;
      SpanExtends(s[1..], rest);
    }
  }

  lemma Cut(s: string, rest: string, k: nat)
    requires k <= |s|
    ensures (s + rest)[..k] == s[..k] && (s + rest)[k..] == s[k..] + rest
  {
  }

  lemma FractionExtends(s: string, rest: string)
    requires Ends(rest)
    ensures ReadFraction(s + rest) == (ReadFraction(s).0, ReadFraction(s).1 + rest)
  {
    if s == "" {
      assert s + rest == rest;
    } else if s[0] == '.' {
      Cut(s, rest, 1);
      SpanExtends(s[1..], rest);
      Cut(s[1..], rest, D.Span(s[1..]));
    }
  }

  lemma ExponentDigits(u: string, rest: string)
    requires Ends(rest)
    ensures D.Span(u + rest) == D.Span(u)
    ensures (u + rest)[..D.Span(u)] == u[..D.Span(u)] && (u + rest)[D.Span(u)..] == u[D.Span(u)..] + rest
  {
    SpanExtends(u, rest);
    Cut(u, rest, D.Span(u));
  }

  lemma SignExtends(s: string, rest: string)
    requires Ends(rest)
    ensures Unsigned(s + rest) == Unsigned(s) + rest && Negative(s + rest) == Negative(s)
  {
    if s == "" {
      assert s + rest == rest;
    } else if Signed(s) {
      Cut(s, rest, 1);
    }
  }

  lemma ExponentExtends(s: string, rest: string)
    requires Ends(rest)
    ensures ReadExponent(s + rest) == (ReadExponent(s).0, ReadExponent(s).1 + rest)
  {
    if s == "" {
      assert s + rest == rest;
    } else if s[0] == 'e' || s[0] == 'E' {
      Cut(s, rest, 1);
      SignExtends(s[1..], rest);
      ExponentDigits(Unsigned(s[1..]), rest);
    }
  }

  /** What may follow a number does not change it. */
  lemma NumberExtends(s: string, rest: string)
    requires Ends(rest)
    ensures ReadNumber(s + rest) ==
            if ReadNumber(s).None? then None else Some((ReadNumber(s).value.0, ReadNumber(s).value.1 + rest))
  {
    var n := D.Span(s);
    SpanExtends(s, rest);
    Cut(s, rest, n);
    FractionExtends(s[n..], rest);
    ExponentExtends(ReadFraction(s[n..]).1, rest);
  }

  // ----- Floating-point numbers as `%v` prints them

  function Pow10(k: nat): nat {
    if k == 0 then 1 else 10 * Pow10(k - 1)
  }

  lemma LastDigit(a: Digits, b: Digits)
    requires b != ""
    ensures var init: Digits := b[..|b| - 1];
            D.Value(Concat(a, b)) == 10 * D.Value(Concat(a, init)) + (b[|b| - 1] as int - 48)
  {
    var init: Digits := b[..|b| - 1];
    assert Concat(a, b)[..|a + b| - 1] == Concat(a, init);
    assert Concat(a, b)[|a + b| - 1] == b[|b| - 1];
  }

  lemma {:induction false} ValueOfConcat(a: Digits, b: Digits)
    ensures D.Value(Concat(a, b)) == D.Value(a) * Pow10(|b|) + D.Value(b)
  {
    if b == "" {
      assert Concat(a, b) == a;
    } else {
      var init: Digits := b[..|b| - 1];
      LastDigit(a, b);
      ValueOfConcat(a, init);
      Distribute(D.Value(a), Pow10(|init|));
      assert D.Value(b) == 10 * D.Value(init) + (b[|b| - 1] as int - 48);
    }
  }

  lemma Distribute(v: nat, p: nat)
    ensures v * (10 * p) == 10 * (v * p)
  {
  }

  function FractionText(f: Digits): string {
    if f == "" then "" else "." + f
  }

  function TwoDigits(n: nat): Digits {
    if n < 10 then Concat("0", D.Print(n)) else D.Print(n)
  }

  /** A sign and at least two digits. */
  function ExponentText(e: Option<int>): string {
    if e.None? then ""
    else if e.value < 0 then "e-" + TwoDigits(-e.value)
    else "e+" + TwoDigits(e.value)
  }

  function PrintUnsigned(whole: nat, fraction: Digits, exponent: Option<int>): string {
    D.Print(whole) + (FractionText(fraction) + ExponentText(exponent))
  }

  lemma PrintedStartsWithDigit(whole: nat, fraction: Digits, exponent: Option<int>)
    ensures var s := PrintUnsigned(whole, fraction, exponent); s != "" && D.IsDigit(s[0])
  {
    var digits := D.Print(whole);
    FirstOf(digits, FractionText(fraction) + ExponentText(exponent));
    assert D.IsDigit(digits[0]);
  }

  lemma FirstOf(a: string, b: string)
    requires a != ""
    ensures a + b != "" && (a + b)[0] == a[0]
  {
  }

  /** The number that was printed. */
  function Amount(whole: nat, fraction: Digits, exponent: Option<int>): Number {
    if fraction == "" && exponent.None? then Int(whole)
    else
      Decimal(whole * Pow10(|fraction|) + D.Value(fraction),
              (if exponent.Some? then exponent.value else 0) - |fraction|)
  }

  lemma TwoDigitsValue(n: nat)
    ensures D.Value(TwoDigits(n)) == n && TwoDigits(n) != ""
  {
    D.ValueOfPrint(n);
    if n < 10 {
      ValueOfConcat("0", D.Print(n));
      assert "0"[..0] == "";
      assert D.Value("0") == 0;
    }
  }

  lemma ReadsExponentDigits(ds: Digits)
    requires ds != ""
    ensures D.Span(ds) == |ds| && ds[..|ds|] == ds && ds[|ds|..] == ""
  {
    assert ds + "" == ds;
    D.SpanOfDigits(ds, "");
  }

  lemma ReadsSigned(sign: char, ds: Digits)
    requires (sign == '+' || sign == '-') && ds != ""
    ensures ReadExponent(['e', sign] + ds) == (Some(WithSign(sign == '-', D.Value(ds))), "")
  {
    ReadsExponentDigits(ds);
    var s := ['e', sign] + ds;
    assert s[1..] == [sign] + ds;
    assert ([sign] + ds)[1..] == ds;
  }

  lemma ReadsExponent(e: Option<int>)
    ensures ReadExponent(ExponentText(e)) == (e, "")
  {
    if e.Some? {
      if e.value < 0 {
        TwoDigitsValue(-e.value);
        ReadsSigned('-', TwoDigits(-e.value));
      } else {
        TwoDigitsValue(e.value);
        ReadsSigned('+', TwoDigits(e.value));
      }
    }
  }

  lemma ReadsFraction(f: Digits, tail: string)
    requires tail == "" || (tail[0] != '.' && !D.IsDigit(tail[0]))
    ensures ReadFraction(FractionText(f) + tail) == (if f == "" then None else Some(f), tail)
  {
    var s := FractionText(f) + tail;
    if f == "" {
      assert s == tail;
    } else {
      assert s[1..] == f + tail;
      D.SpanOfDigits(f, tail);
      assert (f + tail)[..|f|] == f && (f + tail)[|f|..] == tail;
    }
  }

  lemma ReadInParts(s: string, n: nat, fraction: Option<Digits>, s2: string, exponent: Option<int>, s3: string)
    requires D.Span(s) == n > 0 && ReadFraction(s[n..]) == (fraction, s2) && ReadExponent(s2) == (exponent, s3)
    ensures ReadNumber(s) == Some((NumberOf(s[..n], fraction, exponent), s3))
  {
  }

  lemma AmountIsRead(whole: nat, fraction: Digits, exponent: Option<int>)
    ensures NumberOf(D.Print(whole), if fraction == "" then None else Some(fraction), exponent)
            == Amount(whole, fraction, exponent)
  {
    D.ValueOfPrint(whole);
    ValueOfConcat(D.Print(whole), fraction);
  }

  /** A printed floating-point number reads back as the number it was printed for. */
  lemma ReadsPrinted(whole: nat, fraction: Digits, exponent: Option<int>)
    ensures ReadNumber(PrintUnsigned(whole, fraction, exponent)) == Some((Amount(whole, fraction, exponent), ""))
  {
    var digits, tail := D.Print(whole), FractionText(fraction) + ExponentText(exponent);
    StartsNoDigit(fraction, exponent);
    D.SpanOfDigits(digits, tail);
    assert (digits + tail)[..|digits|] == digits && (digits + tail)[|digits|..] == tail;
    ReadsFraction(fraction, ExponentText(exponent));
    ReadsExponent(exponent);
    ReadInParts(digits + tail, |digits|, if fraction == "" then None else Some(fraction), ExponentText(exponent), exponent, "");
    AmountIsRead(whole, fraction, exponent);
  }

  lemma StartsNoDigit(f: Digits, e: Option<int>)
    ensures var s := FractionText(f) + ExponentText(e); s == "" || !D.IsDigit(s[0])
  {
    if f == "" {
      assert FractionText(f) + ExponentText(e) == ExponentText(e);
    }
  }
}
