/** The currencies: a code, and how amounts in it are read from text and
    written back. `TwoDecimalsCurrency` counts in hundredths (USD, EUR and
    any code without a class of its own); `NoDecimalsCurrency` counts in
    whole units (JPY). */
module Currencies {
  import opened Wrappers
  import opened Digits
  import opened AmountParser

  datatype Currency = TwoDecimals(code: string) | NoDecimals(code: string)

  const USD: Currency := TwoDecimals("USD")
  const EUR: Currency := TwoDecimals("EUR")
  const JPY: Currency := NoDecimals("JPY")

  /** `currencyCode()`. */
  function CurrencyCode(c: Currency): string {
    c.code
  }

  /** How many places the point moves between the text and the minor units. */
  function MinorDigits(c: Currency): nat {
    match c
    case TwoDecimals(_) => 2
    case NoDecimals(_) => 0
  }

  /** `parseFromString`: the amount parser with the currency's minor digits. */
  function ParseFromString(c: Currency, amount: string): Result<int, ParseError> {
    ParseDecimalAmount(amount, MinorDigits(c))
  }

  /** The two digits of n % 100, tens first. */
  function Cents(n: nat): (s: string)
    ensures |s| == 2 && AllDigits(s) && DigitsValue(s) == n % 100
  {
    var tens, units := n % 100 / 10, n % 10;
    var s := [DigitChar(tens), DigitChar(units)];
    assert s[..1] == [s[0]] && s[..1][..0] == [];
    assert DigitsValue(s[..1]) == tens;
    assert tens * 10 + units == n % 100;
    s
  }

  /** `new BigDecimal(n).movePointLeft(2).toPlainString()`: the sign, the
      whole units (at least "0"), '.', and always two fraction digits. */
  function FormatTwoDecimals(n: int): (s: string)
    ensures |s| >= 4 && s[|s| - 3] == DECIMAL_SEPARATOR
    ensures forall i :: 0 <= i < |s| && i != |s| - 3 ==> IsDigit(s[i]) || (i == 0 && s[i] == '-')
    ensures s[0] == '-' <==> n < 0
  {
    var m := if n < 0 then -n else n;
    var unsigned := NaturalText(m / 100) + "." + Cents(m);
    if n < 0 then "-" + unsigned else unsigned
  }

  /** `toFriendlyString`. */
  function ToFriendlyString(c: Currency, n: int): (s: string)
    ensures c.TwoDecimals? ==> s == FormatTwoDecimals(n)
    ensures c.NoDecimals? ==> s == IntegerText(n)
    ensures forall i :: 0 <= i < |s| ==> s[i] != GROUPING_SEPARATOR
  {
    match c
    case TwoDecimals(_) => FormatTwoDecimals(n)
    case NoDecimals(_) => IntegerText(n)
  }

  /** `BigInteger.toString()` has no decimal separator. */
  lemma NoDecimalsFormatIsWhole(n: int)
    ensures forall i :: 0 <= i < |ToFriendlyString(JPY, n)| ==>
      IsDigit(ToFriendlyString(JPY, n)[i]) || (i == 0 && ToFriendlyString(JPY, n)[i] == '-')
  {
  }

  lemma WholePlusCents(m: nat)
    ensures (m / 100) * 100 + m % 100 == m
  {
  }

  /** The written whole units and cents, moved two places right, are m again. */
  lemma CentsValue(m: nat, whole: string, cents: string)
    requires whole == NaturalText(m / 100) && cents == Cents(m)
    ensures MovePointRight(Decimal(false, whole, cents), 2) == m
  {
    assert TruncatedFraction(cents, 2) == cents;
    assert Pow10(2) == 100;
    assert Magnitude(Decimal(false, whole, cents), 2) == (m / 100) * 100 + m % 100;
    WholePlusCents(m);
  }

  lemma UnsignedTwoDecimals(m: nat, whole: string, cents: string)
    requires whole == NaturalText(m / 100) && cents == Cents(m)
    ensures ParseDecimalAmount(whole + "." + cents, 2) == Ok(m)
  {
    PlainDecimalParses(whole, cents, 2);
    CentsValue(m, whole, cents);
  }

  /** Reading back what a two-decimal currency wrote gives the same amount. */
  lemma TwoDecimalsRoundTrip(code: string, n: int)
    ensures ParseFromString(TwoDecimals(code), ToFriendlyString(TwoDecimals(code), n)) == Ok(n)
  {
    var m := if n < 0 then -n else n;
    var whole, cents := NaturalText(m / 100), Cents(m);
    var unsigned := whole + "." + cents;
    UnsignedTwoDecimals(m, whole, cents);
    if n < 0 {
      MinusNegates("-" + unsigned, unsigned, 2, m);
    }
  }

  lemma UnsignedNoDecimals(m: nat)
    ensures ParseDecimalAmount(NaturalText(m), 0) == Ok(m)
  {
    var text := NaturalText(m);
    WholeNumberParses(text, 0);
    assert TruncatedFraction("", 0) == "";
    assert Magnitude(Decimal(false, text, ""), 0) == m;
  }

  /** Reading back what a no-decimal currency wrote gives the same amount. */
  lemma NoDecimalsRoundTrip(code: string, n: int)
    ensures ParseFromString(NoDecimals(code), ToFriendlyString(NoDecimals(code), n)) == Ok(n)
  {
    var m := if n < 0 then -n else n;
    var text := NaturalText(m);
    UnsignedNoDecimals(m);
    if n < 0 {
      MinusNegates("-" + text, text, 0, m);
    }
  }

  /** Every currency reads back what it writes. */
  lemma RoundTrip(c: Currency, n: int)
    ensures ParseFromString(c, ToFriendlyString(c, n)) == Ok(n)
  {
    match c
    case TwoDecimals(code) => TwoDecimalsRoundTrip(code, n);
    case NoDecimals(code) => NoDecimalsRoundTrip(code, n);
  }

  /** So distinct amounts are written differently. */
  lemma FriendlyStringInjective(c: Currency, a: int, b: int)
    requires ToFriendlyString(c, a) == ToFriendlyString(c, b)
    ensures a == b
  {
    RoundTrip(c, a);
    RoundTrip(c, b);
  }
}
