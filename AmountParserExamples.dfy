/** The amounts the parser's tests feed `parseDecimalAmount`, and what it
    returns for them. */
module AmountParserExamples {
  import opened Wrappers
  import opened Digits
  import opened AmountParser

  lemma Accepts(text: string, integerDigits: string, fractionDigits: string, decimalDigits: int, value: int)
    requires |integerDigits| > 0 && AllDigits(integerDigits) && AllDigits(fractionDigits)
    requires text == integerDigits + "." + fractionDigits
    requires MovePointRight(Decimal(false, integerDigits, fractionDigits), decimalDigits) == value
    ensures ParseDecimalAmount(text, decimalDigits) == Ok(value)
  {
    PlainDecimalParses(integerDigits, fractionDigits, decimalDigits);
  }

  lemma AcceptsWhole(text: string, decimalDigits: int, value: int)
    requires |text| > 0 && AllDigits(text)
    requires MovePointRight(Decimal(false, text, ""), decimalDigits) == value
    ensures ParseDecimalAmount(text, decimalDigits) == Ok(value)
  {
    WholeNumberParses(text, decimalDigits);
  }

  lemma AcceptsNegative(text: string, integerDigits: string, fractionDigits: string, decimalDigits: int, value: int)
    requires |integerDigits| > 0 && AllDigits(integerDigits) && AllDigits(fractionDigits)
    requires text == ['-'] + (integerDigits + "." + fractionDigits)
    requires MovePointRight(Decimal(false, integerDigits, fractionDigits), decimalDigits) == value
    ensures ParseDecimalAmount(text, decimalDigits) == Ok(-value)
  {
    NegativeDecimalParses(integerDigits, fractionDigits, decimalDigits, value);
  }

  lemma Rejects(text: string, at: nat, decimalDigits: int)
    requires |text| > 0 && !IsBlank(text[0]) && !IsBlank(text[|text| - 1])
    requires at < |text| && !IsDigit(text[at]) && text[at] != GROUPING_SEPARATOR && text[at] != DECIMAL_SEPARATOR
    requires text[at] != '-'
    ensures ParseDecimalAmount(text, decimalDigits).Err?
  {
    TrimOfTrimmed(text);
    ForeignCharacterRejected(text, at, decimalDigits);
  }

  /** A whole number with no minor digits is itself. */
  lemma ExampleWhole201()
    ensures ParseDecimalAmount("201", 0) == Ok(201)
  {
    assert "201"[..2] == "20" && "20"[..1] == "2";
    AcceptsWhole("201", 0, 201);
  }

  lemma ExampleWholeZeroTwoDecimals()
    ensures ParseDecimalAmount("0", 2) == Ok(0)
  {
    AcceptsWhole("0", 2, 0);
  }

  /** A whole number with two minor digits is scaled by 100. */
  lemma ExampleWholeTwoDecimals()
    ensures ParseDecimalAmount("2", 2) == Ok(200)
  {
    AcceptsWhole("2", 2, 200);
  }

  /** Three minor digits scale a whole number by 1000. */
  lemma ExampleWholeThreeDecimals()
    ensures ParseDecimalAmount("2", 3) == Ok(2000)
  {
    assert TruncatedFraction("", 3) == Zeros(3);
    ZerosValue(3);
    assert Pow10(3) == 1000;
    AcceptsWhole("2", 3, 2000);
  }

  /** With no minor digits the fraction is dropped: "2.01" is 2, not 200. */
  lemma ExampleNoDecimals201()
    ensures ParseDecimalAmount("2.01", 0) == Ok(2)
  {
    Accepts("2.01", "2", "01", 0, 2);
  }

  lemma ExampleNoDecimals001()
    ensures ParseDecimalAmount("0.01", 0) == Ok(0)
  {
    Accepts("0.01", "0", "01", 0, 0);
  }

  lemma ExampleNoDecimals21()
    ensures ParseDecimalAmount("2.1", 0) == Ok(2)
  {
    Accepts("2.1", "2", "1", 0, 2);
  }

  /** Two minor digits. */
  lemma ExampleTwoDecimals201()
    ensures ParseDecimalAmount("2.01", 2) == Ok(201)
  {
    Accepts("2.01", "2", "01", 2, 201);
  }

  lemma ExampleTwoDecimals001()
    ensures ParseDecimalAmount("0.01", 2) == Ok(1)
  {
    Accepts("0.01", "0", "01", 2, 1);
  }

  /** A short fraction is padded with zeros. */
  lemma ExampleTwoDecimals21()
    ensures ParseDecimalAmount("2.1", 2) == Ok(210)
  {
    Accepts("2.1", "2", "1", 2, 210);
  }

  /** Digits beyond the minor digits are cut, never rounded; ten fraction digits are accepted. */
  lemma ExampleTruncatesDown()
    ensures ParseDecimalAmount("2.0099999999", 2) == Ok(200)
  {
    Accepts("2.0099999999", "2", "0099999999", 2, 200);
  }

  lemma ExampleTruncatesUp()
    ensures ParseDecimalAmount("2.0100000001", 2) == Ok(201)
  {
    Accepts("2.0100000001", "2", "0100000001", 2, 201);
  }

  /** A leading '-' negates. */
  lemma ExampleNegative201()
    ensures ParseDecimalAmount("-2.01", 2) == Ok(-201)
  {
    AcceptsNegative("-2.01", "2", "01", 2, 201);
  }

  lemma ExampleNegative21()
    ensures ParseDecimalAmount("-2.1", 2) == Ok(-210)
  {
    AcceptsNegative("-2.1", "2", "1", 2, 210);
  }

  /** Empty text has no digit. */
  lemma ExampleEmptyRejected(decimalDigits: int)
    ensures ParseDecimalAmount("", decimalDigits).Err?
  {
    NoDigitRejected("", decimalDigits);
  }

  /** A character the format does not read is rejected wherever it stands, so the whole text must be read. */
  lemma ExampleLeadingGarbageRejected(decimalDigits: int)
    ensures ParseDecimalAmount("garbage4", decimalDigits).Err?
  {
    Rejects("garbage4", 0, decimalDigits);
  }

  lemma ExampleLeadingWordsRejected(decimalDigits: int)
    ensures ParseDecimalAmount("this is garbage2.0", decimalDigits).Err?
  {
    Rejects("this is garbage2.0", 0, decimalDigits);
  }

  lemma ExampleTrailingGarbageRejected(decimalDigits: int)
    ensures ParseDecimalAmount("4garbage", decimalDigits).Err?
  {
    Rejects("4garbage", 1, decimalDigits);
  }

  lemma ExampleGarbageAfterDotRejected(decimalDigits: int)
    ensures ParseDecimalAmount("2.garbage", decimalDigits).Err?
  {
    Rejects("2.garbage", 2, decimalDigits);
  }

  lemma ExampleGarbageAfterFractionRejected(decimalDigits: int)
    ensures ParseDecimalAmount("2.0garbage", decimalDigits).Err?
  {
    Rejects("2.0garbage", 3, decimalDigits);
  }

  lemma ExampleGarbageAfterLongFractionRejected(decimalDigits: int)
    ensures ParseDecimalAmount("0.004garbage", decimalDigits).Err?
  {
    Rejects("0.004garbage", 5, decimalDigits);
  }
}
