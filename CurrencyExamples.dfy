/** The amounts the currency tests read and write: text in, minor units,
    text out in the currency's own form. */
module CurrencyExamples {
  import opened Wrappers
  import opened Currencies
  import opened AmountParserExamples

  /** "2.01" USD is 201 cents, "2.1" is 210 and "2" is 200. */
  lemma UsdParses()
    ensures ParseFromString(USD, "2.01") == Ok(201) && ParseFromString(USD, "2.1") == Ok(210)
    ensures ParseFromString(USD, "2") == Ok(200)
  {
    ExampleTwoDecimals201();
    ExampleTwoDecimals21();
    ExampleWholeTwoDecimals();
  }

  /** USD always writes two fraction digits: 201, 210 and 200 cents are
      "2.01", "2.10" and "2.00". */
  lemma UsdFormats()
    ensures ToFriendlyString(USD, 201) == "2.01" && ToFriendlyString(USD, 210) == "2.10"
    ensures ToFriendlyString(USD, 200) == "2.00"
  {
  }

  /** A negative amount keeps its sign and leading zero. */
  lemma UsdNegative()
    ensures ToFriendlyString(USD, -5) == "-0.05"
  {
  }

  /** JPY drops any fraction and writes whole yen: "2.01" and "2.1" are 2, written "2". */
  lemma JpyDropsFraction()
    ensures ParseFromString(JPY, "2.01") == Ok(2) && ParseFromString(JPY, "2.1") == Ok(2)
    ensures ToFriendlyString(JPY, 2) == "2"
  {
    ExampleNoDecimals201();
    ExampleNoDecimals21();
  }

  lemma JpyWhole()
    ensures ParseFromString(JPY, "2") == Ok(2) && CurrencyCode(JPY) == "JPY"
  {
    AcceptsWhole("2", 0, 2);
  }
}
