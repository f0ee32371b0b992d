/** The `/transfer` handler's test scenarios: a source and a destination
    account, each holding 1, and a request for "50". */
module TransferControllerExamples {
  import opened Wrappers
  import opened Uuids
  import opened Digits
  import opened Model
  import opened AmountParser
  import opened Currencies
  import opened AmountParserExamples
  import opened ApiErrors
  import opened TransferController

  /** 306b74d2-adea-4592-9f8a-981e80a7e041 */
  function SourceId(): Uuid { FromBits(0x306b_74d2_adea_4592, 0x9f8a_981e_80a7_e041) }

  /** 1ea6d532-faca-4240-aacf-0356b1e0e950 */
  function DestinationId(): Uuid { FromBits(0x1ea6_d532_faca_4240, 0xaacf_0356_b1e0_e950) }

  function Accounts(sourceCurrency: string): map<Uuid, AccountRecord> {
    map[SourceId() := AccountRecord(SourceId(), SourceId(), sourceCurrency, 1),
        DestinationId() := AccountRecord(DestinationId(), SourceId(), "EUR", 1)]
  }

  /** The converter of the tests: 5000 EUR cents are 7500 USD cents. */
  function Converter(value: int): Converter {
    (from: string, to: string, amount: int) =>
      if from == "EUR" && to == "USD" && amount == 5000 then Ok(value) else Err("no rate")
  }

  /** "50" EUR is 5000 cents. */
  lemma FiftyEuros()
    ensures ParseDecimalAmount("50", 2) == Ok(5000)
  {
    assert "50"[..1] == "5";
    assert DigitsValue("50") == 50;
    assert TruncatedFraction("", 2) == "00" && "00"[..1] == "0";
    assert DigitsValue("00") == 0;
    AcceptsWhole("50", 2, 5000);
  }

  /** "50" EUR between two EUR accounts moves 5000 cents on both sides. */
  lemma HappyPath()
    ensures var r := Decide(TransferRequest(SourceId(), DestinationId(), "EUR", "50"), Accounts("EUR"), Converter(7500));
      r.Ok? && r.value.sourceAmount == 5000 && r.value.destinationAmount == 5000
  {
    FiftyEuros();
    ReadableAmount("50", 5000, "EUR", 7500);
  }

  /** From a USD account the source side is the converted 7500. */
  lemma ConversionHappyPath()
    ensures var r := Decide(TransferRequest(SourceId(), DestinationId(), "EUR", "50"), Accounts("USD"), Converter(7500));
      r.Ok? && r.value.sourceAmount == 7500 && r.value.destinationAmount == 5000
  {
    FiftyEuros();
    ReadableAmount("50", 5000, "USD", 7500);
  }

  /** A conversion to 0 is refused and the service is not called. */
  lemma ConversionToZeroRejected()
    ensures Decide(TransferRequest(SourceId(), DestinationId(), "EUR", "50"), Accounts("USD"), Converter(0))
      == Err(ConversionFailed(CONVERSION_NOT_POSITIVE))
  {
    FiftyEuros();
    ReadableAmount("50", 5000, "USD", 0);
  }

  /** "0" parses but is not a positive amount. */
  lemma ZeroAmountRejected()
    ensures Decide(TransferRequest(SourceId(), DestinationId(), "EUR", "0"), Accounts("USD"), Converter(7500))
      == Err(BadRequest(AMOUNT_NOT_POSITIVE))
  {
    AcceptsWhole("0", 2, 0);
    ReadableAmount("0", 0, "USD", 7500);
  }

  /** Text that is not an amount is named in the error. */
  lemma MalformedAmountRejected()
    ensures Decide(TransferRequest(SourceId(), DestinationId(), "EUR", "I'm a teapot!"), Accounts("USD"), Converter(7500))
      == Err(BadRequest(AmountInvalid("I'm a teapot!")))
  {
    Rejects("I'm a teapot!", 0, 2);
    UnreadableAmount("I'm a teapot!");
  }

  lemma ReadableAmount(amount: string, value: int, sourceCurrency: string, converted: int)
    requires ParseDecimalAmount(amount, 2) == Ok(value)
    ensures var accounts := Accounts(sourceCurrency);
      Decide(TransferRequest(SourceId(), DestinationId(), "EUR", amount), accounts, Converter(converted))
        == if value <= 0 then Err(BadRequest(AMOUNT_NOT_POSITIVE))
           else PlanTransfer(accounts[SourceId()], accounts[DestinationId()], EUR, value, Converter(converted))
  {
  }

  lemma UnreadableAmount(amount: string)
    requires ParseDecimalAmount(amount, 2).Err?
    ensures Decide(TransferRequest(SourceId(), DestinationId(), "EUR", amount), Accounts("USD"), Converter(7500))
      == Err(BadRequest(AmountInvalid(amount)))
  {
  }

  /** A request in USD for the EUR destination fails on the currency check,
      before its amount is read. */
  lemma CurrencyMismatchRejected()
    ensures Decide(TransferRequest(SourceId(), DestinationId(), "USD", "50"), Accounts("USD"), Converter(7500))
      == Err(BadRequest(CURRENCY_MISMATCH))
  {
  }

  /** Unknown source, unknown destination, and the same account twice. */
  lemma AccountChecks(unknown: Uuid)
    requires unknown != SourceId() && unknown != DestinationId()
    ensures Decide(TransferRequest(unknown, DestinationId(), "EUR", "50"), Accounts("USD"), Converter(7500))
      == Err(NotFound(SOURCE_NOT_FOUND))
    ensures Decide(TransferRequest(SourceId(), unknown, "EUR", "50"), Accounts("USD"), Converter(7500))
      == Err(NotFound(DESTINATION_NOT_FOUND))
    ensures Decide(TransferRequest(SourceId(), SourceId(), "USD", "50"), Accounts("USD"), Converter(7500))
      == Err(BadRequest(SAME_ACCOUNT))
  {
  }
}
