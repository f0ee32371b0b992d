/** The older `/transfer` handler of the `mintos` package. It runs the same
    ladder of checks as the current handler but reads the amount as a plain
    integer (`new BigInteger(text)`), in whatever unit the currency counts,
    and converts from the destination's currency into the source's. Its
    `/history` handler and its `TransactionView.fromModel` are, line for
    line, `HistoryController.GetHistory` and `TransactionViews.FromModel`. */
module MintosLedgerController {
  import opened Wrappers
  import opened Uuids
  import opened Digits
  import opened Model
  import opened AmountParser
  import opened Currencies
  import opened ApiErrors
  import TransferController

  /** `new BigInteger(text)`: an optional '-' or '+', then at least one
      decimal digit, and nothing else (no blanks, no separators). */
  function ParseBigInteger(text: string): (r: Option<int>)
    ensures r.Some? <==> |text| >= 1 && (AllDigits(text) || ((text[0] == '-' || text[0] == '+') && |text| >= 2 && AllDigits(text[1..])))
  {
    if |text| >= 2 && (text[0] == '-' || text[0] == '+') && AllDigits(text[1..]) then
      var magnitude: int := DigitsValue(text[1..]);
      Some(if text[0] == '-' then -magnitude else magnitude)
    else if |text| >= 1 && AllDigits(text) then Some(DigitsValue(text))
    else None
  }

  /** `parseTransferAmount`: a NumberFormatException becomes a BadRequest
      naming the text. */
  function ParseTransferAmount(amount: string): (r: Result<int, ApiError>)
    ensures r.Ok? <==> ParseBigInteger(amount).Some?
    ensures r.Ok? ==> r.value == ParseBigInteger(amount).value
    ensures r.Err? ==> r.error == BadRequest(TransferController.AmountInvalid(amount))
  {
    match ParseBigInteger(amount)
    case Some(v) => Ok(v)
    case None => Err(BadRequest(TransferController.AmountInvalid(amount)))
  }

  function SameCurrencyDescription(amount: int, source: AccountRecord, destination: AccountRecord): string {
    "Transferred " + IntegerText(amount) + TransferController.DescriptionTail(destination.currency, source, destination)
  }

  function ConvertedDescription(amount: int, converted: int, source: AccountRecord,
                                destination: AccountRecord): string {
    "Transfer from " + ToString(source.id) + " (" + IntegerText(converted) + " " + source.currency
    + ") to " + ToString(destination.id) + " (" + IntegerText(amount) + " " + destination.currency
    + ") complete"
  }

  /** The private `transfer`: the amount on both sides in one currency;
      across currencies, converted from the destination's currency into the
      source's, refused when the result is not positive. */
  function PlanTransfer(source: AccountRecord, destination: AccountRecord, amount: int,
                        convert: TransferController.Converter): Result<TransferController.ServiceCall, ApiError>
  {
    if source.currency == destination.currency then
      Ok(TransferController.ServiceCall(source.id, amount, destination.id, amount,
                                        SameCurrencyDescription(amount, source, destination)))
    else
      match convert(destination.currency, source.currency, amount)
      case Err(message) => Err(ConversionFailed(message))
      case Ok(converted) =>
        if converted <= 0 then Err(ConversionFailed(TransferController.CONVERSION_NOT_POSITIVE))
        else Ok(TransferController.ServiceCall(source.id, converted, destination.id, amount,
                                               ConvertedDescription(amount, converted, source, destination)))
  }

  /** Everything the public `transfer` does before the service call. */
  function Decide(request: TransferController.TransferRequest, accounts: map<Uuid, AccountRecord>,
                  convert: TransferController.Converter): Result<TransferController.ServiceCall, ApiError>
  {
    if request.sourceAccountId !in accounts then Err(NotFound(TransferController.SOURCE_NOT_FOUND))
    else if request.destinationAccountId !in accounts then Err(NotFound(TransferController.DESTINATION_NOT_FOUND))
    else
      var source, destination := accounts[request.sourceAccountId], accounts[request.destinationAccountId];
      if source.id == destination.id then Err(BadRequest(TransferController.SAME_ACCOUNT))
      else if destination.currency != request.currency then Err(BadRequest(TransferController.CURRENCY_MISMATCH))
      else
        match ParseTransferAmount(request.amount)
        case Err(e) => Err(e)
        case Ok(amount) =>
          if amount <= 0 then Err(BadRequest(TransferController.AMOUNT_NOT_POSITIVE))
          else PlanTransfer(source, destination, amount, convert)
  }

  // ------------------------------------------------------------ properties

  /** Every integer's text reads back as that integer. */
  lemma ParseBigIntegerRoundTrip(n: int)
    ensures ParseBigInteger(IntegerText(n)) == Some(n)
  {
    if n < 0 {
      assert IntegerText(n)[1..] == NaturalText(-n);
    }
  }

  /** A plain integer text (optional '-', then digits) means the same to
      both parsers when no digits follow the point: the older handler's
      integer reading is the newer one's at zero minor digits. A leading
      '+' is where they part: only `BigInteger` accepts it. */
  lemma AgreesWithDecimalParser(text: string)
    requires ParseBigInteger(text).Some? && text[0] != '+'
    ensures ParseDecimalAmount(text, 0) == Ok(ParseBigInteger(text).value)
  {
    if AllDigits(text) {
      assert ParseBigInteger(text) == Some(DigitsValue(text));
      WholeNumberAtZeroDigits(text);
    } else {
      var digits := text[1..];
      assert text == ['-'] + digits;
      assert ParseBigInteger(text) == Some(-(DigitsValue(digits) as int));
      NegativeAtZeroDigits(digits, DigitsValue(digits));
    }
  }

  lemma NegativeAtZeroDigits(digits: string, value: int)
    requires |digits| > 0 && AllDigits(digits) && value == DigitsValue(digits)
    ensures ParseDecimalAmount(['-'] + digits, 0) == Ok(-value)
  {
    UnscaledWhole(digits, value);
    NegativeWholeParses(digits, 0, value);
  }

  lemma WholeNumberAtZeroDigits(digits: string)
    requires |digits| > 0 && AllDigits(digits)
    ensures ParseDecimalAmount(digits, 0) == Ok(DigitsValue(digits))
  {
    WholeNumberParses(digits, 0);
    UnscaledWhole(digits, DigitsValue(digits));
  }

  lemma UnscaledWhole(digits: string, value: int)
    requires |digits| > 0 && AllDigits(digits) && value == DigitsValue(digits)
    ensures MovePointRight(Decimal(false, digits, ""), 0) == value
  {
    assert TruncatedFraction("", 0) == "";
  }

  /** "+5" is 5 to the older parser and an error to the decimal one. */
  lemma PlusSignDisagrees()
    ensures ParseBigInteger("+5") == Some(5)
    ensures ParseDecimalAmount("+5", 0).Err?
  {
    assert "+5"[1..] == "5";
    assert Trim("+5") == "+5";
    ForeignCharacterRejected("+5", 0, 0);
  }

  /** The same ladder as the current handler, first failure deciding. */
  lemma FirstFailureDecides(request: TransferController.TransferRequest, accounts: map<Uuid, AccountRecord>,
                            convert: TransferController.Converter)
    ensures var r := Decide(request, accounts, convert);
      var src, dst := request.sourceAccountId, request.destinationAccountId;
      && (src !in accounts ==> r == Err(NotFound(TransferController.SOURCE_NOT_FOUND)))
      && (src in accounts && dst !in accounts ==> r == Err(NotFound(TransferController.DESTINATION_NOT_FOUND)))
      && (src in accounts && dst in accounts ==>
            var source, destination := accounts[src], accounts[dst];
            var parsed := ParseBigInteger(request.amount);
            && (source.id == destination.id ==> r == Err(BadRequest(TransferController.SAME_ACCOUNT)))
            && (source.id != destination.id && destination.currency != request.currency ==>
                  r == Err(BadRequest(TransferController.CURRENCY_MISMATCH)))
            && (source.id != destination.id && destination.currency == request.currency ==>
                  && (parsed.None? ==> r == Err(BadRequest(TransferController.AmountInvalid(request.amount))))
                  && (parsed.Some? && parsed.value <= 0 ==> r == Err(BadRequest(TransferController.AMOUNT_NOT_POSITIVE)))
                  && (parsed.Some? && parsed.value > 0 ==>
                        r == PlanTransfer(source, destination, parsed.value, convert))))
  {
  }

  /** The call reaches the service with both amounts positive: the parsed
      integer on the destination side, and on the source side the same
      integer or its conversion from the destination's currency. */
  lemma ServiceCallAmounts(request: TransferController.TransferRequest, accounts: map<Uuid, AccountRecord>,
                           convert: TransferController.Converter)
    requires TransferController.Keyed(accounts)
    ensures var r := Decide(request, accounts, convert);
      r.Ok? ==>
        var src, dst := request.sourceAccountId, request.destinationAccountId;
        && src in accounts && dst in accounts && src != dst
        && r.value.sourceAccountId == src && r.value.destinationAccountId == dst
        && ParseBigInteger(request.amount) == Some(r.value.destinationAmount)
        && r.value.destinationAmount > 0 && r.value.sourceAmount > 0
        && (accounts[src].currency == accounts[dst].currency ==> r.value.sourceAmount == r.value.destinationAmount)
        && (accounts[src].currency != accounts[dst].currency ==>
              convert(accounts[dst].currency, accounts[src].currency, r.value.destinationAmount) == Ok(r.value.sourceAmount))
  {
    var r := Decide(request, accounts, convert);
    if r.Ok? {
      FirstFailureDecides(request, accounts, convert);
    }
  }

  /** For yen, whose text has no minor digits, the two handlers make the
      very same decision on a plain integer text: the same error, or the
      same service call down to the description. */
  lemma AgreesWithCurrentHandlerOnYen(request: TransferController.TransferRequest,
                                      accounts: map<Uuid, AccountRecord>, convert: TransferController.Converter)
    requires request.currency == "JPY"
    requires ParseBigInteger(request.amount).Some? && request.amount[0] != '+'
    ensures Decide(request, accounts, convert) == TransferController.Decide(request, accounts, convert)
  {
    AgreesWithDecimalParser(request.amount);
  }
}
