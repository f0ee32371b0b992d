/** The `/transfer` request handler: it looks both accounts up, validates
    the request in a fixed order, reads the amount in the destination's
    currency, converts it for a source in another currency, and asks the
    transfer service to move the money. Repository reads are a map of
    account records; the converter is a function parameter. */
module TransferController {
  import opened Wrappers
  import opened Uuids
  import opened Digits
  import opened Model
  import opened AmountParser
  import opened Currencies
  import opened TransferService
  import opened TransactionViews
  import opened ApiErrors

  datatype TransferRequest = TransferRequest(sourceAccountId: Uuid, destinationAccountId: Uuid,
                                             currency: string, amount: string)

  const SOURCE_NOT_FOUND := "source_account_id invalid"
  const DESTINATION_NOT_FOUND := "destination_account_id invalid"
  const SAME_ACCOUNT := "source and destination accounts cannot be the same"
  const CURRENCY_MISMATCH := "currency does not match destination account"
  const AMOUNT_NOT_POSITIVE := "amount must be positive"
  const CONVERSION_NOT_POSITIVE := "currency conversion error (rounding?)"

  function AmountInvalid(amount: string): string {
    "amount '" + amount + "' is invalid"
  }

  /** `convert(from, to, amount)`: Ok(value in `to`), or Err(message) for a
      CurrencyConversionException it throws. */
  type Converter = (string, string, int) -> Result<int, string>

  /** The call the handler makes on `TransferService.transfer` (the timestamp
      is the clock's and not part of the decision). */
  datatype ServiceCall = ServiceCall(sourceAccountId: Uuid, sourceAmount: int,
                                     destinationAccountId: Uuid, destinationAmount: int,
                                     description: string)

  /** `lookupCurrency`: the three known codes, and a two-decimal currency
      carrying the code for any other. */
  function LookupCurrency(code: string): (c: Currency)
    ensures CurrencyCode(c) == code
    ensures code == "USD" ==> c == USD
    ensures code == "EUR" ==> c == EUR
    ensures code == "JPY" ==> c == JPY
    ensures MinorDigits(c) == (if code == "JPY" then 0 else 2)
  {
    match code
    case "USD" => USD
    case "EUR" => EUR
    case "JPY" => JPY
    case _ => TwoDecimals(code)
  }

  /** `parseTransferAmount`: the currency's parser, its ParseException
      turned into a BadRequest naming the text. */
  function ParseTransferAmount(c: Currency, amount: string): (r: Result<int, ApiError>)
    ensures r.Ok? <==> ParseFromString(c, amount).Ok?
    ensures r.Ok? ==> r.value == ParseFromString(c, amount).value
    ensures r.Err? ==> r.error == BadRequest(AmountInvalid(amount))
  {
    match ParseFromString(c, amount)
    case Ok(v) => Ok(v)
    case Err(_) => Err(BadRequest(AmountInvalid(amount)))
  }

  function SameCurrencyDescription(c: Currency, amount: int, source: AccountRecord,
                                   destination: AccountRecord): string {
    "Transferred " + ToFriendlyString(c, amount) + DescriptionTail(CurrencyCode(c), source, destination)
  }

  /** What follows the amount: " <code> from <source id> to <destination id>". */
  function DescriptionTail(code: string, source: AccountRecord, destination: AccountRecord): string {
    " " + code + " from " + ToString(source.id) + " to " + ToString(destination.id)
  }

  function ConvertedDescription(c: Currency, amount: int, converted: int, source: AccountRecord,
                                destination: AccountRecord): string {
    "Transfer from " + ToString(source.id) + " (" + IntegerText(converted) + " " + source.currency
    + ") to " + ToString(destination.id) + " (" + ToFriendlyString(c, amount) + " " + destination.currency
    + ") complete"
  }

  /** The private `transfer`: equal currencies move `amount` on both sides;
      otherwise the amount is converted from the request currency into the
      source's, and a converted value that is not positive stops the
      transfer before the service is called. */
  function PlanTransfer(source: AccountRecord, destination: AccountRecord, c: Currency, amount: int,
                        convert: Converter): (r: Result<ServiceCall, ApiError>)
  {
    if source.currency == destination.currency then
      Ok(ServiceCall(source.id, amount, destination.id, amount,
                     SameCurrencyDescription(c, amount, source, destination)))
    else
      match convert(CurrencyCode(c), source.currency, amount)
      case Err(message) => Err(ConversionFailed(message))
      case Ok(converted) =>
        if converted <= 0 then Err(ConversionFailed(CONVERSION_NOT_POSITIVE))
        else Ok(ServiceCall(source.id, converted, destination.id, amount,
                            ConvertedDescription(c, amount, converted, source, destination)))
  }

  /** Everything the public `transfer` does before the service call. */
  function Decide(request: TransferRequest, accounts: map<Uuid, AccountRecord>,
                  convert: Converter): Result<ServiceCall, ApiError>
  {
    if request.sourceAccountId !in accounts then Err(NotFound(SOURCE_NOT_FOUND))
    else if request.destinationAccountId !in accounts then Err(NotFound(DESTINATION_NOT_FOUND))
    else
      var source, destination := accounts[request.sourceAccountId], accounts[request.destinationAccountId];
      if source.id == destination.id then Err(BadRequest(SAME_ACCOUNT))
      else if destination.currency != request.currency then Err(BadRequest(CURRENCY_MISMATCH))
      else
        var c := LookupCurrency(request.currency);
        match ParseTransferAmount(c, request.amount)
        case Err(e) => Err(e)
        case Ok(amount) =>
          if amount <= 0 then Err(BadRequest(AMOUNT_NOT_POSITIVE))
          else PlanTransfer(source, destination, c, amount, convert)
  }

  /** The response: the service's entry seen from the source account, or
      its TransferException. */
  function Respond(source: AccountRecord, outcome: Result<Transaction, TransferException>): (r: Result<TransactionView, ApiError>)
    ensures outcome.Err? <==> r == Err(TransferFailed)
    ensures outcome.Ok? ==> r == Ok(FromModel(source.id, outcome.value))
    ensures outcome.Ok? ==> r.Ok? && r.value.direction == (if outcome.value.sourceAccountId == source.id then Debit else Credit)
  {
    match outcome
    case Ok(t) => Ok(FromModel(source.id, t))
    case Err(_) => Err(TransferFailed)
  }

  /** Whether two accounts' records say the map is keyed by account id, as
      the repository guarantees. */
  predicate Keyed(accounts: map<Uuid, AccountRecord>) {
    forall id :: id in accounts ==> accounts[id].id == id
  }

  // ------------------------------------------------------------ properties

  /** The checks run in a fixed order and the first that fails decides the
      error: lookups, then distinct accounts, then the currency, then the
      amount text, then its sign, and the converter last. */
  lemma FirstFailureDecides(request: TransferRequest, accounts: map<Uuid, AccountRecord>, convert: Converter)
    ensures var r := Decide(request, accounts, convert);
      var src, dst := request.sourceAccountId, request.destinationAccountId;
      && (src !in accounts ==> r == Err(NotFound(SOURCE_NOT_FOUND)))
      && (src in accounts && dst !in accounts ==> r == Err(NotFound(DESTINATION_NOT_FOUND)))
      && (src in accounts && dst in accounts ==>
            var source, destination := accounts[src], accounts[dst];
            var parsed := ParseFromString(LookupCurrency(request.currency), request.amount);
            && (source.id == destination.id ==> r == Err(BadRequest(SAME_ACCOUNT)))
            && (source.id != destination.id && destination.currency != request.currency ==>
                  r == Err(BadRequest(CURRENCY_MISMATCH)))
            && (source.id != destination.id && destination.currency == request.currency ==>
                  && (parsed.Err? ==> r == Err(BadRequest(AmountInvalid(request.amount))))
                  && (parsed.Ok? && parsed.value <= 0 ==> r == Err(BadRequest(AMOUNT_NOT_POSITIVE)))
                  && (parsed.Ok? && parsed.value > 0 ==>
                        r == PlanTransfer(source, destination, LookupCurrency(request.currency), parsed.value, convert))))
  {
  }

  /** A call reaches the service only for two different existing accounts,
      with the destination's own currency, and with both amounts positive:
      the destination amount is the parsed amount in minor units, and the
      source amount is the same amount or, across currencies, the converted
      amount from the request currency into the source's. */
  lemma ServiceCallAmounts(request: TransferRequest, accounts: map<Uuid, AccountRecord>, convert: Converter)
    requires Keyed(accounts)
    ensures var r := Decide(request, accounts, convert);
      r.Ok? ==>
        var src, dst := request.sourceAccountId, request.destinationAccountId;
        && src in accounts && dst in accounts && src != dst
        && accounts[dst].currency == request.currency
        && r.value.sourceAccountId == src && r.value.destinationAccountId == dst
        && ParseFromString(LookupCurrency(request.currency), request.amount) == Ok(r.value.destinationAmount)
        && r.value.destinationAmount > 0 && r.value.sourceAmount > 0
        && (accounts[src].currency == request.currency ==> r.value.sourceAmount == r.value.destinationAmount)
        && (accounts[src].currency != request.currency ==>
              convert(request.currency, accounts[src].currency, r.value.destinationAmount) == Ok(r.value.sourceAmount))
  {
    var r := Decide(request, accounts, convert);
    if r.Ok? {
      FirstFailureDecides(request, accounts, convert);
    }
  }

  /** What the handler lets through never drives a non-negative ledger
      negative: both amounts it passes are positive. */
  lemma HandledTransferKeepsBalancesNonNegative(request: TransferRequest, st: Store, convert: Converter,
                                                timestamp: Instant, generatedId: Uuid)
    requires Keyed(st.accounts) && NoNegativeBalance(st.accounts)
    requires Decide(request, st.accounts, convert).Ok?
    ensures var call := Decide(request, st.accounts, convert).value;
      NoNegativeBalance(TransferSpec(st, timestamp, call.sourceAccountId, call.sourceAmount,
                                     call.destinationAccountId, call.destinationAmount,
                                     call.description, generatedId).1.accounts)
  {
    ServiceCallAmounts(request, st.accounts, convert);
    var call := Decide(request, st.accounts, convert).value;
    BalancesStayNonNegative(st, timestamp, call.sourceAccountId, call.sourceAmount,
                            call.destinationAccountId, call.destinationAmount, call.description, generatedId);
  }

  /** In one currency the description writes the amount so that the
      currency reads it back as the amount that moved. */
  lemma DescriptionStatesAmount(c: Currency, amount: int, source: AccountRecord, destination: AccountRecord)
    ensures var d := SameCurrencyDescription(c, amount, source, destination);
      var text := ToFriendlyString(c, amount);
      |d| > 12 + |text| && d[12..12 + |text|] == text && ParseFromString(c, text) == Ok(amount)
  {
    var text := ToFriendlyString(c, amount);
    var rest := DescriptionTail(CurrencyCode(c), source, destination);
    SliceAfterLead("Transferred ", text, rest);
    RoundTrip(c, amount);
  }

  lemma SliceAfterLead(lead: string, text: string, rest: string)
    ensures var d := lead + text + rest;
      |d| >= |lead| + |text| && d[|lead|..|lead| + |text|] == text
  {
    var d := lead + text + rest;
    assert forall i :: 0 <= i < |text| ==> d[|lead| + i] == text[i];
  }

  // ------------------------------------------------------------ the handler

  /** The public `transfer` over a live ledger: the lookups read the
      service's accounts, and a request that passes every check makes
      exactly the service call `Decide` names. */
  method HandleTransfer(service: TransferServiceImpl, request: TransferRequest, convert: Converter,
                        timestamp: Instant, generatedId: Uuid)
    returns (r: Result<TransactionView, ApiError>)
    requires service.Valid()
    modifies service, service.accounts.Values
    ensures service.Valid() && service.accounts == old(service.accounts)
    ensures match Decide(request, old(service.Records()), convert)
      case Err(e) => r == Err(e) && service.AsStore() == old(service.AsStore())
      case Ok(call) =>
        var (outcome, st) := TransferSpec(old(service.AsStore()), timestamp, call.sourceAccountId, call.sourceAmount,
                                          call.destinationAccountId, call.destinationAmount, call.description,
                                          generatedId);
        service.AsStore() == st && r == Respond(old(service.Records())[request.sourceAccountId], outcome)
  {
    var accounts := service.Records();
    match Decide(request, accounts, convert)
    case Err(e) =>
      r := Err(e);
    case Ok(call) =>
      var outcome := service.Transfer(timestamp, call.sourceAccountId, call.sourceAmount,
                                      call.destinationAccountId, call.destinationAmount, call.description,
                                      generatedId);
      r := Respond(accounts[request.sourceAccountId], outcome);
  }
}
