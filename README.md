# Ledger transfers, verified

A Dafny model of the money-moving core of a small Spring ledger service
(`com.zigurs.ledger`, with the older `com.zigurs.mintos.ledger` handler beside
it). Clients hold accounts in one currency each. A `/transfer` request moves an
amount written as decimal text from one account to another, converting through
an exchange-rate service when the currencies differ. A `/history` request pages
through an account's ledger entries.

The model covers, module by module:

- `Uuids`: account ids as pairs of signed 64-bit halves, compared the way
  `java.util.UUID.compareTo` compares them (signed high half, then signed low
  half), and their text form.
- `Model`: the `Account` entity as a class with a mutable balance, and the
  `Transaction` ledger entry as a value.
- `TransferService`: `TransferServiceImpl.transfer` as a class over a map of
  account objects and the list of saved entries. It also records the order of
  the locking lookups and of the account saves. The method `Transfer` is proved
  against the pure specification `TransferSpec`, and the lemmas state what a
  transfer promises: the locking order, the FAILED and COMPLETED entries, no
  overdraft, and one entry per transfer.
- `Digits` and `AmountParser`: `AmountParser.parseDecimalAmount`. That is
  `String.trim`, then a lenient `DecimalFormat` with pattern `#,##0.0#`, ','
  for grouping and '.' as the decimal point, then the BigDecimal moved right by
  the minor digits and truncated. It is specified structurally by
  `ParseDecimalAmount`, and computed by the scanning loop in `ScanNumber`,
  proved equal to it.
- `Currencies`: two-decimals currencies (USD, EUR, any other code) and
  no-decimals currencies (JPY). Their `parseFromString` and `toFriendlyString`
  are proved to round-trip for every amount.
- `TransactionViews`: the response view of an entry as seen by one of its two
  accounts.
- `TransferController`, `HistoryController`: the request handlers as pure
  decisions. They check in the source's order and name the one service call to
  make. `HandleTransfer` runs that decision against a live `TransferServiceImpl`.
- `MintosLedgerController`: the older handler, whose amount is a plain
  `BigInteger`. It is compared with the current handler.
- `*Examples` modules: the unit-test scenarios as lemmas.

Where the repository's own descriptions and its code disagree, the model
follows the code:

- The doc comment of `parseDecimalAmount` (AmountParser.java line 36) gives
  `("2.01", 0) => 200`. The code cuts the fraction and returns 2, and the
  parser tests expect 2. `ExampleNoDecimals201` states the code's answer.
- The parser truncates the exact decimal value. It does not round, and it
  accepts any number of fraction digits, not only one or two.
- The comment at TransferServiceImpl.java line 44 says accounts are locked
  in "alphabetical" order. The code locks by `UUID.compareTo`, which compares
  signed halves. Its order is not the order of the id text: the service tests'
  ids d4a8… and 413a… lock d4a8… first (`ExampleIdsOrder`). The
  deadlock-avoidance property the comment is after still holds
  (`LockTraceSymmetric`), because both directions use the same total order.
- The older handler reads the amount with `new BigInteger`. That accepts a
  leading '+', which the decimal parser rejects (`PlusSignDisagrees`).
  Otherwise the two handlers agree on yen amounts
  (`AgreesWithCurrentHandlerOnYen`).

## Model

| member | source | states |
|---|---|---|
| Uuids.CompareLong | src/main/java/com/zigurs/ledger/app/TransferServiceImpl.java:53-56 | the signed comparison of one 64-bit half: -1, 0 or 1, negative exactly when the first is smaller, zero exactly when equal |
| Uuids.CompareTo | src/main/java/com/zigurs/ledger/app/TransferServiceImpl.java:53-56 | `UUID.compareTo` as the lock order uses it: -1, 0 or 1, and zero exactly for the same id |
| Uuids.PrecedesIsStrictTotalOrder | src/main/java/com/zigurs/ledger/app/TransferServiceImpl.java:52-61 | the order the service locks by is irreflexive, asymmetric, transitive and total on distinct ids, so every pair of accounts has one lock order |
| Uuids.CompareToAntisymmetric | src/main/java/com/zigurs/ledger/app/TransferServiceImpl.java:53-56 | swapping the ids negates the comparison, so the two branches of the lock order are mirror images |
| Uuids.UnsignedLong | src/main/java/com/zigurs/ledger/app/TransferServiceImpl.java:53-56 | the unsigned 64-bit pattern of a signed half, below 2^64, that reads back as the same signed value |
| Uuids.FromBits | src/test/java/com/zigurs/ledger/app/TransferServiceImplTest.java:190-217 | an id built from two 64-bit patterns (as the hex text spells them) has exactly those patterns as its halves |
| Uuids.ToString | src/main/java/com/zigurs/ledger/api/TransferController.java:103-109 | the text form of an id in a description: 36 characters with hyphens at positions 8, 13, 18 and 23, whose other 32 characters are the 16 lower-case hex digits of the high half followed by the 16 of the low half |
| Uuids.HexReadsBack | src/main/java/com/zigurs/ledger/api/TransferController.java:103-109 | the hex digits written for a half are all hex digits and spell exactly that half's 64-bit value |
| Uuids.ToStringInjective | src/main/java/com/zigurs/ledger/api/TransferController.java:103-109 | two ids with the same text are the same id, so a description names its accounts unambiguously |
| Model.StatusName | src/main/java/com/zigurs/ledger/api/responses/TransactionView.java:46 | the status text of an entry is COMPLETED exactly for a completed entry and FAILED exactly for a failed one |
| Model.Account.constructor | src/main/java/com/zigurs/ledger/model/Account.java:19-33 | an account starts with the given id, client, currency and balance |
| Model.Account.SetBalance | src/main/java/com/zigurs/ledger/model/Account.java:32-33 | the balance setter: the new balance is the given one and nothing else of the account changes |
| TransferService.LockOrder | src/main/java/com/zigurs/ledger/app/TransferServiceImpl.java:52-58 | the two ids of a transfer in locking order: the first precedes the second, and the pair is the source and destination in one order or the other |
| TransferService.TransferServiceImpl.constructor | src/main/java/com/zigurs/ledger/app/TransferServiceImpl.java:25-31 | a service over the given accounts and entries, with no lock taken and no account saved yet |
| TransferService.TransferServiceImpl.FindByIdForUpdate | src/main/java/com/zigurs/ledger/app/TransferServiceImpl.java:54-58 | locking lookup: the id joins the lock trace, and the account comes back exactly when it exists |
| TransferService.TransferServiceImpl.SaveAccount | src/main/java/com/zigurs/ledger/app/TransferServiceImpl.java:81 | saving an account records its id in the save trace and returns the same account |
| TransferService.TransferServiceImpl.SaveEntry | src/main/java/com/zigurs/ledger/app/TransferServiceImpl.java:66-77 | saving an entry gives it the generated id and appends exactly that entry to the ledger |
| TransferService.TransferServiceImpl.SetBalanceAndSave | src/main/java/com/zigurs/ledger/app/TransferServiceImpl.java:80-84 | one account's balance becomes the given one, every other account is untouched, and the account is saved |
| TransferService.TransferServiceImpl.SettleLocked | src/main/java/com/zigurs/ledger/app/TransferServiceImpl.java:63-98 | after both locks: the outcome and the new store are those of the specification of the balance check and its two branches |
| TransferService.TransferServiceImpl.Complete | src/main/java/com/zigurs/ledger/app/TransferServiceImpl.java:78-97 | the sufficient-balance branch in place: source debited, destination credited, both saved, one COMPLETED entry, as the specification says |
| TransferService.TransferServiceImpl.Transfer | src/main/java/com/zigurs/ledger/app/TransferServiceImpl.java:34-99 | the whole transfer in place: its outcome and final store (accounts, entries, lock trace, save trace) are the specification's for the old store |
| TransferService.SameAccountRejected | src/main/java/com/zigurs/ledger/app/TransferServiceImpl.java:59-61 | a transfer from an account to itself fails with TransferException before any lock and changes nothing |
| TransferService.SmallerIdLockedFirst | src/main/java/com/zigurs/ledger/app/TransferServiceImpl.java:52-58 | the first id locked is the smaller of the two under `UUID.compareTo`, the other second |
| TransferService.LockTraceSymmetric | src/main/java/com/zigurs/ledger/app/TransferServiceImpl.java:52-58 | transfers A to B and B to A lock in the same sequence, whatever the amounts: the deadlock-avoidance promise |
| TransferService.MissingAccountRejected | src/main/java/com/zigurs/ledger/app/TransferServiceImpl.java:54-58 | a missing account fails the transfer with TransferException, and no entry, balance or save changes |
| TransferService.InsufficientBalanceRecorded | src/main/java/com/zigurs/ledger/app/TransferServiceImpl.java:64-77 | when the balance would go negative, the transfer succeeds with one FAILED entry, text 'insufficient balance', the untouched balances, and no balance changes |
| TransferService.SufficientBalanceCompleted | src/main/java/com/zigurs/ledger/app/TransferServiceImpl.java:78-97 | otherwise source minus sourceAmount, destination plus destinationAmount, both saved source first, and one COMPLETED entry with the new balances and the caller's description |
| TransferService.OneEntryPerTransfer | src/main/java/com/zigurs/ledger/app/TransferServiceImpl.java:64-97 | a transfer that returns appends exactly the returned entry, with the generated id; one that throws changes no entry, account or save; the earlier lock trace is kept |
| TransferService.SourceNeverOverdrawn | src/main/java/com/zigurs/ledger/app/TransferServiceImpl.java:64-84 | a COMPLETED transfer never leaves its source below zero, and its entry records the balance it leaves |
| TransferService.BalancesStayNonNegative | src/main/java/com/zigurs/ledger/app/TransferServiceImpl.java:64-84 | with a non-negative destination amount, a ledger without negative balances stays without them |
| TransferService.TransferConserves | src/main/java/com/zigurs/ledger/app/TransferServiceImpl.java:80-84 | the two balances together change by nothing or by destinationAmount - sourceAmount, so a one-currency transfer neither makes nor loses money |
| TransferServiceExamples.ExampleIdsOrder | src/test/java/com/zigurs/ledger/app/TransferServiceImplTest.java:190-217 | the test's two ids: d4a8... precedes 413a... under `UUID.compareTo`, though it comes second in text order |
| TransferServiceExamples.ReversedLockingAttempt | src/test/java/com/zigurs/ledger/app/TransferServiceImplTest.java:190-217 | a transfer from the missing account to the present one locks the present (smaller) id first, then the missing one, and fails with no entry |
| TransferServiceExamples.GreenPath | src/test/java/com/zigurs/ledger/app/TransferServiceImplTest.java:43-82 | both accounts hold 1: moving 1 completes with the caller's description, leaves 0 and 2, locks and saves the source first |
| TransferServiceExamples.InsufficientBalance | src/test/java/com/zigurs/ledger/app/TransferServiceImplTest.java:106-144 | the test's case: a source holding 0 sends 1 to a destination holding 1 with description 'insufficient balance'; the result is a FAILED entry between the two accounts with text INSUFFICIENT_BALANCE and balances 0 and 1, both accounts locked in order, nothing saved, no balance changed |
| TransactionViews.DirectionName | src/main/java/com/zigurs/ledger/api/responses/TransactionView.java:33-37 | the direction text is DEBIT exactly for a debit and CREDIT exactly for a credit |
| TransactionViews.FromModel | src/main/java/com/zigurs/ledger/api/responses/TransactionView.java:22-53 | the requester sees a DEBIT with the source amount and balance exactly when it is the source, otherwise a CREDIT with the destination's; every other field is copied and the status is its name; the older package's view (mintos TransactionView.java lines 31-51) follows the same rule |
| TransactionViews.ViewsShowBalancesAfterTransfer | src/main/java/com/zigurs/ledger/api/responses/TransactionView.java:32-40 | the entry a transfer returns shows the source a DEBIT of sourceAmount and the destination a CREDIT of destinationAmount, each with its balance as the transfer left it |
| Digits.DigitValue | src/main/java/com/zigurs/ledger/utils/AmountParser.java:48 | the value of one decimal digit, below 10 |
| Digits.DigitChar | src/main/java/com/zigurs/ledger/model/currencies/NoDecimalsCurrency.java:19-21 | the digit written for a value below 10 reads back as that value |
| Digits.DigitsValueAppend | src/main/java/com/zigurs/ledger/utils/AmountParser.java:48 | the value of a digit string split in two is the first part shifted by the length of the second, plus the second |
| Digits.DigitsValueBound | src/main/java/com/zigurs/ledger/utils/AmountParser.java:48 | a digit string of length k has a value below 10^k |
| Digits.LastDigit | src/main/java/com/zigurs/ledger/utils/AmountParser.java:48 | appending a digit multiplies the value by ten and adds the digit |
| Digits.ZerosValue | src/main/java/com/zigurs/ledger/utils/AmountParser.java:54 | a string of zeros (the padding movePointRight adds) has value 0 |
| Digits.NaturalText | src/main/java/com/zigurs/ledger/model/currencies/NoDecimalsCurrency.java:19-21 | the decimal text of a natural number (`BigInteger.toString`): digits only, no leading zero, reading back as the number |
| Digits.IntegerText | src/main/java/com/zigurs/ledger/model/currencies/NoDecimalsCurrency.java:19-21 | the decimal text of an integer: a '-' and the magnitude's text for a negative number, the plain text otherwise |
| AmountParser.TrimShape | src/main/java/com/zigurs/ledger/utils/AmountParser.java:46 | `String.trim` leaves nothing or text that starts and ends with a character above ' ' |
| AmountParser.TrimIgnoresBlanks | src/main/java/com/zigurs/ledger/utils/AmountParser.java:46 | blanks added around a text do not change what trim leaves |
| AmountParser.TrimOfTrimmed | src/main/java/com/zigurs/ledger/utils/AmountParser.java:46 | trimming text that is already trimmed leaves it as it is |
| AmountParser.IndexOfDot | src/main/java/com/zigurs/ledger/utils/AmountParser.java:19-21 | the position of the first '.', or the length when there is none |
| AmountParser.PendingSeparatorMeaning | src/main/java/com/zigurs/ledger/utils/AmountParser.java:18-21 | a grouping ',' is still pending exactly when no digit follows it anywhere in the text (a '.' does not settle it), as only a digit clears the JDK's `backup` position |
| AmountParser.NumberParts | src/main/java/com/zigurs/ledger/utils/AmountParser.java:47-52 | the digits before and after the '.' that the lenient pattern accepts (commas dropped): both parts are all digits |
| AmountParser.ParseDecimal | src/main/java/com/zigurs/ledger/utils/AmountParser.java:47-52 | the whole trimmed text is read or the error carries that text; a read value is well formed |
| AmountParser.ScanNumber | src/main/java/com/zigurs/ledger/utils/AmountParser.java:47-52 | the left-to-right scan with a loop: where it stops, whether it saw a digit, and the digits read give exactly the parts the pattern accepts (or none) |
| AmountParser.ParseDecimalAmountScan | src/main/java/com/zigurs/ledger/utils/AmountParser.java:45-55 | the parser with the scanning loop returns exactly what the specification `ParseDecimalAmount` returns, for every text and digit count |
| AmountParser.MovePointRightTruncates | src/main/java/com/zigurs/ledger/utils/AmountParser.java:54 | movePointRight then toBigInteger: the magnitude is the exact value times 10^n, truncated toward zero, and exact when the fraction is short enough |
| AmountParser.DropsDigits | src/main/java/com/zigurs/ledger/utils/AmountParser.java:54 | fraction digits beyond the requested count are dropped, not rounded |
| AmountParser.PadsZeros | src/main/java/com/zigurs/ledger/utils/AmountParser.java:54 | a shorter fraction is padded with zeros and the value is exact |
| AmountParser.MovePointLeftTruncates | src/main/java/com/zigurs/ledger/utils/AmountParser.java:54 | a negative digit count moves the point left and truncates the exact value |
| AmountParser.BlanksIgnored | src/main/java/com/zigurs/ledger/utils/AmountParser.java:46 | blanks around the amount never change the result |
| AmountParser.MinusNegates | src/test/java/com/zigurs/ledger/utils/AmountParserTest.java:77-83 | a leading '-' on an accepted amount gives exactly its negation |
| AmountParser.MinusRejects | src/main/java/com/zigurs/ledger/utils/AmountParser.java:50-51 | a leading '-' on a rejected amount is still rejected, and the error carries the signed text |
| AmountParser.AcceptedParts | src/main/java/com/zigurs/ledger/utils/AmountParser.java:47-54 | an accepted unsigned amount has the parts the pattern reads, and its value is those parts with the point moved right |
| AmountParser.BothAccepted | src/main/java/com/zigurs/ledger/utils/AmountParser.java:47-54 | when the pattern reads an unsigned text, that text and its '-' form both parse, to opposite values |
| AmountParser.BothRejected | src/main/java/com/zigurs/ledger/utils/AmountParser.java:50-51 | when the pattern does not read an unsigned text, that text and its '-' form are both rejected, each error carrying its own text |
| AmountParser.SignFlips | src/main/java/com/zigurs/ledger/utils/AmountParser.java:54 | the sign of the parsed number negates the scaled value |
| AmountParser.NumberPartsOfDigits | src/main/java/com/zigurs/ledger/utils/AmountParser.java:47-52 | `i.f` and plain `i`, for digit strings with a nonempty whole part, are read as exactly those parts |
| AmountParser.PlainDecimalParses | src/test/java/com/zigurs/ledger/utils/AmountParserTest.java:32-41 | any `i.f` parses to those digits with the point moved right by the requested count |
| AmountParser.WholeNumberParses | src/test/java/com/zigurs/ledger/utils/AmountParserTest.java:19-30 | any digit string parses to its value with the point moved right by the requested count |
| AmountParser.NegativeDecimalParses | src/test/java/com/zigurs/ledger/utils/AmountParserTest.java:77-83 | `-i.f` parses to the negation of what `i.f` gives |
| AmountParser.NegativeWholeParses | src/test/java/com/zigurs/ledger/utils/AmountParserTest.java:77-83 | `-i` parses to the negation of what `i` gives |
| AmountParser.ForeignCharacterRejected | src/test/java/com/zigurs/ledger/utils/AmountParserTest.java:57-75 | a character other than a digit, ',', '.' or a leading '-' anywhere in the trimmed text means a parse error |
| AmountParser.NoDigitRejected | src/test/java/com/zigurs/ledger/utils/AmountParserTest.java:57-75 | text with no digit, the empty text included, is a parse error |
| AmountParserExamples.ExampleWhole201 | src/test/java/com/zigurs/ledger/utils/AmountParserTest.java:29 | "201" at zero decimals gives 201 |
| AmountParserExamples.ExampleWholeThreeDecimals | src/main/java/com/zigurs/ledger/utils/AmountParser.java:37 | ("2", 3) gives 2000, as the doc comment says |
| AmountParserExamples.ExampleWholeZeroTwoDecimals | src/test/java/com/zigurs/ledger/utils/AmountParserTest.java:34 | "0" at two decimals gives 0 |
| AmountParserExamples.ExampleWholeTwoDecimals | src/test/java/com/zigurs/ledger/model/currencies/USDTest.java:31-34 | "2" at two decimals gives 200 |
| AmountParserExamples.ExampleNoDecimals201 | src/test/java/com/zigurs/ledger/utils/AmountParserTest.java:25 | at zero decimals "2.01" gives 2, not the 200 the doc comment at AmountParser.java line 36 claims |
| AmountParserExamples.ExampleNoDecimals001 | src/test/java/com/zigurs/ledger/utils/AmountParserTest.java:23 | at zero decimals "0.01" gives 0 |
| AmountParserExamples.ExampleNoDecimals21 | src/test/java/com/zigurs/ledger/utils/AmountParserTest.java:27 | at zero decimals "2.1" gives 2 |
| AmountParserExamples.ExampleTwoDecimals201 | src/test/java/com/zigurs/ledger/utils/AmountParserTest.java:38 | at two decimals "2.01" gives 201 |
| AmountParserExamples.ExampleTwoDecimals001 | src/test/java/com/zigurs/ledger/utils/AmountParserTest.java:36 | at two decimals "0.01" gives 1 |
| AmountParserExamples.ExampleTwoDecimals21 | src/test/java/com/zigurs/ledger/utils/AmountParserTest.java:40 | at two decimals "2.1" is padded to 210 |
| AmountParserExamples.ExampleTruncatesDown | src/test/java/com/zigurs/ledger/utils/AmountParserTest.java:53 | "2.0099999999" at two decimals gives 200: the extra digits are cut, not rounded |
| AmountParserExamples.ExampleTruncatesUp | src/test/java/com/zigurs/ledger/utils/AmountParserTest.java:54 | "2.0100000001" at two decimals gives 201 |
| AmountParserExamples.ExampleNegative201 | src/test/java/com/zigurs/ledger/utils/AmountParserTest.java:80 | "-2.01" at two decimals gives -201 |
| AmountParserExamples.ExampleNegative21 | src/test/java/com/zigurs/ledger/utils/AmountParserTest.java:82 | "-2.1" at two decimals gives -210 |
| AmountParserExamples.ExampleEmptyRejected | src/test/java/com/zigurs/ledger/utils/AmountParserTest.java:59 | the empty text is rejected at any digit count |
| AmountParserExamples.ExampleLeadingGarbageRejected | src/test/java/com/zigurs/ledger/utils/AmountParserTest.java:65 | "garbage4" is rejected at any digit count |
| AmountParserExamples.ExampleLeadingWordsRejected | src/test/java/com/zigurs/ledger/utils/AmountParserTest.java:60 | "this is garbage2.0" is rejected at any digit count |
| AmountParserExamples.ExampleTrailingGarbageRejected | src/test/java/com/zigurs/ledger/utils/AmountParserTest.java:64 | "4garbage" is rejected, since the whole text must be read |
| AmountParserExamples.ExampleGarbageAfterDotRejected | src/test/java/com/zigurs/ledger/utils/AmountParserTest.java:61 | "2.garbage" is rejected at any digit count |
| AmountParserExamples.ExampleGarbageAfterFractionRejected | src/test/java/com/zigurs/ledger/utils/AmountParserTest.java:62 | "2.0garbage" is rejected at any digit count |
| AmountParserExamples.ExampleGarbageAfterLongFractionRejected | src/test/java/com/zigurs/ledger/utils/AmountParserTest.java:63 | "0.004garbage" is rejected at any digit count |
| Currencies.Cents | src/main/java/com/zigurs/ledger/model/currencies/TwoDecimalsCurrency.java:20-22 | the two digits after the point in the friendly form: the amount modulo 100, zero padded |
| Currencies.FormatTwoDecimals | src/main/java/com/zigurs/ledger/model/currencies/TwoDecimalsCurrency.java:20-22 | `movePointLeft(2).toPlainString()`: digits with the point three from the end, and a '-' exactly for a negative amount |
| Currencies.ToFriendlyString | src/main/java/com/zigurs/ledger/model/currencies/TwoDecimalsCurrency.java:20-22 | the friendly form of a two-decimal currency is the two-decimal text, that of a currency without decimals the integer's own text; neither has a grouping ',' (the partner properties are `Currencies.RoundTrip` and `Currencies.FriendlyStringInjective`) |
| Currencies.NoDecimalsFormatIsWhole | src/main/java/com/zigurs/ledger/model/currencies/NoDecimalsCurrency.java:18-21 | the yen form is digits only, with at most a leading '-' |
| Currencies.UnsignedTwoDecimals | src/main/java/com/zigurs/ledger/model/currencies/TwoDecimalsCurrency.java:15-22 | the friendly form of a non-negative amount parses back to it at two decimals |
| Currencies.TwoDecimalsRoundTrip | src/main/java/com/zigurs/ledger/model/currencies/TwoDecimalsCurrency.java:15-22 | parseFromString(toFriendlyString(n)) == n for every two-decimals currency and every amount, negatives included |
| Currencies.UnsignedNoDecimals | src/main/java/com/zigurs/ledger/model/currencies/NoDecimalsCurrency.java:13-21 | the text of a non-negative integer parses back to it at zero decimals |
| Currencies.NoDecimalsRoundTrip | src/main/java/com/zigurs/ledger/model/currencies/NoDecimalsCurrency.java:13-21 | parseFromString(toFriendlyString(n)) == n for every currency without decimals and every amount |
| Currencies.RoundTrip | src/main/java/com/zigurs/ledger/model/currencies/TwoDecimalsCurrency.java:15-22 | the friendly form of every amount parses back to it in every currency |
| Currencies.FriendlyStringInjective | src/main/java/com/zigurs/ledger/model/currencies/TwoDecimalsCurrency.java:20-22 | two different amounts never share a friendly form |
| CurrencyExamples.UsdParses | src/test/java/com/zigurs/ledger/model/currencies/USDTest.java:12-37 | USD reads "2.01", "2.1" and "2" as 201, 210 and 200 |
| CurrencyExamples.UsdFormats | src/test/java/com/zigurs/ledger/model/currencies/USDTest.java:12-37 | USD writes 201, 210 and 200 as "2.01", "2.10" and "2.00" |
| CurrencyExamples.UsdNegative | src/main/java/com/zigurs/ledger/model/currencies/TwoDecimalsCurrency.java:20-22 | USD writes -5 as "-0.05" |
| CurrencyExamples.JpyDropsFraction | src/test/java/com/zigurs/ledger/model/currencies/JPYTest.java:12-28 | yen reads "2.01" and "2.1" as 2 and writes 2 as "2" |
| CurrencyExamples.JpyWhole | src/main/java/com/zigurs/ledger/model/currencies/JPY.java:5-8 | yen reads "2" as 2 and its code is JPY |
| TransferController.LookupCurrency | src/main/java/com/zigurs/ledger/api/TransferController.java:85-92 | USD, EUR and JPY get their own currency; any other code becomes a two-decimals currency with that code |
| TransferController.ParseTransferAmount | src/main/java/com/zigurs/ledger/api/TransferController.java:142-148 | the amount the currency parses, or a bad request 'amount '<text>' is invalid' exactly when it cannot |
| TransferController.Respond | src/main/java/com/zigurs/ledger/api/TransferController.java:76-81 | a service failure becomes the transfer error; a returned entry becomes exactly `FromModel(source, entry)`, the entry seen from the source account, a debit when the source is the entry's source |
| TransferController.FirstFailureDecides | src/main/java/com/zigurs/ledger/api/TransferController.java:48-73 | the checks run in order: source found, destination found, different accounts, destination currency, readable amount, positive amount, and only then the transfer |
| TransferController.ServiceCallAmounts | src/main/java/com/zigurs/ledger/api/TransferController.java:94-140 | the service is called only for two existing distinct accounts, with positive amounts: the parsed amount for the destination, and the same or the converted amount for the source |
| TransferController.HandledTransferKeepsBalancesNonNegative | src/main/java/com/zigurs/ledger/api/TransferController.java:66-81 | whatever the handler passes to the service keeps a ledger without negative balances without them |
| TransferController.DescriptionStatesAmount | src/main/java/com/zigurs/ledger/api/TransferController.java:103-109 | the same-currency description writes the amount in the friendly form, and the currency reads that back as the amount |
| TransferController.HandleTransfer | src/main/java/com/zigurs/ledger/api/TransferController.java:45-82 | the handler over a live service: every rejection leaves the ledger untouched, and an accepted request makes exactly the planned service call |
| TransferControllerExamples.FiftyEuros | src/test/java/com/zigurs/ledger/api/TransferControllerTest.java:59-127 | "50" in euros is 5000 cents |
| TransferControllerExamples.HappyPath | src/test/java/com/zigurs/ledger/api/TransferControllerTest.java:59-127 | a same-currency transfer of "50" euros calls the service with 5000 on both sides |
| TransferControllerExamples.ConversionHappyPath | src/test/java/com/zigurs/ledger/api/TransferControllerTest.java:128-200 | across currencies the source pays the converted 7500 and the destination receives 5000 |
| TransferControllerExamples.ConversionToZeroRejected | src/test/java/com/zigurs/ledger/api/TransferControllerTest.java:467-539 | a conversion to 0 is rejected as a conversion error |
| TransferControllerExamples.ZeroAmountRejected | src/test/java/com/zigurs/ledger/api/TransferControllerTest.java:377-421 | an amount of "0" is rejected as not positive |
| TransferControllerExamples.MalformedAmountRejected | src/test/java/com/zigurs/ledger/api/TransferControllerTest.java:422-466 | "I'm a teapot!" is rejected, with the text in the message |
| TransferControllerExamples.CurrencyMismatchRejected | src/test/java/com/zigurs/ledger/api/TransferControllerTest.java:332-376 | a currency other than the destination's is rejected |
| TransferControllerExamples.AccountChecks | src/test/java/com/zigurs/ledger/api/TransferControllerTest.java:201-331 | an unknown source, an unknown destination and a transfer to the same account are each rejected with their own message |
| HistoryController.ViewsOf | src/main/java/com/zigurs/ledger/api/HistoryController.java:71-73 | each entry of the page becomes its view from the requesting account, in order |
| HistoryController.ChecksInOrder | src/main/java/com/zigurs/ledger/api/HistoryController.java:45-57 | unknown account, then a limit below 1, then a negative offset; absent values are 10 and 0; the request succeeds exactly when none applies; the older package's history handler (mintos LedgerController.java lines 79-91) has the same ladder |
| HistoryController.PageSnapsToBoundary | src/main/java/com/zigurs/ledger/api/HistoryController.java:59-62 | the page asked for is offset / limit: it starts at the largest multiple of the limit not above the offset; the older package (mintos LedgerController.java line 96) snaps the same way |
| HistoryController.DivisionBounds | src/main/java/com/zigurs/ledger/api/HistoryController.java:62 | integer division of a non-negative offset by a positive limit: the page start is within one limit below the offset |
| HistoryController.ResponseEchoesRequest | src/main/java/com/zigurs/ledger/api/HistoryController.java:70-80 | the response repeats the effective offset and limit, shows the account, and lists exactly the fetched page in order, each entry turned into `FromModel(account, entry)` (its id, timestamp, status, both account ids, the account's own side's amount and balance, description and direction); the older package (mintos LedgerController.java lines 104-114) builds the same response |
| HistoryController.TestRequests | src/test/java/com/zigurs/ledger/api/HistoryControllerTest.java:185-262 | no paging values give page 0 of 10; offset -100 and limit 0 are rejected; offset 100 with limit 100 asks for page 1 |
| MintosLedgerController.ParseBigInteger | src/main/java/com/zigurs/mintos/ledger/api/LedgerController.java:204-210 | `new BigInteger(text)` restricted to ASCII: accepted exactly for an optional '-' or '+' followed by at least one digit 0-9, and nothing else (other Unicode decimal digits are under Left out) |
| MintosLedgerController.ParseTransferAmount | src/main/java/com/zigurs/mintos/ledger/api/LedgerController.java:204-210 | the integer the text spells, or a bad request 'amount '<text>' is invalid' exactly when it is not one |
| MintosLedgerController.ParseBigIntegerRoundTrip | src/main/java/com/zigurs/mintos/ledger/api/LedgerController.java:204-210 | the text of every integer reads back as that integer |
| MintosLedgerController.AgreesWithDecimalParser | src/main/java/com/zigurs/mintos/ledger/api/LedgerController.java:202-210 | on integer text without '+', the older parser and the decimal parser at zero digits give the same value |
| MintosLedgerController.NegativeAtZeroDigits | src/main/java/com/zigurs/mintos/ledger/api/LedgerController.java:204-210 | '-' and digits, at zero decimals, give the negated digits' value, as the integer parser does |
| MintosLedgerController.WholeNumberAtZeroDigits | src/main/java/com/zigurs/mintos/ledger/api/LedgerController.java:204-210 | digits, at zero decimals, give their value, as the integer parser does |
| MintosLedgerController.PlusSignDisagrees | src/main/java/com/zigurs/mintos/ledger/api/LedgerController.java:204-210 | the two parsers differ on "+5": the integer parser reads 5, the decimal parser rejects it |
| MintosLedgerController.FirstFailureDecides | src/main/java/com/zigurs/mintos/ledger/api/LedgerController.java:117-152 | the older handler's ladder: source, destination, different accounts, destination currency, integer amount, positive amount, then the transfer |
| MintosLedgerController.ServiceCallAmounts | src/main/java/com/zigurs/mintos/ledger/api/LedgerController.java:154-200 | the older handler calls the service with positive amounts: the integer for the destination and the same or the converted one, from the destination's currency, for the source |
| MintosLedgerController.AgreesWithCurrentHandlerOnYen | src/main/java/com/zigurs/mintos/ledger/api/LedgerController.java:117-200 | for yen and plain integer text the older and the current handler make the same decision, down to the description |

## Left out

- The exchange-rate clients (`CurrencyConverterServiceImpl`, `FXConverterServiceImpl`) and the network. The converter is a function parameter returning either the converted amount or a conversion error.
- The repositories and the database. Accounts and entries are in memory. `findByIdForUpdate` row locks are modelled only as the order of the lookups (the lock trace). Serializable isolation, concurrent transfers and real deadlocks are not modelled.
- `Instant.now()` is a parameter of the handlers and the service, and so is the id the entry repository generates on save.
- Lombok `@NonNull` checks and the null arguments they reject are not modelled. Every argument is present, except the optional `offset` and `limit` of a history request, modelled as `Option` of a 32-bit integer.
- The exception handlers, which map exceptions to HTTP responses, are left out. Each handler returns a `Result` whose error names the exception and its message.
- `AccountsController`, the `getAccounts` endpoint of the older handler and `AccountView` factories other than the one history uses are not part of this model.
- The parts of `DecimalFormat` that the pattern never produces are not modelled: exponents, the NaN and infinity symbols, non-ASCII digits, and locale-specific minus signs. Text using them is rejected by the model.
- Grouping follows the lenient parse: a ',' may stand anywhere before the '.', as long as some digit follows it later in the text. Group sizes are not checked, since lenient parsing does not check them either.
- The repository's page query is a function parameter. Its sorting (newest first) and its filtering (either side of the entry) are described in a comment, not constrained: the fetched page is taken as the repository returns it.
- MintosLedgerController.ParseBigInteger: the model accepts only the ASCII digits 0-9. `new BigInteger` also accepts every other Unicode decimal digit (for example Arabic-Indic `١٢` or fullwidth `４２`), which the model rejects as a bad request.
- The `synchronized` guard on the shared parser instance and the thread-safety it provides are not modelled.
