/** The response record for one ledger entry, as one of its two accounts
    sees it (`TransactionView.fromModel`). */
module TransactionViews {
  import opened Wrappers
  import opened Uuids
  import opened Model
  import opened TransferService

  datatype Direction = Debit | Credit

  /** The JSON name of a direction: the enum constant's name. */
  function DirectionName(d: Direction): (name: string)
    ensures name == "DEBIT" <==> d == Debit
    ensures name == "CREDIT" <==> d == Credit
  {
    match d
    case Debit => "DEBIT"
    case Credit => "CREDIT"
  }

  datatype TransactionView = TransactionView(
    transactionId: Option<Uuid>,
    timestamp: Instant,
    direction: Direction,
    status: string,
    sourceAccountId: Uuid,
    destinationAccountId: Uuid,
    amount: int,
    accountBalance: int,
    description: string)

  /** The entry from the point of view of the account `requester`: its own
      side (DEBIT when it is the source, CREDIT otherwise, even when it is
      not a party), with that side's amount and resulting balance. */
  function FromModel(requester: Uuid, t: Transaction): (v: TransactionView)
    ensures v.direction == Debit <==> t.sourceAccountId == requester
    ensures v.direction == Debit ==> v.amount == t.sourceAmount && v.accountBalance == t.sourceBalance
    ensures v.direction == Credit ==> v.amount == t.destinationAmount && v.accountBalance == t.destinationBalance
    ensures v.transactionId == t.id && v.timestamp == t.timestamp && v.description == t.description
    ensures v.sourceAccountId == t.sourceAccountId && v.destinationAccountId == t.destinationAccountId
    ensures v.status == StatusName(t.status)
  {
    var (direction, amount, balance) :=
      if t.sourceAccountId == requester then (Debit, t.sourceAmount, t.sourceBalance)
      else (Credit, t.destinationAmount, t.destinationBalance);
    TransactionView(t.id, t.timestamp, direction, StatusName(t.status), t.sourceAccountId,
                    t.destinationAccountId, amount, balance, t.description)
  }

  /** The entry a transfer returns, seen by either party, shows that party's
      balance as the transfer left it: the source sees a DEBIT of
      sourceAmount, the destination a CREDIT of destinationAmount. For a
      FAILED entry those balances are the untouched ones. */
  lemma ViewsShowBalancesAfterTransfer(st: Store, timestamp: Instant, src: Uuid, sourceAmount: int, dst: Uuid,
                                       destinationAmount: int, description: string, generatedId: Uuid)
    ensures var (r, st') := TransferSpec(st, timestamp, src, sourceAmount, dst, destinationAmount, description, generatedId);
      r.Ok? ==>
        && src in st'.accounts && dst in st'.accounts
        && FromModel(src, r.value).direction == Debit
        && FromModel(src, r.value).amount == sourceAmount
        && FromModel(src, r.value).accountBalance == st'.accounts[src].balance
        && FromModel(dst, r.value).direction == Credit
        && FromModel(dst, r.value).amount == destinationAmount
        && FromModel(dst, r.value).accountBalance == st'.accounts[dst].balance
  {
    if src != dst && src in st.accounts && dst in st.accounts {
      if st.accounts[src].balance - sourceAmount < 0 {
        InsufficientBalanceRecorded(st, timestamp, src, sourceAmount, dst, destinationAmount, description, generatedId);
      } else {
        SufficientBalanceCompleted(st, timestamp, src, sourceAmount, dst, destinationAmount, description, generatedId);
      }
    } else {
      OneEntryPerTransfer(st, timestamp, src, sourceAmount, dst, destinationAmount, description, generatedId);
    }
  }
}
