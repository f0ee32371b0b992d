/** The scenarios of the transfer service's unit tests, on the two ids they use. */
module TransferServiceExamples {
  import opened Wrappers
  import opened Uuids
  import opened Model
  import opened TransferService

  /** d4a8ad83-93b5-4114-9df5-61127a6c61de */
  function ExampleId(): Uuid {
    FromBits(0xd4a8_ad83_93b5_4114, 0x9df5_6112_7a6c_61de)
  }

  /** 413a0b12-985d-4437-9490-bdeddb617e9e */
  function ExampleId2(): Uuid {
    FromBits(0x413a_0b12_985d_4437, 0x9490_bded_db61_7e9e)
  }

  /** The first id has its top bit set, so it is negative as a signed long
      and sorts first under compareTo, although its text sorts last. */
  lemma ExampleIdsOrder()
    ensures Precedes(ExampleId(), ExampleId2())
    ensures CompareText(ExampleId(), ExampleId2()) > 0
  {
  }

  /** The first account holds `firstBalance`; the second, when present, holds 1. */
  function Ledger(firstBalance: int, withSecond: bool): Store {
    var first := map[ExampleId() := AccountRecord(ExampleId(), ExampleId2(), "USD", firstBalance)];
    var accounts := if withSecond then first[ExampleId2() := AccountRecord(ExampleId2(), ExampleId(), "USD", 1)] else first;
    Store(accounts, [], [], [])
  }

  /** A transfer from the second id (missing) to the first (present) looks up
      the first, then the second, once each, and fails. */
  lemma ReversedLockingAttempt(timestamp: Instant, generatedId: Uuid)
    ensures var (r, st) := TransferSpec(Ledger(1, false), timestamp, ExampleId2(), 1, ExampleId(), 1, "", generatedId);
      r == Err(TransferException) && st.locks == [ExampleId(), ExampleId2()] && st.entries == []
  {
    ExampleIdsOrder();
  }

  /** Both accounts hold 1: moving 1 leaves 0 and 2, saves both, and
      completes with the caller's description. */
  lemma GreenPath(timestamp: Instant, generatedId: Uuid)
    ensures var (r, st) := TransferSpec(Ledger(1, true), timestamp, ExampleId(), 1, ExampleId2(), 1, "happy transfer", generatedId);
      && r.Ok? && r.value.status == Completed && r.value.description == "happy transfer"
      && r.value.sourceAccountId == ExampleId() && r.value.destinationAccountId == ExampleId2()
      && st.accounts[ExampleId()].balance == 0 && st.accounts[ExampleId2()].balance == 2
      && st.saves == [ExampleId(), ExampleId2()] && st.locks == [ExampleId(), ExampleId2()]
  {
    ExampleIdsOrder();
    SufficientBalanceCompleted(Ledger(1, true), timestamp, ExampleId(), 1, ExampleId2(), 1, "happy transfer", generatedId);
  }

  /** A source holding 0 cannot send 1 to a destination holding 1: a FAILED
      entry between the two accounts, both balances as they were, nothing saved. */
  lemma InsufficientBalance(timestamp: Instant, generatedId: Uuid)
    ensures var (r, st) := TransferSpec(Ledger(0, true), timestamp, ExampleId(), 1, ExampleId2(), 1, "insufficient balance", generatedId);
      && r.Ok? && r.value.status == Failed && r.value.description == INSUFFICIENT_BALANCE
      && r.value.sourceAccountId == ExampleId() && r.value.destinationAccountId == ExampleId2()
      && r.value.sourceBalance == 0 && r.value.destinationBalance == 1
      && st.saves == [] && st.accounts == Ledger(0, true).accounts
      && st.locks == [ExampleId(), ExampleId2()]
  {
    ExampleIdsOrder();
    InsufficientBalanceRecorded(Ledger(0, true), timestamp, ExampleId(), 1, ExampleId2(), 1, "insufficient balance", generatedId);
  }
}
