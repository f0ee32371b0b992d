/** The JPA entities the transfer executor works on: the mutable `Account`
    and the immutable ledger entry `Transaction`. */
module Model {
  import opened Wrappers
  import opened Uuids

  /** `java.time.Instant`, an opaque point in time (nanoseconds since the epoch). */
  type Instant = int

  datatype TransactionStatus = Completed | Failed

  /** `TransactionStatus.toString()`: the enum constant's name. */
  function StatusName(s: TransactionStatus): (name: string)
    ensures name == "COMPLETED" <==> s == Completed
    ensures name == "FAILED" <==> s == Failed
  {
    match s
    case Completed => "COMPLETED"
    case Failed => "FAILED"
  }

  /** What `findById` hands the request handlers: the fields of an account
      as they are when it is read. */
  datatype AccountRecord = AccountRecord(id: Uuid, client: Uuid, currency: string, balance: int)

  /** An account. Identity, owner and currency are fixed at construction; only
      the balance (minor units, unbounded) has a setter. The owning `Client`
      entity is represented by its id. */
  class Account {
    const id: Uuid
    const client: Uuid
    const currency: string
    var balance: int

    /** The all-arguments constructor, in declaration order. */
    constructor (id: Uuid, client: Uuid, currency: string, balance: int)
      ensures this.id == id && this.client == client
      ensures this.currency == currency && this.balance == balance
    {
      this.id := id;
      this.client := client;
      this.currency := currency;
      this.balance := balance;
    }

    method SetBalance(balance: int)
      modifies this
      ensures this.balance == balance
    {
      this.balance := balance;
    }

    function Record(): (r: AccountRecord)
      reads this
    {
      AccountRecord(id, client, currency, balance)
    }
  }

  /** A ledger entry: one transfer attempt, immutable once built. The datatype
      constructor is the ten-argument constructor; the two accounts are kept
      by id. `id` is None until the store's generator assigns one on save. */
  datatype Transaction = Transaction(
    id: Option<Uuid>,
    status: TransactionStatus,
    timestamp: Instant,
    sourceAccountId: Uuid,
    sourceAmount: int,
    sourceBalance: int,
    destinationAccountId: Uuid,
    destinationAmount: int,
    destinationBalance: int,
    description: string)
}
