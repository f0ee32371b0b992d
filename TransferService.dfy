/** `TransferServiceImpl.transfer`: move money between two accounts inside
    one database transaction, locking the accounts in id order. */
module TransferService {
  import opened Wrappers
  import opened Uuids
  import opened Model

  /** `TransferService.TransferException`; it carries no detail. */
  datatype TransferException = TransferException

  /** The description a failed entry gets in place of the caller's. */
  const INSUFFICIENT_BALANCE: string := "insufficient balance"

  /** What the repositories hold and what was asked of them: the accounts by
      id, the saved ledger entries in order, every id passed to
      `findByIdForUpdate` (the lock trace) and every account passed to `save`. */
  datatype Store = Store(
    accounts: map<Uuid, AccountRecord>,
    entries: seq<Transaction>,
    locks: seq<Uuid>,
    saves: seq<Uuid>)

  /** The two ids of a transfer, the smaller under `UUID.compareTo` first. */
  function LockOrder(src: Uuid, dst: Uuid): (order: (Uuid, Uuid))
    requires src != dst
    ensures Precedes(order.0, order.1)
    ensures (order.0 == src && order.1 == dst) || (order.0 == dst && order.1 == src)
  {
    if CompareTo(src, dst) > 0 then (dst, src) else (src, dst)
  }

  /** The step after both accounts are locked: a FAILED entry when the source
      balance does not cover the source amount, otherwise the debit, the
      credit, the two account saves and a COMPLETED entry. */
  function Settle(st: Store, timestamp: Instant, src: Uuid, sourceAmount: int, dst: Uuid,
                  destinationAmount: int, description: string, generatedId: Uuid)
    : (Result<Transaction, TransferException>, Store)
    requires src in st.accounts && dst in st.accounts && src != dst
  {
    var source, destination := st.accounts[src], st.accounts[dst];
    if source.balance - sourceAmount < 0 then
      var entry := Transaction(Some(generatedId), Failed, timestamp, src, sourceAmount, source.balance,
                               dst, destinationAmount, destination.balance, INSUFFICIENT_BALANCE);
      (Ok(entry), st.(entries := st.entries + [entry]))
    else
      var debited := source.(balance := source.balance - sourceAmount);
      var credited := destination.(balance := destination.balance + destinationAmount);
      var entry := Transaction(Some(generatedId), Completed, timestamp, src, sourceAmount, debited.balance,
                               dst, destinationAmount, credited.balance, description);
      (Ok(entry), st.(accounts := st.accounts[src := debited][dst := credited],
                      entries := st.entries + [entry],
                      saves := st.saves + [src, dst]))
  }

  /** The whole transfer on the store's contents: the result and the new
      store. `generatedId` is the id the entry store assigns on save. */
  function TransferSpec(st: Store, timestamp: Instant, src: Uuid, sourceAmount: int, dst: Uuid,
                        destinationAmount: int, description: string, generatedId: Uuid)
    : (Result<Transaction, TransferException>, Store)
  {
    if CompareTo(src, dst) == 0 then (Err(TransferException), st)
    else
      var first, second := LockOrder(src, dst).0, LockOrder(src, dst).1;
      if first !in st.accounts then (Err(TransferException), st.(locks := st.locks + [first]))
      else if second !in st.accounts then (Err(TransferException), st.(locks := st.locks + [first, second]))
      else Settle(st.(locks := st.locks + [first, second]), timestamp, src, sourceAmount, dst,
                  destinationAmount, description, generatedId)
  }

  /** The service over its two repositories. The accounts are the entity
      objects the accounts repository hands out; the entry repository is an
      append-only sequence. */
  class TransferServiceImpl {
    var accounts: map<Uuid, Account>
    var entries: seq<Transaction>
    var locks: seq<Uuid>
    var saves: seq<Uuid>

    /** Each account is stored under its own id. */
    predicate Valid()
      reads this`accounts, accounts.Values
    {
      forall id :: id in accounts ==> accounts[id].id == id
    }

    function Records(): (records: map<Uuid, AccountRecord>)
      reads this`accounts, accounts.Values
    {
      map id | id in accounts :: accounts[id].Record()
    }

    function AsStore(): Store
      reads this, accounts.Values
    {
      Store(Records(), entries, locks, saves)
    }

    constructor (accounts: map<Uuid, Account>, entries: seq<Transaction>)
      requires forall id :: id in accounts ==> accounts[id].id == id
      ensures Valid()
      ensures this.accounts == accounts && this.entries == entries && locks == [] && saves == []
    {
      this.accounts := accounts;
      this.entries := entries;
      locks := [];
      saves := [];
    }

    /** `AccountsRepository.findByIdForUpdate`: look the account up and lock it. */
    method FindByIdForUpdate(id: Uuid) returns (account: Option<Account>)
      modifies this`locks
      ensures locks == old(locks) + [id]
      ensures account.Some? <==> id in accounts
      ensures account.Some? ==> account.value == accounts[id]
    {
      locks := locks + [id];
      if id in accounts {
        account := Some(accounts[id]);
      } else {
        account := None;
      }
    }

    /** `AccountsRepository.save`: the managed entity is written back and returned. */
    method SaveAccount(account: Account) returns (saved: Account)
      modifies this`saves
      ensures saves == old(saves) + [account.id] && saved == account
    {
      saves := saves + [account.id];
      saved := account;
    }

    /** `TransactionsRepository.save`: the generator assigns the id and the
        stored entry is returned. */
    method SaveEntry(entry: Transaction, generatedId: Uuid) returns (saved: Transaction)
      modifies this`entries
      ensures saved == entry.(id := Some(generatedId))
      ensures entries == old(entries) + [saved]
    {
      saved := entry.(id := Some(generatedId));
      entries := entries + [saved];
    }

    /** `transfer`. The repositories' effects are those TransferSpec describes. */
    method Transfer(timestamp: Instant, sourceAccountId: Uuid, sourceAmount: int,
                    destinationAccountId: Uuid, destinationAmount: int, description: string,
                    generatedId: Uuid)
      returns (r: Result<Transaction, TransferException>)
      requires Valid()
      modifies this, accounts.Values
      ensures Valid() && accounts == old(accounts)
      ensures (r, AsStore()) == TransferSpec(old(AsStore()), timestamp, sourceAccountId, sourceAmount,
                                             destinationAccountId, destinationAmount, description, generatedId)
    {
      var sourceAccount: Account, destinationAccount: Account;
      if CompareTo(sourceAccountId, destinationAccountId) > 0 {
        var found := FindByIdForUpdate(destinationAccountId);
        if found.None? {
          return Err(TransferException);
        }
        destinationAccount := found.value;
        found := FindByIdForUpdate(sourceAccountId);
        assert locks == old(locks) + [destinationAccountId, sourceAccountId];
        if found.None? {
          return Err(TransferException);
        }
        sourceAccount := found.value;
      } else if CompareTo(sourceAccountId, destinationAccountId) < 0 {
        var found := FindByIdForUpdate(sourceAccountId);
        if found.None? {
          return Err(TransferException);
        }
        sourceAccount := found.value;
        found := FindByIdForUpdate(destinationAccountId);
        assert locks == old(locks) + [sourceAccountId, destinationAccountId];
        if found.None? {
          return Err(TransferException);
        }
        destinationAccount := found.value;
      } else {
        return Err(TransferException);
      }

      assert locks == old(locks) + [LockOrder(sourceAccountId, destinationAccountId).0, LockOrder(sourceAccountId, destinationAccountId).1];
      r := SettleLocked(timestamp, sourceAccount, sourceAmount, destinationAccount, destinationAmount,
                        description, generatedId);
    }

    /** The part of `transfer` after both accounts are locked. */
    method SettleLocked(timestamp: Instant, sourceAccount: Account, sourceAmount: int,
                        destinationAccount: Account, destinationAmount: int, description: string,
                        generatedId: Uuid)
      returns (r: Result<Transaction, TransferException>)
      requires Valid()
      requires sourceAccount.id in accounts && accounts[sourceAccount.id] == sourceAccount
      requires destinationAccount.id in accounts && accounts[destinationAccount.id] == destinationAccount
      requires sourceAccount.id != destinationAccount.id
      modifies this`entries, this`saves, sourceAccount, destinationAccount
      ensures Valid()
      ensures (r, AsStore()) == Settle(old(AsStore()), timestamp, sourceAccount.id, sourceAmount,
                                       destinationAccount.id, destinationAmount, description, generatedId)
    {
      if sourceAccount.balance - sourceAmount < 0 {
        ghost var st := AsStore();
        var entry := SaveEntry(Transaction(None, Failed, timestamp, sourceAccount.id, sourceAmount,
                                           sourceAccount.balance, destinationAccount.id, destinationAmount,
                                           destinationAccount.balance, INSUFFICIENT_BALANCE), generatedId);
        assert AsStore() == st.(entries := st.entries + [entry]);
        return Ok(entry);
      }
      r := Complete(timestamp, sourceAccount, sourceAmount, destinationAccount, destinationAmount, description, generatedId);
    }

    /** `account.setBalance(balance)` followed by `accountsRepository.save(account)`. */
    method SetBalanceAndSave(account: Account, balance: int) returns (saved: Account)
      requires Valid()
      requires account.id in accounts && accounts[account.id] == account
      modifies this`saves, account
      ensures Valid() && saved == account
      ensures Records() == old(Records())[account.id := old(Records())[account.id].(balance := balance)]
      ensures saves == old(saves) + [account.id]
    {
      ghost var before := Records();
      account.SetBalance(balance);
      saved := SaveAccount(account);
      ghost var updated := before[account.id := before[account.id].(balance := balance)];
      forall id | id in accounts
        ensures Records()[id] == updated[id]
      {
        if id != account.id {
          assert accounts[id].id == id;
        }
      }
      assert Records() == updated;
    }

    /** The branch of `transfer` with enough funds: debit, credit, save both
        accounts, save a COMPLETED entry. */
    method Complete(timestamp: Instant, sourceAccount: Account, sourceAmount: int,
                    destinationAccount: Account, destinationAmount: int, description: string,
                    generatedId: Uuid)
      returns (r: Result<Transaction, TransferException>)
      requires Valid()
      requires sourceAccount.id in accounts && accounts[sourceAccount.id] == sourceAccount
      requires destinationAccount.id in accounts && accounts[destinationAccount.id] == destinationAccount
      requires sourceAccount.id != destinationAccount.id
      requires sourceAccount.balance - sourceAmount >= 0
      modifies this`entries, this`saves, sourceAccount, destinationAccount
      ensures Valid()
      ensures (r, AsStore()) == Settle(old(AsStore()), timestamp, sourceAccount.id, sourceAmount,
                                       destinationAccount.id, destinationAmount, description, generatedId)
    {
      ghost var st := AsStore();
      ghost var src, dst := sourceAccount.id, destinationAccount.id;
      assert st.accounts[src].balance == sourceAccount.balance;
      assert st.accounts[dst].balance == destinationAccount.balance;
      var source := SetBalanceAndSave(sourceAccount, sourceAccount.balance - sourceAmount);
      ghost var middle := Records();
      assert middle[dst] == st.accounts[dst];
      var destination := SetBalanceAndSave(destinationAccount, destinationAccount.balance + destinationAmount);
      var entry := SaveEntry(Transaction(None, Completed, timestamp, source.id, sourceAmount,
                                         source.balance, destination.id, destinationAmount,
                                         destination.balance, description), generatedId);
      ghost var sb, db := st.accounts[src].balance - sourceAmount, st.accounts[dst].balance + destinationAmount;
      assert source.balance == sb && destination.balance == db;
      assert Records() == st.accounts[src := st.accounts[src].(balance := sb)][dst := st.accounts[dst].(balance := db)];
      assert entry == Transaction(Some(generatedId), Completed, timestamp, src, sourceAmount, sb,
                                  dst, destinationAmount, db, description);
      SettleCompletes(st, timestamp, src, sourceAmount, dst, destinationAmount, description, generatedId,
                      entry, AsStore());
      return Ok(entry);
    }
  }

  /** The store Settle leaves behind when the source balance covers the amount. */
  lemma SettleCompletes(st: Store, timestamp: Instant, src: Uuid, sourceAmount: int, dst: Uuid,
                        destinationAmount: int, description: string, generatedId: Uuid,
                        entry: Transaction, after: Store)
    requires src in st.accounts && dst in st.accounts && src != dst
    requires st.accounts[src].balance - sourceAmount >= 0
    requires entry == Transaction(Some(generatedId), Completed, timestamp, src, sourceAmount,
                                  st.accounts[src].balance - sourceAmount, dst, destinationAmount,
                                  st.accounts[dst].balance + destinationAmount, description)
    requires after.accounts == st.accounts[src := st.accounts[src].(balance := entry.sourceBalance)]
                                          [dst := st.accounts[dst].(balance := entry.destinationBalance)]
    requires after.entries == st.entries + [entry] && after.locks == st.locks
    requires after.saves == st.saves + [src, dst]
    ensures Settle(st, timestamp, src, sourceAmount, dst, destinationAmount, description, generatedId)
      == (Ok(entry), after)
  {
  }

  // ------------------------------------------------------------ properties

  /** A transfer from an account to itself fails before anything is looked up. */
  lemma SameAccountRejected(st: Store, timestamp: Instant, id: Uuid, sourceAmount: int,
                            destinationAmount: int, description: string, generatedId: Uuid)
    ensures TransferSpec(st, timestamp, id, sourceAmount, id, destinationAmount, description, generatedId)
      == (Err(TransferException), st)
  {
  }

  /** The accounts are looked up (and locked) smaller id first, whichever is
      the source; the second is looked up only when the first exists. */
  lemma SmallerIdLockedFirst(st: Store, timestamp: Instant, src: Uuid, sourceAmount: int, dst: Uuid,
                             destinationAmount: int, description: string, generatedId: Uuid)
    requires src != dst
    ensures var smaller := if Precedes(src, dst) then src else dst;
      var larger := if Precedes(src, dst) then dst else src;
      TransferSpec(st, timestamp, src, sourceAmount, dst, destinationAmount, description, generatedId).1.locks
        == st.locks + (if smaller in st.accounts then [smaller, larger] else [smaller])
  {
    CompareToAntisymmetric(src, dst);
  }

  /** A→B and B→A take their locks in the same order, whatever the amounts. */
  lemma LockTraceSymmetric(st: Store, a: Uuid, b: Uuid,
                           t1: Instant, x1: int, y1: int, d1: string, g1: Uuid,
                           t2: Instant, x2: int, y2: int, d2: string, g2: Uuid)
    ensures TransferSpec(st, t1, a, x1, b, y1, d1, g1).1.locks == TransferSpec(st, t2, b, x2, a, y2, d2, g2).1.locks
  {
    if a != b {
      SmallerIdLockedFirst(st, t1, a, x1, b, y1, d1, g1);
      SmallerIdLockedFirst(st, t2, b, x2, a, y2, d2, g2);
      PrecedesIsStrictTotalOrder(a, b, a);
    }
  }

  /** A missing account fails the transfer and leaves balances, entries and
      saves as they were. */
  lemma MissingAccountRejected(st: Store, timestamp: Instant, src: Uuid, sourceAmount: int, dst: Uuid,
                               destinationAmount: int, description: string, generatedId: Uuid)
    requires src !in st.accounts || dst !in st.accounts
    ensures var (r, st') := TransferSpec(st, timestamp, src, sourceAmount, dst, destinationAmount, description, generatedId);
      r == Err(TransferException) && st'.accounts == st.accounts && st'.entries == st.entries && st'.saves == st.saves
  {
  }

  /** Not enough funds: a FAILED entry with the fixed description and both
      balances as they stand, and no account changed or saved. */
  lemma InsufficientBalanceRecorded(st: Store, timestamp: Instant, src: Uuid, sourceAmount: int, dst: Uuid,
                                    destinationAmount: int, description: string, generatedId: Uuid)
    requires src != dst && src in st.accounts && dst in st.accounts
    requires st.accounts[src].balance - sourceAmount < 0
    ensures var (r, st') := TransferSpec(st, timestamp, src, sourceAmount, dst, destinationAmount, description, generatedId);
      var entry := Transaction(Some(generatedId), Failed, timestamp, src, sourceAmount, st.accounts[src].balance,
                               dst, destinationAmount, st.accounts[dst].balance, INSUFFICIENT_BALANCE);
      && r == Ok(entry)
      && st'.accounts == st.accounts && st'.saves == st.saves
      && st'.entries == st.entries + [entry]
  {
  }

  /** Enough funds (a balance equal to the amount is enough): the source
      loses exactly sourceAmount, the destination gains exactly
      destinationAmount, nothing else changes, each is saved once, and the
      COMPLETED entry carries the caller's description and the new balances. */
  lemma SufficientBalanceCompleted(st: Store, timestamp: Instant, src: Uuid, sourceAmount: int, dst: Uuid,
                                   destinationAmount: int, description: string, generatedId: Uuid)
    requires src != dst && src in st.accounts && dst in st.accounts
    requires st.accounts[src].balance - sourceAmount >= 0
    ensures var (r, st') := TransferSpec(st, timestamp, src, sourceAmount, dst, destinationAmount, description, generatedId);
      var source, destination := st.accounts[src], st.accounts[dst];
      var entry := Transaction(Some(generatedId), Completed, timestamp, src, sourceAmount, source.balance - sourceAmount,
                               dst, destinationAmount, destination.balance + destinationAmount, description);
      && r == Ok(entry)
      && st'.accounts.Keys == st.accounts.Keys
      && st'.accounts[src] == source.(balance := source.balance - sourceAmount)
      && st'.accounts[dst] == destination.(balance := destination.balance + destinationAmount)
      && (forall id :: id in st.accounts && id != src && id != dst ==> st'.accounts[id] == st.accounts[id])
      && st'.saves == st.saves + [src, dst]
      && st'.entries == st.entries + [entry]
  {
    SmallerIdLockedFirst(st, timestamp, src, sourceAmount, dst, destinationAmount, description, generatedId);
  }

  /** Every transfer that returns saves exactly one entry and returns it, with
      the generated id; one that throws saves nothing and changes no account. */
  lemma OneEntryPerTransfer(st: Store, timestamp: Instant, src: Uuid, sourceAmount: int, dst: Uuid,
                            destinationAmount: int, description: string, generatedId: Uuid)
    ensures var (r, st') := TransferSpec(st, timestamp, src, sourceAmount, dst, destinationAmount, description, generatedId);
      && (r.Ok? ==> st'.entries == st.entries + [r.value] && r.value.id == Some(generatedId))
      && (r.Err? ==> st'.entries == st.entries && st'.accounts == st.accounts && st'.saves == st.saves)
      && st'.locks[..|st.locks|] == st.locks
  {
    if src != dst {
      SmallerIdLockedFirst(st, timestamp, src, sourceAmount, dst, destinationAmount, description, generatedId);
      if src in st.accounts && dst in st.accounts {
        if st.accounts[src].balance - sourceAmount < 0 {
          InsufficientBalanceRecorded(st, timestamp, src, sourceAmount, dst, destinationAmount, description, generatedId);
        } else {
          SufficientBalanceCompleted(st, timestamp, src, sourceAmount, dst, destinationAmount, description, generatedId);
        }
      }
    }
  }

  /** A completed transfer never leaves the source below zero, and the entry
      records the balance it does leave. */
  lemma SourceNeverOverdrawn(st: Store, timestamp: Instant, src: Uuid, sourceAmount: int, dst: Uuid,
                             destinationAmount: int, description: string, generatedId: Uuid)
    ensures var (r, st') := TransferSpec(st, timestamp, src, sourceAmount, dst, destinationAmount, description, generatedId);
      r.Ok? && r.value.status == Completed ==>
        src in st'.accounts && st'.accounts[src].balance == r.value.sourceBalance >= 0
  {
    if src != dst && src in st.accounts && dst in st.accounts {
      if st.accounts[src].balance - sourceAmount >= 0 {
        SufficientBalanceCompleted(st, timestamp, src, sourceAmount, dst, destinationAmount, description, generatedId);
      } else {
        InsufficientBalanceRecorded(st, timestamp, src, sourceAmount, dst, destinationAmount, description, generatedId);
      }
    }
  }

  predicate NoNegativeBalance(accounts: map<Uuid, AccountRecord>) {
    forall id :: id in accounts ==> accounts[id].balance >= 0
  }

  /** With a destination amount of at least zero, as the request handlers
      pass, no balance goes negative. */
  lemma BalancesStayNonNegative(st: Store, timestamp: Instant, src: Uuid, sourceAmount: int, dst: Uuid,
                                destinationAmount: int, description: string, generatedId: Uuid)
    requires NoNegativeBalance(st.accounts) && destinationAmount >= 0
    ensures NoNegativeBalance(TransferSpec(st, timestamp, src, sourceAmount, dst, destinationAmount, description, generatedId).1.accounts)
  {
    if src != dst && src in st.accounts && dst in st.accounts && st.accounts[src].balance - sourceAmount >= 0 {
      SufficientBalanceCompleted(st, timestamp, src, sourceAmount, dst, destinationAmount, description, generatedId);
    }
  }

  /** What the two balances gain together is destinationAmount - sourceAmount;
      with equal amounts (one currency) money is neither made nor lost. */
  lemma TransferConserves(st: Store, timestamp: Instant, src: Uuid, sourceAmount: int, dst: Uuid,
                          destinationAmount: int, description: string, generatedId: Uuid)
    requires src in st.accounts && dst in st.accounts
    ensures var st' := TransferSpec(st, timestamp, src, sourceAmount, dst, destinationAmount, description, generatedId).1;
      var gained := st'.accounts[src].balance + st'.accounts[dst].balance
                    - (st.accounts[src].balance + st.accounts[dst].balance);
      gained == 0 || gained == destinationAmount - sourceAmount
  {
    if src != dst {
      if st.accounts[src].balance - sourceAmount >= 0 {
        SufficientBalanceCompleted(st, timestamp, src, sourceAmount, dst, destinationAmount, description, generatedId);
      } else {
        InsufficientBalanceRecorded(st, timestamp, src, sourceAmount, dst, destinationAmount, description, generatedId);
      }
    }
  }
}
