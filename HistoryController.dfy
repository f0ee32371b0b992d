/** The `/history` request handler: one page of an account's entries,
    newest first, each seen from that account. The repository's page query
    is a function parameter. */
module HistoryController {
  import opened Wrappers
  import opened Uuids
  import opened Model
  import opened TransactionViews
  import opened ApiErrors

  const DEFAULT_OFFSET: int := 0
  const DEFAULT_LIMIT: int := 10

  const ACCOUNT_NOT_FOUND := "account not found"
  const LIMIT_NOT_POSITIVE := "limit must be positive"
  const OFFSET_NEGATIVE := "offset must be 0 or positive"

  /** Java `int`. */
  type Int32 = x: int | -0x8000_0000 <= x < 0x8000_0000

  /** `offset` and `limit` are optional (`Integer`, null when absent). */
  datatype HistoryRequest = HistoryRequest(accountId: Uuid, offset: Option<Int32>, limit: Option<Int32>)

  datatype AccountView = AccountView(accountId: Uuid, currency: string, balance: int)

  datatype HistoryResponse = HistoryResponse(account: AccountView, offset: int, limit: int,
                                             transactions: seq<TransactionView>)

  /** The repository query: entries with the account on either side,
      newest first, page `page` of pages of `size`. */
  datatype PageQuery = PageQuery(accountId: Uuid, page: int, size: int)

  type PageFetch = PageQuery -> seq<Transaction>

  function AccountViewOf(account: AccountRecord): (v: AccountView)
  {
    AccountView(account.id, account.currency, account.balance)
  }

  /** Each entry seen from `requester`, in the order given. */
  function ViewsOf(requester: Uuid, ts: seq<Transaction>): (vs: seq<TransactionView>)
    ensures |vs| == |ts|
    ensures forall i :: 0 <= i < |ts| ==> vs[i] == FromModel(requester, ts[i])
  {
    if ts == [] then [] else [FromModel(requester, ts[0])] + ViewsOf(requester, ts[1..])
  }

  function Effective(requested: Option<Int32>, default: int): int {
    match requested
    case None => default
    case Some(v) => v
  }

  /** The validation ladder and the page arithmetic: the account first,
      then the limit, then the offset; the offset becomes a page number by
      integer division. */
  function HistoryQuery(request: HistoryRequest, accounts: map<Uuid, AccountRecord>): Result<PageQuery, ApiError> {
    if request.accountId !in accounts then Err(NotFound(ACCOUNT_NOT_FOUND))
    else
      var limit := Effective(request.limit, DEFAULT_LIMIT);
      if limit < 1 then Err(BadRequest(LIMIT_NOT_POSITIVE))
      else
        var offset := Effective(request.offset, DEFAULT_OFFSET);
        if offset < 0 then Err(BadRequest(OFFSET_NEGATIVE))
        else Ok(PageQuery(accounts[request.accountId].id, offset / limit, limit))
  }

  /** `getHistory`. */
  function GetHistory(request: HistoryRequest, accounts: map<Uuid, AccountRecord>, fetch: PageFetch)
    : Result<HistoryResponse, ApiError>
  {
    match HistoryQuery(request, accounts)
    case Err(e) => Err(e)
    case Ok(query) =>
      var account := accounts[request.accountId];
      Ok(HistoryResponse(AccountViewOf(account), Effective(request.offset, DEFAULT_OFFSET),
                         Effective(request.limit, DEFAULT_LIMIT), ViewsOf(account.id, fetch(query))))
  }

  // ------------------------------------------------------------ properties

  /** An unknown account is reported before any paging check, and a bad
      limit before a bad offset; absent values are 10 and 0. */
  lemma ChecksInOrder(request: HistoryRequest, accounts: map<Uuid, AccountRecord>, fetch: PageFetch)
    ensures var r := GetHistory(request, accounts, fetch);
      var limit := if request.limit.Some? then request.limit.value else 10;
      var offset := if request.offset.Some? then request.offset.value else 0;
      && (request.accountId !in accounts ==> r == Err(NotFound(ACCOUNT_NOT_FOUND)))
      && (request.accountId in accounts && limit < 1 ==> r == Err(BadRequest(LIMIT_NOT_POSITIVE)))
      && (request.accountId in accounts && limit >= 1 && offset < 0 ==> r == Err(BadRequest(OFFSET_NEGATIVE)))
      && (r.Ok? <==> request.accountId in accounts && limit >= 1 && offset >= 0)
  {
  }

  /** The page asked for is the one holding the requested offset: it starts
      at the largest multiple of the limit not above the offset, and starts
      at the offset itself exactly when the limit divides it. */
  lemma PageSnapsToBoundary(request: HistoryRequest, accounts: map<Uuid, AccountRecord>)
    ensures var q := HistoryQuery(request, accounts);
      var offset := Effective(request.offset, DEFAULT_OFFSET);
      q.Ok? ==>
        && q.value.size == Effective(request.limit, DEFAULT_LIMIT) && q.value.page >= 0
        && q.value.page * q.value.size <= offset < q.value.page * q.value.size + q.value.size
        && (q.value.page * q.value.size == offset <==> offset % q.value.size == 0)
  {
    var q := HistoryQuery(request, accounts);
    if q.Ok? {
      var offset, limit := Effective(request.offset, DEFAULT_OFFSET), Effective(request.limit, DEFAULT_LIMIT);
      assert q.value.page == offset / limit && q.value.size == limit;
      DivisionBounds(offset, limit);
    }
  }

  lemma DivisionBounds(n: int, d: int)
    requires n >= 0 && d >= 1
    ensures n / d >= 0
    ensures (n / d) * d <= n < (n / d) * d + d
    ensures (n / d) * d == n <==> n % d == 0
  {
    assert n == (n / d) * d + n % d;
  }

  /** The response echoes the effective offset and limit (not the page),
      shows the account as read, and lists the fetched page in the
      repository's order, each entry seen from that account. */
  lemma ResponseEchoesRequest(request: HistoryRequest, accounts: map<Uuid, AccountRecord>, fetch: PageFetch)
    ensures var r := GetHistory(request, accounts, fetch);
      r.Ok? ==>
        var account := accounts[request.accountId];
        var page := fetch(HistoryQuery(request, accounts).value);
        && r.value.offset == (if request.offset.Some? then request.offset.value else 0)
        && r.value.limit == (if request.limit.Some? then request.limit.value else 10)
        && r.value.account == AccountView(account.id, account.currency, account.balance)
        && r.value.transactions == ViewsOf(account.id, page)
        && |r.value.transactions| == |page|
        && (forall i :: 0 <= i < |page| ==>
              r.value.transactions[i].transactionId == page[i].id
              && (r.value.transactions[i].direction == Debit <==> page[i].sourceAccountId == account.id))
  {
  }

  /** The handler's test requests: no paging values (page 0 of 10), an
      offset of -100, a limit of 0, and offset 100 with limit 100 (page 1). */
  lemma TestRequests(account: AccountRecord, fetch: PageFetch)
    ensures var accounts := map[account.id := account];
      && HistoryQuery(HistoryRequest(account.id, None, None), accounts) == Ok(PageQuery(account.id, 0, 10))
      && HistoryQuery(HistoryRequest(account.id, Some(-100), None), accounts) == Err(BadRequest(OFFSET_NEGATIVE))
      && HistoryQuery(HistoryRequest(account.id, None, Some(0)), accounts) == Err(BadRequest(LIMIT_NOT_POSITIVE))
      && HistoryQuery(HistoryRequest(account.id, Some(100), Some(100)), accounts) == Ok(PageQuery(account.id, 1, 100))
    ensures GetHistory(HistoryRequest(account.id, Some(100), Some(100)), map[account.id := account], fetch).value.offset == 100
  {
  }
}
