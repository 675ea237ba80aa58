/**
 * The account endpoints of `api/account.go`: `createAccount`, `getAccount`
 * and `listAccounts`, as decisions over an abstract store. Each store call
 * is a function parameter and the handlers report the calls they make.
 */
module AccountApi {
  import opened Wrappers
  import Db
  import opened Http
  import opened Token
  import Currency

  /** The condition names for which `createAccount` answers 403. */
  const ForeignKeyViolation: string := "foreign_key_violation"
  const UniqueViolation: string := "unique_violation"

  datatype CreateAccountParams = CreateAccountParams(owner: string, balance: int, currency: string)

  datatype AccountReply = AccountReply(status: Status, calls: seq<CreateAccountParams>, body: Option<Db.Account>)

  /** How `createAccount` maps a store error: the two constraint violations give 403, everything else 500. */
  function CreateAccountErrorStatus(e: Db.DbError): (s: Status)
    ensures s == Forbidden <==> e.PqError? && e.codeName in {ForeignKeyViolation, UniqueViolation}
    ensures s == Forbidden || s == InternalServerError
  {
    match e
    case PqError(code, _) =>
      if code == ForeignKeyViolation || code == UniqueViolation then Forbidden else InternalServerError
    case _ => InternalServerError
  }

  /** `createAccount`: a new account for the authenticated user, in the requested currency, with a zero balance. */
  function CreateAccount(
    currency: string,
    auth: Option<Payload>,
    create: CreateAccountParams -> Result<Db.Account, Db.DbError>)
    : (r: AccountReply)
    ensures !Currency.IsSupportedCurrency(currency) ==> r == AccountReply(BadRequest, [], None)
    ensures Currency.IsSupportedCurrency(currency) && auth.None? ==> r == AccountReply(InternalServerError, [], None)
    ensures r.calls != [] <==> Currency.IsSupportedCurrency(currency) && auth.Some?
    ensures r.calls != [] ==> r.calls == [CreateAccountParams(auth.value.username, 0, currency)]
    ensures r.status == OK <==> r.calls != [] && create(r.calls[0]).Ok?
    ensures r.status == OK ==> r.body == Some(create(r.calls[0]).value)
    ensures r.status != OK ==> r.body == None
    ensures r.calls != [] && create(r.calls[0]).Err? ==>
      r.status == CreateAccountErrorStatus(create(r.calls[0]).error)
  {
    if !Currency.IsSupportedCurrency(currency) then AccountReply(BadRequest, [], None)
    else if auth.None? then AccountReply(InternalServerError, [], None)
    else
      var arg := CreateAccountParams(auth.value.username, 0, currency);
      match create(arg)
      case Err(e) => AccountReply(CreateAccountErrorStatus(e), [arg], None)
      case Ok(account) => AccountReply(OK, [arg], Some(account))
  }

  datatype GetReply = GetReply(status: Status, lookups: seq<Db.AccountId>, body: Option<Db.Account>)

  /** The `getAccountRequest` binding: `required,min=1` on an `int64` id. */
  predicate BindsId(id: int)
  {
    IsInt64(id) && id >= 1
  }

  /** `getAccount`: the account is shown only to its owner. */
  function GetAccount(
    id: int,
    auth: Option<Payload>,
    getAccount: Db.AccountId -> Result<Db.Account, Db.DbError>)
    : (r: GetReply)
    ensures !BindsId(id) ==> r == GetReply(BadRequest, [], None)
    ensures BindsId(id) ==> r.lookups == [id]
    ensures BindsId(id) && getAccount(id) == Err(Db.ErrNoRows) ==> r.status == NotFound
    ensures BindsId(id) && getAccount(id).Err? && getAccount(id).error != Db.ErrNoRows ==>
      r.status == InternalServerError
    ensures BindsId(id) && getAccount(id).Ok? && auth.None? ==> r == GetReply(InternalServerError, [id], None)
    ensures BindsId(id) && getAccount(id).Ok? && auth.Some? && getAccount(id).value.owner != auth.value.username ==>
      r.status == Unauthorized
    ensures r.status == OK <==>
      BindsId(id) && getAccount(id).Ok? && auth.Some? && getAccount(id).value.owner == auth.value.username
    ensures r.status == OK ==> r.body == Some(getAccount(id).value)
    ensures r.status != OK ==> r.body == None
  {
    if !BindsId(id) then GetReply(BadRequest, [], None)
    else
      match getAccount(id)
      case Err(e) => GetReply(if e == Db.ErrNoRows then NotFound else InternalServerError, [id], None)
      case Ok(account) =>
        if auth.None? then GetReply(InternalServerError, [id], None)
        else if account.owner != auth.value.username then GetReply(Unauthorized, [id], None)
        else GetReply(OK, [id], Some(account))
  }

  /** The `listAccountsRequest` binding: `int32` page id `required,min=1`, page size `required,min=5,max=10`. */
  predicate BindsPage(pageId: int, pageSize: int)
  {
    IsInt32(pageId) && IsInt32(pageSize) && pageId >= 1 && 5 <= pageSize <= 10
  }

  /** Two's-complement wrap-around of an integer into the `int32` range. */
  function Wrap32(x: int): (w: int)
    ensures IsInt32(w)
    ensures (x - w) % 0x1_0000_0000 == 0
    ensures IsInt32(x) ==> w == x
  {
    (x - Int32Min) % 0x1_0000_0000 + Int32Min
  }

  /** The offset as the source computes it: `(PageID - 1) * PageSize` in `int32` arithmetic. */
  function OffsetAsWritten(pageId: int, pageSize: int): (offset: int)
    requires BindsPage(pageId, pageSize)
    ensures IsInt32(offset)
  {
    Wrap32(Wrap32(pageId - 1) * pageSize)
  }

  /** The offset without wrap-around: the rows of all earlier pages. */
  function ListOffset(pageId: int, pageSize: int): (offset: int)
    requires BindsPage(pageId, pageSize)
    ensures offset >= 0
    ensures offset % pageSize == 0 && offset / pageSize == pageId - 1
  {
    (pageId - 1) * pageSize
  }

  /** The two offsets agree exactly when the product fits in an `int32`. */
  lemma OffsetAsWrittenAgreesWhileInRange(pageId: int, pageSize: int)
    requires BindsPage(pageId, pageSize)
    ensures OffsetAsWritten(pageId, pageSize) == ListOffset(pageId, pageSize) <==>
      ListOffset(pageId, pageSize) <= Int32Max
  {
  }

  /** Page 300000000 of size 10 passes the binding, yet the source's offset wraps to a negative number. */
  lemma OffsetAsWrittenGoesNegative()
    ensures BindsPage(300000000, 10)
    ensures OffsetAsWritten(300000000, 10) == -1294967306
    ensures ListOffset(300000000, 10) == 2999999990
  {
  }

  datatype ListAccountsParams = ListAccountsParams(owner: string, limit: int, offset: int)

  datatype ListReply = ListReply(status: Status, calls: seq<ListAccountsParams>, body: Option<seq<Db.Account>>)

  /**
   * `listAccounts`, with the offset computed without wrap-around. On
   * `ErrNoRows` the source writes 404 and then 500; gin keeps the first
   * status written and only appends the second body, so the client sees 404.
   * Every other store error is answered 500.
   */
  function ListAccounts(
    pageId: int,
    pageSize: int,
    auth: Option<Payload>,
    list: ListAccountsParams -> Result<seq<Db.Account>, Db.DbError>)
    : (r: ListReply)
    ensures !BindsPage(pageId, pageSize) ==> r == ListReply(BadRequest, [], None)
    ensures BindsPage(pageId, pageSize) && auth.None? ==> r == ListReply(InternalServerError, [], None)
    ensures r.calls != [] <==> BindsPage(pageId, pageSize) && auth.Some?
    ensures r.calls != [] ==>
      && |r.calls| == 1
      && r.calls[0].owner == auth.value.username
      && r.calls[0].limit == pageSize
      && r.calls[0].offset >= 0
      && r.calls[0].offset % pageSize == 0
      && r.calls[0].offset / pageSize == pageId - 1
    ensures r.status == OK <==> r.calls != [] && list(r.calls[0]).Ok?
    ensures r.status == OK ==> r.body == Some(list(r.calls[0]).value)
    ensures r.calls != [] && list(r.calls[0]).Err? ==>
      && r.status == (if list(r.calls[0]).error == Db.ErrNoRows then NotFound else InternalServerError)
      && r.body == None
  {
    if !BindsPage(pageId, pageSize) then ListReply(BadRequest, [], None)
    else if auth.None? then ListReply(InternalServerError, [], None)
    else
      var arg := ListAccountsParams(auth.value.username, pageSize, ListOffset(pageId, pageSize));
      match list(arg)
      case Err(e) => ListReply(if e == Db.ErrNoRows then NotFound else InternalServerError, [arg], None)
      case Ok(accounts) => ListReply(OK, [arg], Some(accounts))
  }
}
