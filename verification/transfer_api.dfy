/**
 * The `createTransfer` handler of `api/transfer.go`: ordered checks on the
 * request, the authenticated user and both accounts, then at most one call
 * to `TransferTx`. The account lookup and the transfer engine are function
 * parameters; the lemma at the end plugs in the ledger model for both.
 */
module TransferApi {
  import opened Wrappers
  import opened Db
  import opened Store
  import opened Http
  import opened Token
  import Currency

  datatype TransferRequest = TransferRequest(fromAccountId: int, toAccountId: int, amount: int, currency: string)

  /**
   * The binding tags of `transferRequest`: both ids `required,min=1`, the
   * amount `required,gt=0`, the currency `required,currency`, and each number
   * small enough to decode into an `int64`.
   */
  predicate Binds(req: TransferRequest)
  {
    && IsInt64(req.fromAccountId) && req.fromAccountId >= 1
    && IsInt64(req.toAccountId) && req.toAccountId >= 1
    && IsInt64(req.amount) && req.amount > 0
    && Currency.IsSupportedCurrency(req.currency)
  }

  /** `validAccount`: the account must exist and hold the request's currency. */
  function ValidAccount(getAccount: AccountId -> Result<Account, DbError>, id: AccountId, currency: string)
    : (r: Result<Account, Status>)
    ensures r.Ok? <==> getAccount(id).Ok? && getAccount(id).value.currency == currency
    ensures r.Ok? ==> r.value == getAccount(id).value
    ensures getAccount(id) == Err(ErrNoRows) ==> r == Err(NotFound)
    ensures getAccount(id).Err? && getAccount(id).error != ErrNoRows ==> r == Err(InternalServerError)
    ensures getAccount(id).Ok? && getAccount(id).value.currency != currency ==> r == Err(BadRequest)
  {
    match getAccount(id)
    case Err(e) => if e == ErrNoRows then Err(NotFound) else Err(InternalServerError)
    case Ok(account) => if account.currency != currency then Err(BadRequest) else Ok(account)
  }

  /**
   * The handler's observable behaviour: the status, the account ids looked
   * up in order, the `TransferTx` calls made, and the body on success.
   */
  datatype TransferReply = TransferReply(
    status: Status,
    lookups: seq<AccountId>,
    calls: seq<TransferTxParams>,
    body: Option<TransferTxResult>)

  /** Every check before the transfer passes: both accounts valid in the request currency, the from account owned by `username`. */
  predicate Approved(req: TransferRequest, username: string, getAccount: AccountId -> Result<Account, DbError>)
  {
    && ValidAccount(getAccount, req.fromAccountId, req.currency).Ok?
    && getAccount(req.fromAccountId).value.owner == username
    && ValidAccount(getAccount, req.toAccountId, req.currency).Ok?
  }

  /** `createTransfer`. */
  function CreateTransfer(
    req: TransferRequest,
    auth: Option<Payload>,
    getAccount: AccountId -> Result<Account, DbError>,
    transferTx: TransferTxParams -> Result<TransferTxResult, TxError>)
    : (r: TransferReply)
    ensures !Binds(req) ==> r == TransferReply(BadRequest, [], [], None)
    ensures Binds(req) && auth.None? ==> r == TransferReply(InternalServerError, [], [], None)
    ensures r.lookups <= [req.fromAccountId, req.toAccountId]
    ensures |r.calls| <= 1
    ensures r.calls != [] <==> Binds(req) && auth.Some? && Approved(req, auth.value.username, getAccount)
    ensures r.calls != [] ==>
      && r.calls == [TransferTxParams(req.fromAccountId, req.toAccountId, req.amount)]
      && r.lookups == [req.fromAccountId, req.toAccountId]
    ensures r.status == OK <==> r.calls != [] && transferTx(r.calls[0]).Ok?
    ensures r.status == OK ==> r.body == Some(transferTx(r.calls[0]).value)
    ensures r.status != OK ==> r.body == None
    ensures r.calls != [] && transferTx(r.calls[0]).Err? ==> r.status == InternalServerError
    ensures Binds(req) && auth.Some? && ValidAccount(getAccount, req.fromAccountId, req.currency).Err? ==>
      && r.status == ValidAccount(getAccount, req.fromAccountId, req.currency).error
      && r.lookups == [req.fromAccountId]
    ensures (&& Binds(req) && auth.Some?
             && ValidAccount(getAccount, req.fromAccountId, req.currency).Ok?
             && getAccount(req.fromAccountId).value.owner != auth.value.username) ==>
      r.status == Unauthorized && r.lookups == [req.fromAccountId]
    ensures (&& Binds(req) && auth.Some?
             && ValidAccount(getAccount, req.fromAccountId, req.currency).Ok?
             && getAccount(req.fromAccountId).value.owner == auth.value.username
             && ValidAccount(getAccount, req.toAccountId, req.currency).Err?) ==>
      && r.status == ValidAccount(getAccount, req.toAccountId, req.currency).error
      && r.lookups == [req.fromAccountId, req.toAccountId]
  {
    if !Binds(req) then TransferReply(BadRequest, [], [], None)
    else if auth.None? then TransferReply(InternalServerError, [], [], None)
    else
      match ValidAccount(getAccount, req.fromAccountId, req.currency)
      case Err(status) => TransferReply(status, [req.fromAccountId], [], None)
      case Ok(fromAccount) =>
        if fromAccount.owner != auth.value.username then
          TransferReply(Unauthorized, [req.fromAccountId], [], None)
        else
          var lookups := [req.fromAccountId, req.toAccountId];
          match ValidAccount(getAccount, req.toAccountId, req.currency)
          case Err(status) => TransferReply(status, lookups, [], None)
          case Ok(_) =>
            var arg := TransferTxParams(req.fromAccountId, req.toAccountId, req.amount);
            match transferTx(arg)
            case Err(_) => TransferReply(InternalServerError, lookups, [arg], None)
            case Ok(result) => TransferReply(OK, lookups, [arg], Some(result))
  }

  /**
   * End to end on the ledger model: when the lookups read the ledger and the
   * engine runs on it, an approved request is answered 200 exactly when the
   * transaction commits; between two distinct accounts the reply then shows
   * the from account lower and the to account higher by the requested amount.
   */
  lemma ApprovedTransferOnLedger(req: TransferRequest, user: Payload, db: Ledger, env: TxEnv)
    requires Binds(req)
    requires Approved(req, user.username, id => GetAccount(db, id))
    ensures var r := CreateTransfer(req, Some(user), id => GetAccount(db, id),
                                    p => TransferTx(db, env, p).result);
      && (r.status == OK <==> Commits(db, env, TransferTxParams(req.fromAccountId, req.toAccountId, req.amount)))
      && (r.status == OK && req.fromAccountId != req.toAccountId ==>
            && r.body.value.fromAccount.balance == db.accounts[req.fromAccountId].balance - req.amount
            && r.body.value.toAccount.balance == db.accounts[req.toAccountId].balance + req.amount)
  {
  }
}
