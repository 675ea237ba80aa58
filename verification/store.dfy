/**
 * The transfer transaction engine of `db/sqlc/store.go`: the commit-or-rollback
 * runner `ExecTx` and the composite `TransferTx` built from `MakeTransfer`,
 * `MakeEntry` and `UpdateAccountBalance`.
 */
module Store {
  import opened Wrappers
  import opened Db

  /**
   * What the database does to one transaction attempt: whether BEGIN, ROLLBACK
   * or COMMIT fail, and which statements (by ordinal, from 0) fail.
   */
  datatype TxEnv = TxEnv(
    beginErr: Option<DbError>,
    faults: map<nat, DbError>,
    rollbackErr: Option<DbError>,
    commitErr: Option<DbError>)

  /** A database on which nothing fails. */
  const Healthy: TxEnv := TxEnv(None, map[], None, None)

  /**
   * The error `ExecTx` reports: a BEGIN or COMMIT error passed through as it
   * is, or the unit of work's error wrapped, together with the ROLLBACK error
   * when there is one.
   */
  datatype TxError = Raw(err: DbError) | Wrapped(cause: DbError, rollback: Option<DbError>)
  {
    function Message(): (m: string)
    {
      match this
      case Raw(e) => e.Message()
      case Wrapped(c, None) => "transaction error: " + c.Message()
      case Wrapped(c, Some(rb)) => "transaction error: " + c.Message() + ", rollback error: " + rb.Message()
    }
  }

  /** The tables after an attempt, its result, and the account rows it locked in order. */
  datatype TxOutcome<+T> = TxOutcome(ledger: Ledger, result: Result<T, TxError>, locks: seq<AccountId>)

  /** The transaction-scoped handle a fresh transaction hands to the unit of work. */
  function Begin(db: Ledger, env: TxEnv): (tx: Tx)
    ensures tx.ledger == db && tx.issued == 0 && tx.locks == []
  {
    Tx(db, env.faults, 0, [])
  }

  /**
   * `execTx`: runs the unit of work `fn` once inside a transaction, commits on
   * success and rolls back on failure. Nothing the unit did survives unless
   * the commit succeeds.
   */
  function ExecTx<T>(db: Ledger, env: TxEnv, fn: Tx -> Step<T>): (r: TxOutcome<T>)
    ensures r.result.Err? ==> r.ledger == db
    ensures env.beginErr.Some? ==> r.result == Err(Raw(env.beginErr.value)) && r.locks == []
    ensures env.beginErr.None? ==> r.locks == fn(Begin(db, env)).tx.locks
    ensures r.result.Ok? <==> env.beginErr.None? && fn(Begin(db, env)).Done? && env.commitErr.None?
    ensures r.result.Ok? ==>
      r.result.value == fn(Begin(db, env)).value && r.ledger == fn(Begin(db, env)).tx.ledger
    ensures env.beginErr.None? && fn(Begin(db, env)).Failed? ==>
      r.result == Err(Wrapped(fn(Begin(db, env)).err, env.rollbackErr))
    ensures env.beginErr.None? && fn(Begin(db, env)).Done? && env.commitErr.Some? ==>
      r.result == Err(Raw(env.commitErr.value))
  {
    if env.beginErr.Some? then TxOutcome(db, Err(Raw(env.beginErr.value)), [])
    else
      match fn(Begin(db, env))
      case Failed(e, tx) => TxOutcome(db, Err(Wrapped(e, env.rollbackErr)), tx.locks)
      case Done(v, tx) =>
        if env.commitErr.Some? then TxOutcome(db, Err(Raw(env.commitErr.value)), tx.locks)
        else TxOutcome(tx.ledger, Ok(v), tx.locks)
  }

  /** A wrapped error's message starts with "transaction error: " and the cause, and ends with the rollback error when there is one. */
  lemma WrappedMessageCarriesCauses(cause: DbError, rollback: Option<DbError>)
    ensures "transaction error: " + cause.Message() <= Wrapped(cause, rollback).Message()
    ensures rollback.Some? ==>
      var m := Wrapped(cause, rollback).Message();
      |rollback.value.Message()| <= |m| && m[|m| - |rollback.value.Message()|..] == rollback.value.Message()
  {
    var head := "transaction error: " + cause.Message();
    match rollback
    case None =>
    case Some(rb) =>
      var tail := ", rollback error: " + rb.Message();
      var m := head + tail;
      assert Wrapped(cause, rollback).Message() == m;
      assert m[..|head|] == head && m[|head|..] == tail;
      assert tail[|tail| - |rb.Message()|..] == rb.Message();
  }

  datatype TransferTxParams = TransferTxParams(fromAccountId: AccountId, toAccountId: AccountId, amount: int)

  datatype TransferTxResult = TransferTxResult(
    transfer: Transfer,
    fromAccount: Account,
    toAccount: Account,
    fromEntry: Entry,
    toEntry: Entry)

  /** Number of statements a complete transfer issues: one transfer, two entries, two (lock, update) pairs. */
  const TransferStatements: nat := 7

  /**
   * How the statement at ordinal `at` fails, if it does: with its injected
   * fault, or, when it reads a row that does not exist, with no rows.
   */
  function StatementFailure(faults: map<nat, DbError>, at: nat, missing: bool): Option<DbError>
  {
    if at in faults then Some(faults[at]) else if missing then Some(ErrNoRows) else None
  }

  /** The failure of two statements run in order: the first one's, else the second one's. */
  function FirstOf(a: Option<DbError>, b: Option<DbError>): Option<DbError>
  {
    if a.Some? then a else b
  }

  /**
   * The failure a run of statements reports, the statements at ordinals
   * `at`, `at + 1`, ... and `missing[k]` saying whether statement `k` reads a
   * row that does not exist: the run stops at its first failing statement.
   */
  function FirstFailure(faults: map<nat, DbError>, at: nat, missing: seq<bool>): (r: Option<DbError>)
    ensures r.None? <==> forall k :: 0 <= k < |missing| ==> StatementFailure(faults, at + k, missing[k]).None?
    decreases |missing|
  {
    if missing == [] then None
    else FirstOf(StatementFailure(faults, at, missing[0]), FirstFailure(faults, at + 1, missing[1..]))
  }

  /** The run from statement `k` on fails as statement `k` does, or else as the run after it. */
  lemma FirstFailureSuffix(faults: map<nat, DbError>, at: nat, missing: seq<bool>, k: nat)
    requires k < |missing|
    ensures FirstFailure(faults, at + k, missing[k..]) ==
      FirstOf(StatementFailure(faults, at + k, missing[k]), FirstFailure(faults, at + k + 1, missing[k + 1..]))
  {
    assert missing[k..][0] == missing[k];
    assert missing[k..][1..] == missing[k + 1..];
  }

  /** When statement `k` is the first to fail, the run reports its failure. */
  lemma {:induction false} FirstFailureAt(faults: map<nat, DbError>, at: nat, missing: seq<bool>, k: nat)
    requires k < |missing| && StatementFailure(faults, at + k, missing[k]).Some?
    requires forall j :: 0 <= j < k ==> StatementFailure(faults, at + j, missing[j]).None?
    ensures FirstFailure(faults, at, missing) == StatementFailure(faults, at + k, missing[k])
    decreases k
  {
    if k > 0 {
      assert StatementFailure(faults, at, missing[0]).None?;
      FirstFailureAt(faults, at + 1, missing[1..], k - 1);
    }
  }

  /**
   * The seven statements of a transfer in the order they run: the transfer
   * insert, the two entry inserts, then a lock and an update for each
   * account in lock order. Only a lock reads a row that may be missing.
   */
  function TransferReads(accounts: map<AccountId, Account>, arg: TransferTxParams): (missing: seq<bool>)
    ensures |missing| == TransferStatements
  {
    [false, false, false, LockOrder(arg)[0] !in accounts, false, LockOrder(arg)[1] !in accounts, false]
  }

  /** The failure a transfer's unit of work reports, its statements starting at ordinal `at`. */
  function TransferFailure(faults: map<nat, DbError>, at: nat, accounts: map<AccountId, Account>, arg: TransferTxParams)
    : Option<DbError>
  {
    FirstFailure(faults, at, TransferReads(accounts, arg))
  }

  /** How the two entry inserts at ordinals `at` and `at + 1` fail. */
  function EntryFailure(faults: map<nat, DbError>, at: nat): Option<DbError>
  {
    FirstOf(StatementFailure(faults, at, false), StatementFailure(faults, at + 1, false))
  }

  /** How a lock of account `id` at ordinal `at` and its update after it fail. */
  function BalanceFailure(faults: map<nat, DbError>, at: nat, accounts: map<AccountId, Account>, id: AccountId): Option<DbError>
  {
    FirstOf(StatementFailure(faults, at, id !in accounts), StatementFailure(faults, at + 1, false))
  }

  /** How the two balance updates of a transfer, in lock order from ordinal `at`, fail. */
  function UpdatesFailure(faults: map<nat, DbError>, at: nat, accounts: map<AccountId, Account>, arg: TransferTxParams)
    : Option<DbError>
  {
    FirstOf(BalanceFailure(faults, at, accounts, LockOrder(arg)[0]), BalanceFailure(faults, at + 2, accounts, LockOrder(arg)[1]))
  }

  /** The transfer's failure, composed step by step as the unit of work runs, is the first failure among its seven statements. */
  lemma TransferFailureStepwise(faults: map<nat, DbError>, at: nat, accounts: map<AccountId, Account>, arg: TransferTxParams)
    ensures TransferFailure(faults, at, accounts, arg) ==
      FirstOf(StatementFailure(faults, at, false),
              FirstOf(EntryFailure(faults, at + 1), UpdatesFailure(faults, at + 3, accounts, arg)))
  {
    var missing := TransferReads(accounts, arg);
    assert missing[0..] == missing;
    assert missing[7..] == [];
    FirstFailureSuffix(faults, at, missing, 0);
    FirstFailureSuffix(faults, at, missing, 1);
    FirstFailureSuffix(faults, at, missing, 2);
    FirstFailureSuffix(faults, at, missing, 3);
    FirstFailureSuffix(faults, at, missing, 4);
    FirstFailureSuffix(faults, at, missing, 5);
    FirstFailureSuffix(faults, at, missing, 6);
  }

  /** `makeTransfer`: inserts the transfer record with the caller's from, to and amount. */
  function MakeTransfer(tx: Tx, fromId: AccountId, toId: AccountId, amount: int): (s: Step<Transfer>)
    ensures s.tx.issued == tx.issued + 1 && s.tx.faults == tx.faults && s.tx.locks == tx.locks
    ensures s.Done? <==> tx.issued !in tx.faults
    ensures s.Failed? ==> Some(s.err) == StatementFailure(tx.faults, tx.issued, false)
    ensures s.Done? ==>
      && s.value == Transfer(tx.ledger.nextTransferId, fromId, toId, amount)
      && s.tx.ledger == tx.ledger.(transfers := tx.ledger.transfers + [s.value],
                                  nextTransferId := tx.ledger.nextTransferId + 1)
  {
    CreateTransfer(tx, CreateTransferParams(fromId, toId, amount))
  }

  /** `makeEntry`: inserts the debit entry of the from account, then the credit entry of the to account. */
  function MakeEntry(tx: Tx, fromId: AccountId, toId: AccountId, amount: int): (s: Step<(Entry, Entry)>)
    ensures s.tx.faults == tx.faults && s.tx.locks == tx.locks
    ensures s.Done? <==> tx.issued !in tx.faults && tx.issued + 1 !in tx.faults
    ensures s.Failed? ==> Some(s.err) == EntryFailure(tx.faults, tx.issued)
    ensures s.Done? ==>
      && s.tx.issued == tx.issued + 2
      && s.value.0 == Entry(tx.ledger.nextEntryId, fromId, -amount)
      && s.value.1 == Entry(tx.ledger.nextEntryId + 1, toId, amount)
      && s.value.0.amount + s.value.1.amount == 0
      && s.tx.ledger == tx.ledger.(entries := tx.ledger.entries + [s.value.0, s.value.1],
                                  nextEntryId := tx.ledger.nextEntryId + 2)
  {
    match CreateEntry(tx, CreateEntryParams(fromId, amount * -1))
    case Failed(e, t) => Failed(e, t)
    case Done(fromEntry, t1) =>
      match CreateEntry(t1, CreateEntryParams(toId, amount))
      case Failed(e, t) => Failed(e, t)
      case Done(toEntry, t2) => Done((fromEntry, toEntry), t2)
  }

  /**
   * `updateAccountBalance`: locks the account row, re-reads its balance under
   * the lock and writes back that balance plus `delta`. No other account
   * changes.
   */
  function UpdateAccountBalance(tx: Tx, id: AccountId, delta: int): (s: Step<Account>)
    ensures s.tx.faults == tx.faults && s.tx.ledger.entries == tx.ledger.entries
    ensures s.tx.locks == tx.locks || s.tx.locks == tx.locks + [id]
    ensures s.Done? <==> tx.issued !in tx.faults && tx.issued + 1 !in tx.faults && id in tx.ledger.accounts
    ensures s.Failed? ==> Some(s.err) == BalanceFailure(tx.faults, tx.issued, tx.ledger.accounts, id)
    ensures s.Done? ==>
      && s.tx.issued == tx.issued + 2
      && s.tx.locks == tx.locks + [id]
      && s.value == tx.ledger.accounts[id].(balance := tx.ledger.accounts[id].balance + delta)
      && s.tx.ledger == tx.ledger.(accounts := tx.ledger.accounts[id := s.value])
    ensures s.Done? ==> forall k :: k != id ==>
      (k in s.tx.ledger.accounts <==> k in tx.ledger.accounts) &&
      (k in tx.ledger.accounts ==> s.tx.ledger.accounts[k] == tx.ledger.accounts[k])
  {
    match GetAccountForUpdate(tx, id)
    case Failed(e, t) => Failed(e, t)
    case Done(account, t) =>
      UpdateAccount(t, UpdateAccountParams(id, account.balance + delta))
  }

  /** The lock (and update) order of the two accounts: the from account first exactly when its id is lower. */
  function LockOrder(arg: TransferTxParams): seq<AccountId>
  {
    if arg.fromAccountId < arg.toAccountId then [arg.fromAccountId, arg.toAccountId]
    else [arg.toAccountId, arg.fromAccountId]
  }

  /** The net change a transfer makes to the balance of account `k`. */
  function NetDelta(k: AccountId, arg: TransferTxParams): int
  {
    (if k == arg.toAccountId then arg.amount else 0) - (if k == arg.fromAccountId then arg.amount else 0)
  }

  /** Every account moved by its net delta. */
  function PostedAccounts(accounts: map<AccountId, Account>, arg: TransferTxParams): map<AccountId, Account>
  {
    map k | k in accounts :: accounts[k].(balance := accounts[k].balance + NetDelta(k, arg))
  }

  /** The account map after adding `delta` to the balance of account `id`. */
  function Credit(accounts: map<AccountId, Account>, id: AccountId, delta: int): map<AccountId, Account>
    requires id in accounts
  {
    accounts[id := accounts[id].(balance := accounts[id].balance + delta)]
  }

  /** Applying the debit and the credit one after the other, in either order, gives the net effect. */
  lemma SequentialUpdatesArePosted(accounts: map<AccountId, Account>, arg: TransferTxParams)
    requires arg.fromAccountId in accounts && arg.toAccountId in accounts
    ensures Credit(Credit(accounts, arg.fromAccountId, arg.amount * -1), arg.toAccountId, arg.amount)
         == PostedAccounts(accounts, arg)
    ensures Credit(Credit(accounts, arg.toAccountId, arg.amount), arg.fromAccountId, arg.amount * -1)
         == PostedAccounts(accounts, arg)
  {
  }

  /**
   * The tables after a committed transfer, stated as one net effect rather
   * than as the engine's sequence of statements: every account moves by its
   * net delta, and one transfer row and two entry rows are appended.
   */
  function Posted(l: Ledger, arg: TransferTxParams): Ledger
  {
    Ledger(
      PostedAccounts(l.accounts, arg),
      l.entries + [Entry(l.nextEntryId, arg.fromAccountId, -arg.amount),
                   Entry(l.nextEntryId + 1, arg.toAccountId, arg.amount)],
      l.transfers + [Transfer(l.nextTransferId, arg.fromAccountId, arg.toAccountId, arg.amount)],
      l.nextEntryId + 2,
      l.nextTransferId + 1)
  }

  /** None of the `n` statements starting at `from` has an injected failure. */
  predicate FaultFree(faults: map<nat, DbError>, from: nat, n: nat)
    decreases n
  {
    n == 0 || (from !in faults && FaultFree(faults, from + 1, n - 1))
  }

  /** Four fault-free statements, one by one. */
  lemma FaultFreeFour(faults: map<nat, DbError>, from: nat)
    ensures FaultFree(faults, from, 4) <==>
      from !in faults && from + 1 !in faults && from + 2 !in faults && from + 3 !in faults
  {
  }

  /** Two `updateAccountBalance` calls in a row: account `a` by `da`, then account `b` by `db`. */
  function UpdateTwo(tx: Tx, a: AccountId, da: int, b: AccountId, db: int): (s: Step<(Account, Account)>)
    ensures s.tx.faults == tx.faults
    ensures s.tx.ledger.entries == tx.ledger.entries && s.tx.ledger.transfers == tx.ledger.transfers
    ensures s.tx.ledger.nextEntryId == tx.ledger.nextEntryId
    ensures s.tx.ledger.nextTransferId == tx.ledger.nextTransferId
    ensures s.tx.locks == tx.locks || s.tx.locks == tx.locks + [a] || s.tx.locks == tx.locks + [a, b]
    ensures s.Done? <==>
      && tx.issued !in tx.faults && tx.issued + 1 !in tx.faults
      && tx.issued + 2 !in tx.faults && tx.issued + 3 !in tx.faults
      && a in tx.ledger.accounts && b in tx.ledger.accounts
    ensures s.Done? ==>
      && s.tx.locks == tx.locks + [a, b]
      && s.tx.ledger.accounts == Credit(Credit(tx.ledger.accounts, a, da), b, db)
      && s.value.0 == Credit(tx.ledger.accounts, a, da)[a]
      && s.value.1 == s.tx.ledger.accounts[b]
  {
    match UpdateAccountBalance(tx, a, da)
    case Failed(e, t) => Failed(e, t)
    case Done(first, t1) =>
      match UpdateAccountBalance(t1, b, db)
      case Failed(e, t) => Failed(e, t)
      case Done(second, t2) => Done((first, second), t2)
  }

  /** The `from < to` branch: the from account is debited first, then the to account credited. */
  function DebitFirst(tx: Tx, arg: TransferTxParams): (s: Step<(Account, Account)>)
    requires arg.fromAccountId < arg.toAccountId
    ensures s.tx.faults == tx.faults
    ensures s.tx.ledger.entries == tx.ledger.entries && s.tx.ledger.transfers == tx.ledger.transfers
    ensures s.tx.ledger.nextEntryId == tx.ledger.nextEntryId
    ensures s.tx.ledger.nextTransferId == tx.ledger.nextTransferId
    ensures s.tx.locks <= tx.locks + LockOrder(arg)
    ensures s.Done? <==>
      && FaultFree(tx.faults, tx.issued, 4)
      && arg.fromAccountId in tx.ledger.accounts && arg.toAccountId in tx.ledger.accounts
    ensures s.Done? ==>
      && s.tx.locks == tx.locks + LockOrder(arg)
      && s.tx.ledger.accounts == PostedAccounts(tx.ledger.accounts, arg)
      && s.value.0 == s.tx.ledger.accounts[arg.fromAccountId]
      && s.value.1 == s.tx.ledger.accounts[arg.toAccountId]
  {
    var s := UpdateTwo(tx, arg.fromAccountId, arg.amount * -1, arg.toAccountId, arg.amount);
    FaultFreeFour(tx.faults, tx.issued);
    assert tx.locks + [arg.fromAccountId] <= tx.locks + LockOrder(arg);
    if s.Done? then
      SequentialUpdatesArePosted(tx.ledger.accounts, arg);
      s
    else s
  }

  /** The `from >= to` branch: the to account is credited first, then the from account debited. */
  function CreditFirst(tx: Tx, arg: TransferTxParams): (s: Step<(Account, Account)>)
    requires arg.fromAccountId >= arg.toAccountId
    ensures s.tx.faults == tx.faults
    ensures s.tx.ledger.entries == tx.ledger.entries && s.tx.ledger.transfers == tx.ledger.transfers
    ensures s.tx.ledger.nextEntryId == tx.ledger.nextEntryId
    ensures s.tx.ledger.nextTransferId == tx.ledger.nextTransferId
    ensures s.tx.locks <= tx.locks + LockOrder(arg)
    ensures s.Done? <==>
      && FaultFree(tx.faults, tx.issued, 4)
      && arg.fromAccountId in tx.ledger.accounts && arg.toAccountId in tx.ledger.accounts
    ensures s.Done? ==>
      && s.tx.locks == tx.locks + LockOrder(arg)
      && s.tx.ledger.accounts == PostedAccounts(tx.ledger.accounts, arg)
      && s.value.0 == s.tx.ledger.accounts[arg.fromAccountId]
      && (arg.fromAccountId != arg.toAccountId ==> s.value.1 == s.tx.ledger.accounts[arg.toAccountId])
      && (arg.fromAccountId == arg.toAccountId ==>
            s.value.1.balance == tx.ledger.accounts[arg.toAccountId].balance + arg.amount)
  {
    var s := UpdateTwo(tx, arg.toAccountId, arg.amount, arg.fromAccountId, arg.amount * -1);
    FaultFreeFour(tx.faults, tx.issued);
    assert tx.locks + [arg.toAccountId] <= tx.locks + LockOrder(arg);
    match s
    case Failed(_, _) => s
    case Done(accounts, t) =>
      SequentialUpdatesArePosted(tx.ledger.accounts, arg);
      Done((accounts.1, accounts.0), t)
  }

  /**
   * The two balance updates of a transfer in lock order: the from account
   * first when its id is the lower one, the to account first otherwise.
   * Returns the from account and the to account as each update left them.
   */
  function UpdateBalances(tx: Tx, arg: TransferTxParams): (s: Step<(Account, Account)>)
    ensures s.tx.faults == tx.faults
    ensures s.tx.ledger.entries == tx.ledger.entries && s.tx.ledger.transfers == tx.ledger.transfers
    ensures s.tx.ledger.nextEntryId == tx.ledger.nextEntryId
    ensures s.tx.ledger.nextTransferId == tx.ledger.nextTransferId
    ensures s.tx.locks <= tx.locks + LockOrder(arg)
    ensures s.Done? <==>
      && FaultFree(tx.faults, tx.issued, 4)
      && arg.fromAccountId in tx.ledger.accounts && arg.toAccountId in tx.ledger.accounts
    ensures s.Done? ==>
      && s.tx.locks == tx.locks + LockOrder(arg)
      && s.tx.ledger.accounts == PostedAccounts(tx.ledger.accounts, arg)
      && s.value.0 == s.tx.ledger.accounts[arg.fromAccountId]
      && (arg.fromAccountId != arg.toAccountId ==> s.value.1 == s.tx.ledger.accounts[arg.toAccountId])
      && (arg.fromAccountId == arg.toAccountId ==>
            s.value.1.balance == tx.ledger.accounts[arg.toAccountId].balance + arg.amount)
  {
    if arg.fromAccountId < arg.toAccountId then DebitFirst(tx, arg) else CreditFirst(tx, arg)
  }

  /** The statements after the transfer record: the two entries, then the two balance updates. */
  function EntriesThenBalances(tx: Tx, arg: TransferTxParams): (s: Step<(Entry, Entry, Account, Account)>)
    ensures s.tx.locks <= tx.locks + LockOrder(arg)
    ensures s.Done? <==>
      && FaultFree(tx.faults, tx.issued, TransferStatements - 1)
      && arg.fromAccountId in tx.ledger.accounts && arg.toAccountId in tx.ledger.accounts
    ensures s.Done? ==>
      && s.tx.locks == tx.locks + LockOrder(arg)
      && s.value.0 == Entry(tx.ledger.nextEntryId, arg.fromAccountId, -arg.amount)
      && s.value.1 == Entry(tx.ledger.nextEntryId + 1, arg.toAccountId, arg.amount)
      && s.tx.ledger == tx.ledger.(accounts := PostedAccounts(tx.ledger.accounts, arg),
                                  entries := tx.ledger.entries + [s.value.0, s.value.1],
                                  nextEntryId := tx.ledger.nextEntryId + 2)
      && s.value.2 == s.tx.ledger.accounts[arg.fromAccountId]
      && (arg.fromAccountId != arg.toAccountId ==> s.value.3 == s.tx.ledger.accounts[arg.toAccountId])
      && (arg.fromAccountId == arg.toAccountId ==>
            s.value.3.balance == tx.ledger.accounts[arg.toAccountId].balance + arg.amount)
  {
    match MakeEntry(tx, arg.fromAccountId, arg.toAccountId, arg.amount)
    case Failed(e, t) => Failed(e, t)
    case Done(entries, t2) =>
      match UpdateBalances(t2, arg)
      case Failed(e, t) => Failed(e, t)
      case Done(accounts, t3) => Done((entries.0, entries.1, accounts.0, accounts.1), t3)
  }

  /** The unit of work `TransferTx` hands to `ExecTx`. */
  function TransferUnit(tx: Tx, arg: TransferTxParams): (s: Step<TransferTxResult>)
    ensures s.tx.locks <= tx.locks + LockOrder(arg)
    ensures s.Done? <==>
      && FaultFree(tx.faults, tx.issued, TransferStatements)
      && arg.fromAccountId in tx.ledger.accounts && arg.toAccountId in tx.ledger.accounts
    ensures s.Done? ==>
      && s.tx.locks == tx.locks + LockOrder(arg)
      && s.tx.ledger == Posted(tx.ledger, arg)
      && s.value.transfer == Transfer(tx.ledger.nextTransferId, arg.fromAccountId, arg.toAccountId, arg.amount)
      && s.value.fromEntry == Entry(tx.ledger.nextEntryId, arg.fromAccountId, -arg.amount)
      && s.value.toEntry == Entry(tx.ledger.nextEntryId + 1, arg.toAccountId, arg.amount)
      && s.value.fromAccount == s.tx.ledger.accounts[arg.fromAccountId]
      && (arg.fromAccountId != arg.toAccountId ==> s.value.toAccount == s.tx.ledger.accounts[arg.toAccountId])
      && (arg.fromAccountId == arg.toAccountId ==>
            s.value.toAccount.balance == tx.ledger.accounts[arg.toAccountId].balance + arg.amount)
  {
    match MakeTransfer(tx, arg.fromAccountId, arg.toAccountId, arg.amount)
    case Failed(e, t) => Failed(e, t)
    case Done(transfer, t1) =>
      match EntriesThenBalances(t1, arg)
      case Failed(e, t) => Failed(e, t)
      case Done(rest, t3) => Done(TransferTxResult(transfer, rest.2, rest.3, rest.0, rest.1), t3)
  }

  /** Two balance updates in a row fail as the first of them that fails. */
  lemma UpdateTwoCause(tx: Tx, a: AccountId, da: int, b: AccountId, db: int)
    ensures var s := UpdateTwo(tx, a, da, b, db);
      s.Failed? ==>
        Some(s.err) == FirstOf(BalanceFailure(tx.faults, tx.issued, tx.ledger.accounts, a),
                               BalanceFailure(tx.faults, tx.issued + 2, tx.ledger.accounts, b))
  {
    var u := UpdateAccountBalance(tx, a, da);
    if u.Failed? {
      assert UpdateTwo(tx, a, da, b, db) == Failed(u.err, u.tx);
    } else {
      assert b in u.tx.ledger.accounts <==> b in tx.ledger.accounts;
      var v := UpdateAccountBalance(u.tx, b, db);
      if v.Failed? {
        assert UpdateTwo(tx, a, da, b, db) == Failed(v.err, v.tx);
      }
    }
  }

  /** The two balance updates of a transfer, in lock order, fail as the first of them that fails. */
  lemma UpdateBalancesCause(tx: Tx, arg: TransferTxParams)
    ensures var s := UpdateBalances(tx, arg);
      s.Failed? ==> Some(s.err) == UpdatesFailure(tx.faults, tx.issued, tx.ledger.accounts, arg)
  {
    if arg.fromAccountId < arg.toAccountId {
      UpdateTwoCause(tx, arg.fromAccountId, arg.amount * -1, arg.toAccountId, arg.amount);
    } else {
      UpdateTwoCause(tx, arg.toAccountId, arg.amount, arg.fromAccountId, arg.amount * -1);
    }
  }

  /** The entries and then the balance updates fail as the first of their statements that fails. */
  lemma EntriesThenBalancesCause(tx: Tx, arg: TransferTxParams)
    ensures var s := EntriesThenBalances(tx, arg);
      s.Failed? ==>
        Some(s.err) == FirstOf(EntryFailure(tx.faults, tx.issued), UpdatesFailure(tx.faults, tx.issued + 2, tx.ledger.accounts, arg))
  {
    var m := MakeEntry(tx, arg.fromAccountId, arg.toAccountId, arg.amount);
    if m.Failed? {
      assert EntriesThenBalances(tx, arg) == Failed(m.err, m.tx);
    } else {
      assert m.tx.ledger.accounts == tx.ledger.accounts;
      var u := UpdateBalances(m.tx, arg);
      UpdateBalancesCause(m.tx, arg);
      if u.Failed? {
        assert EntriesThenBalances(tx, arg) == Failed(u.err, u.tx);
      }
    }
  }

  /** With no injected fault among the seven statements and both accounts present, no statement of a transfer fails. */
  lemma NoFailureWithoutFault(faults: map<nat, DbError>, at: nat, accounts: map<AccountId, Account>, arg: TransferTxParams)
    requires FaultFree(faults, at, TransferStatements)
    requires arg.fromAccountId in accounts && arg.toAccountId in accounts
    ensures TransferFailure(faults, at, accounts, arg).None?
  {
    var missing := TransferReads(accounts, arg);
    forall k | 0 <= k < |missing|
      ensures StatementFailure(faults, at + k, missing[k]).None?
    {
      FaultFreeAt(faults, at, TransferStatements, k);
    }
  }

  /** A fault-free run of `n` statements has no fault at any of its ordinals. */
  lemma {:induction false} FaultFreeAt(faults: map<nat, DbError>, from: nat, n: nat, k: nat)
    requires FaultFree(faults, from, n)
    requires k < n
    ensures from + k !in faults
    decreases n
  {
    if k > 0 {
      FaultFreeAt(faults, from + 1, n - 1, k - 1);
    }
  }

  /**
   * A failed transfer unit reports the error of its first failing statement:
   * the injected fault there, or no rows for a lock on a missing account. A
   * unit that completes has no failing statement.
   */
  lemma TransferUnitCause(tx: Tx, arg: TransferTxParams)
    ensures var s := TransferUnit(tx, arg);
      && (s.Failed? ==> Some(s.err) == TransferFailure(tx.faults, tx.issued, tx.ledger.accounts, arg))
      && (s.Done? ==> TransferFailure(tx.faults, tx.issued, tx.ledger.accounts, arg).None?)
  {
    if TransferUnit(tx, arg).Done? {
      NoFailureWithoutFault(tx.faults, tx.issued, tx.ledger.accounts, arg);
    } else {
      TransferFailureStepwise(tx.faults, tx.issued, tx.ledger.accounts, arg);
      var m := MakeTransfer(tx, arg.fromAccountId, arg.toAccountId, arg.amount);
      if m.Failed? {
        assert TransferUnit(tx, arg) == Failed(m.err, m.tx);
      } else {
        assert m.tx.ledger.accounts == tx.ledger.accounts;
        EntriesThenBalancesCause(m.tx, arg);
        var e := EntriesThenBalances(m.tx, arg);
        assert TransferUnit(tx, arg) == Failed(e.err, e.tx);
      }
    }
  }

  /** Whether an attempt commits: BEGIN and COMMIT succeed, none of the seven statements fails, both accounts exist. */
  predicate Commits(db: Ledger, env: TxEnv, arg: TransferTxParams)
  {
    && env.beginErr.None?
    && env.commitErr.None?
    && FaultFree(env.faults, 0, TransferStatements)
    && arg.fromAccountId in db.accounts
    && arg.toAccountId in db.accounts
  }

  /**
   * `TransferTx`: the transfer unit of work run by the commit-or-rollback
   * runner. All or nothing: a failed attempt leaves the tables exactly as they
   * were; a committed one debits the from account, credits the to account,
   * and appends one transfer record and two entries that cancel out. Rows are
   * locked lower id first.
   */
  function TransferTx(db: Ledger, env: TxEnv, arg: TransferTxParams): (r: TxOutcome<TransferTxResult>)
    ensures r.result.Err? ==> r.ledger == db
    ensures r.result.Ok? <==> Commits(db, env, arg)
    ensures r.locks <= LockOrder(arg)
    ensures env.beginErr.Some? ==> r.result == Err(Raw(env.beginErr.value)) && r.locks == []
    ensures r.result.Err? && env.beginErr.None? ==>
      || (r.result.error.Wrapped? && r.result.error.rollback == env.rollbackErr)
      || (env.commitErr.Some? && r.result.error == Raw(env.commitErr.value) && r.locks == LockOrder(arg))
    ensures r.result.Ok? ==>
      var res := r.result.value;
      && r.locks == LockOrder(arg)
      && r.ledger == Posted(db, arg)
      && res.transfer == Transfer(db.nextTransferId, arg.fromAccountId, arg.toAccountId, arg.amount)
      && res.fromEntry == Entry(db.nextEntryId, arg.fromAccountId, -arg.amount)
      && res.toEntry == Entry(db.nextEntryId + 1, arg.toAccountId, arg.amount)
      && res.fromEntry.amount + res.toEntry.amount == 0
      && r.ledger.entries == db.entries + [res.fromEntry, res.toEntry]
      && r.ledger.transfers == db.transfers + [res.transfer]
      && res.fromAccount == r.ledger.accounts[arg.fromAccountId]
    ensures r.result.Ok? && arg.fromAccountId != arg.toAccountId ==>
      && r.result.value.toAccount == r.ledger.accounts[arg.toAccountId]
      && r.ledger.accounts[arg.fromAccountId].balance == db.accounts[arg.fromAccountId].balance - arg.amount
      && r.ledger.accounts[arg.toAccountId].balance == db.accounts[arg.toAccountId].balance + arg.amount
  {
    ExecTx(db, env, tx => TransferUnit(tx, arg))
  }

  /**
   * The error of a failed attempt, once BEGIN succeeds: "transaction error: "
   * around the error of the first failing statement, with the ROLLBACK error;
   * when no statement fails, the COMMIT error as it is.
   */
  lemma TransferTxCause(db: Ledger, env: TxEnv, arg: TransferTxParams)
    requires env.beginErr.None?
    ensures TransferFailure(env.faults, 0, db.accounts, arg).Some? ==>
      TransferTx(db, env, arg).result == Err(Wrapped(TransferFailure(env.faults, 0, db.accounts, arg).value, env.rollbackErr))
    ensures TransferFailure(env.faults, 0, db.accounts, arg).None? && env.commitErr.Some? ==>
      TransferTx(db, env, arg).result == Err(Raw(env.commitErr.value))
  {
    TransferUnitCause(Begin(db, env), arg);
  }

  /** With no injected fault, a transfer with a missing account fails at the lock of that account, with no rows. */
  lemma MissingAccountFailure(faults: map<nat, DbError>, accounts: map<AccountId, Account>, arg: TransferTxParams)
    requires FaultFree(faults, 0, TransferStatements)
    requires arg.fromAccountId !in accounts || arg.toAccountId !in accounts
    ensures TransferFailure(faults, 0, accounts, arg) == Some(ErrNoRows)
  {
    var missing := TransferReads(accounts, arg);
    forall j | 0 <= j < TransferStatements
      ensures j !in faults
    {
      FaultFreeAt(faults, 0, TransferStatements, j);
    }
    if LockOrder(arg)[0] !in accounts {
      FirstFailureAt(faults, 0, missing, 3);
    } else {
      FirstFailureAt(faults, 0, missing, 5);
    }
  }

  /**
   * When the statements before it succeed, a transfer with a missing account
   * reports the wrapped no-rows error.
   */
  lemma MissingAccountReportsNoRows(db: Ledger, env: TxEnv, arg: TransferTxParams)
    requires env.beginErr.None?
    requires FaultFree(env.faults, 0, TransferStatements)
    requires arg.fromAccountId !in db.accounts || arg.toAccountId !in db.accounts
    ensures TransferTx(db, env, arg).result == Err(Wrapped(ErrNoRows, env.rollbackErr))
    ensures env.rollbackErr.None? ==>
      TransferTx(db, env, arg).result.error.Message() == "transaction error: sql: no rows in result set"
  {
    MissingAccountFailure(env.faults, db.accounts, arg);
    TransferTxCause(db, env, arg);
    NoRowsMessage();
  }

  /** The message of a wrapped no-rows error without a ROLLBACK error. */
  lemma NoRowsMessage()
    ensures Wrapped(ErrNoRows, None).Message() == "transaction error: sql: no rows in result set"
  {
  }

  /** Between existing accounts, the transfer fails as the first statement with an injected fault. */
  lemma FirstFaultFailure(faults: map<nat, DbError>, accounts: map<AccountId, Account>, arg: TransferTxParams, k: nat)
    requires arg.fromAccountId in accounts && arg.toAccountId in accounts
    requires k < TransferStatements && k in faults
    requires forall j :: 0 <= j < k ==> j !in faults
    ensures TransferFailure(faults, 0, accounts, arg) == Some(faults[k])
  {
    var missing := TransferReads(accounts, arg);
    assert forall j :: 0 <= j < |missing| ==> !missing[j];
    FirstFailureAt(faults, 0, missing, k);
  }

  /**
   * Between existing accounts, the first of the seven statements with an
   * injected fault decides the error: the attempt reports that fault, wrapped.
   */
  lemma FirstFaultIsCause(db: Ledger, env: TxEnv, arg: TransferTxParams, k: nat)
    requires env.beginErr.None?
    requires arg.fromAccountId in db.accounts && arg.toAccountId in db.accounts
    requires k < TransferStatements && k in env.faults
    requires forall j :: 0 <= j < k ==> j !in env.faults
    ensures TransferTx(db, env, arg).result == Err(Wrapped(env.faults[k], env.rollbackErr))
  {
    FirstFaultFailure(env.faults, db.accounts, arg, k);
    TransferTxCause(db, env, arg);
  }

  /** Posting a transfer between two existing accounts keeps the tables well formed. */
  lemma PostedPreservesValid(l: Ledger, arg: TransferTxParams)
    requires Valid(l)
    requires arg.fromAccountId in l.accounts && arg.toAccountId in l.accounts
    ensures Valid(Posted(l, arg))
  {
  }

  /** Every attempt, committed or not, keeps the tables well formed: fresh increasing ids, rows on existing accounts. */
  lemma TransferTxPreservesValid(db: Ledger, env: TxEnv, arg: TransferTxParams)
    requires Valid(db)
    ensures Valid(TransferTx(db, env, arg).ledger)
  {
    if Commits(db, env, arg) {
      PostedPreservesValid(db, arg);
    }
  }

  /** After a commit on a well-formed ledger, the new transfer and both entries can be read back by id. */
  lemma CommittedRecordsRetrievable(db: Ledger, env: TxEnv, arg: TransferTxParams)
    requires Valid(db)
    requires Commits(db, env, arg)
    ensures var r := TransferTx(db, env, arg);
      && GetTransfer(r.ledger, r.result.value.transfer.id) == Ok(r.result.value.transfer)
      && GetEntry(r.ledger, r.result.value.fromEntry.id) == Ok(r.result.value.fromEntry)
      && GetEntry(r.ledger, r.result.value.toEntry.id) == Ok(r.result.value.toEntry)
  {
    var r := TransferTx(db, env, arg);
    TransferTxPreservesValid(db, env, arg);
    TransferRetrievable(r.ledger, |db.transfers|);
    EntryRetrievable(r.ledger, |db.entries|);
    EntryRetrievable(r.ledger, |db.entries| + 1);
  }

  /** The single-transfer scenario: X at 1000 and Y at 500 in ILS, X sends 200 to Y. */
  lemma TransferScenario(db: Ledger, x: Account, y: Account)
    requires x.id in db.accounts && db.accounts[x.id] == x && x.balance == 1000
    requires y.id in db.accounts && db.accounts[y.id] == y && y.balance == 500
    requires x.id != y.id
    ensures var r := TransferTx(db, Healthy, TransferTxParams(x.id, y.id, 200));
      && r.result.Ok?
      && r.result.value.fromAccount.balance == 800
      && r.result.value.toAccount.balance == 700
      && r.result.value.fromEntry.amount == -200
      && r.result.value.toEntry.amount == 200
      && r.result.value.transfer.amount == 200
  {
  }

  /** The ledger after `n` applications of `step`, starting from `l`. */
  function Repeat(step: Ledger -> Ledger, l: Ledger, n: nat): Ledger
    decreases n
  {
    if n == 0 then l else Repeat(step, step(l), n - 1)
  }

  /** One transfer on a database where nothing fails, as a step on ledgers. */
  function HealthyStep(arg: TransferTxParams): Ledger -> Ledger
  {
    l => TransferTx(l, Healthy, arg).ledger
  }

  /** One posting of a transfer, as a step on ledgers. */
  function PostingStep(arg: TransferTxParams): Ledger -> Ledger
  {
    l => Posted(l, arg)
  }

  /** The tables after `n` transfers of the same parameters, each on a database where nothing fails. */
  function TransferTimes(db: Ledger, arg: TransferTxParams, n: nat): Ledger
  {
    Repeat(HealthyStep(arg), db, n)
  }

  /** `n` postings of the same transfer, as a reference for `TransferTimes`. */
  function PostedTimes(l: Ledger, arg: TransferTxParams, n: nat): Ledger
  {
    Repeat(PostingStep(arg), l, n)
  }

  /** Whether both accounts of a transfer exist in `l`. */
  predicate HasBoth(l: Ledger, arg: TransferTxParams)
  {
    arg.fromAccountId in l.accounts && arg.toAccountId in l.accounts
  }

  /** On a database where nothing fails, a transfer between existing accounts commits. */
  lemma HealthyTransferCommits(db: Ledger, arg: TransferTxParams)
    requires arg.fromAccountId in db.accounts && arg.toAccountId in db.accounts
    ensures TransferTx(db, Healthy, arg).result.Ok?
    ensures TransferTx(db, Healthy, arg).ledger == Posted(db, arg)
  {
    assert Commits(db, Healthy, arg);
  }

  /** The net effect of one transfer between two distinct accounts, account by account. */
  lemma PostedBalances(l: Ledger, arg: TransferTxParams)
    requires arg.fromAccountId in l.accounts && arg.toAccountId in l.accounts
    requires arg.fromAccountId != arg.toAccountId
    ensures var p := Posted(l, arg);
      && p.accounts.Keys == l.accounts.Keys
      && p.accounts[arg.fromAccountId].balance == l.accounts[arg.fromAccountId].balance - arg.amount
      && p.accounts[arg.toAccountId].balance == l.accounts[arg.toAccountId].balance + arg.amount
      && (forall k :: k in l.accounts && k != arg.fromAccountId && k != arg.toAccountId ==>
            p.accounts[k] == l.accounts[k])
      && |p.transfers| == |l.transfers| + 1
      && |p.entries| == |l.entries| + 2
  {
  }

  /**
   * What `n` transfers of `amount` from X to Y leave behind in `l`, compared
   * with `db`: X lower by `n * amount`, Y higher by `n * amount`, every other
   * account as it was, `n` more transfer records and `2 * n` more entries.
   */
  ghost predicate AfterRepeats(db: Ledger, l: Ledger, arg: TransferTxParams, n: nat)
    requires arg.fromAccountId in db.accounts && arg.toAccountId in db.accounts
  {
    && l.accounts.Keys == db.accounts.Keys
    && l.accounts[arg.fromAccountId].balance == db.accounts[arg.fromAccountId].balance - n * arg.amount
    && l.accounts[arg.toAccountId].balance == db.accounts[arg.toAccountId].balance + n * arg.amount
    && (forall k :: k in db.accounts && k != arg.fromAccountId && k != arg.toAccountId ==>
          l.accounts[k] == db.accounts[k])
    && |l.transfers| == |db.transfers| + n
    && |l.entries| == |db.entries| + 2 * n
  }

  /**
   * Two steps that agree on every ledger holding both accounts, where the
   * second keeps the set of accounts, agree on any number of repetitions.
   */
  lemma {:induction false} RepeatAgrees(f: Ledger -> Ledger, g: Ledger -> Ledger, l: Ledger, arg: TransferTxParams, n: nat)
    requires HasBoth(l, arg)
    requires forall x :: HasBoth(x, arg) ==> f(x) == g(x)
    requires forall x :: g(x).accounts.Keys == x.accounts.Keys
    ensures Repeat(f, l, n) == Repeat(g, l, n)
    decreases n
  {
    if n > 0 {
      RepeatAgrees(f, g, g(l), arg, n - 1);
    }
  }

  /** On every database holding both accounts, a healthy transfer posts it. */
  lemma HealthyTransfersPost(arg: TransferTxParams)
    ensures forall x {:trigger TransferTx(x, Healthy, arg)} :: HasBoth(x, arg) ==>
      TransferTx(x, Healthy, arg).ledger == Posted(x, arg)
  {
  }

  /** Posting never changes the set of accounts. */
  lemma PostingKeepsAccounts(arg: TransferTxParams)
    ensures forall x {:trigger Posted(x, arg)} :: Posted(x, arg).accounts.Keys == x.accounts.Keys
  {
  }

  /** On a healthy database, running the transfer `n` times posts it `n` times. */
  lemma TransferTimesArePosted(db: Ledger, arg: TransferTxParams, n: nat)
    requires HasBoth(db, arg)
    ensures TransferTimes(db, arg, n) == PostedTimes(db, arg, n)
  {
    HealthyTransfersPost(arg);
    PostingKeepsAccounts(arg);
    RepeatAgrees(HealthyStep(arg), PostingStep(arg), db, arg, n);
  }

  /** `n` postings between two distinct accounts add up as `AfterRepeats` says. */
  lemma {:induction false} RepeatedPostings(db: Ledger, arg: TransferTxParams, n: nat)
    requires arg.fromAccountId in db.accounts && arg.toAccountId in db.accounts
    requires arg.fromAccountId != arg.toAccountId
    ensures AfterRepeats(db, PostedTimes(db, arg, n), arg, n)
    decreases n
  {
    if n > 0 {
      var l1 := Posted(db, arg);
      var l := PostedTimes(l1, arg, n - 1);
      PostedBalances(db, arg);
      RepeatedPostings(l1, arg, n - 1);
      RepeatsCompose(db, l1, l, arg, n);
    }
  }

  /** The repeated-transfer law: `n` committed transfers between two distinct accounts add up as `AfterRepeats` says. */
  lemma RepeatedTransfers(db: Ledger, arg: TransferTxParams, n: nat)
    requires arg.fromAccountId in db.accounts && arg.toAccountId in db.accounts
    requires arg.fromAccountId != arg.toAccountId
    ensures AfterRepeats(db, TransferTimes(db, arg, n), arg, n)
  {
    TransferTimesArePosted(db, arg, n);
    RepeatedPostings(db, arg, n);
  }

  /** One transfer followed by `n - 1` more is `n` transfers. */
  lemma RepeatsCompose(db: Ledger, l1: Ledger, l: Ledger, arg: TransferTxParams, n: nat)
    requires n > 0
    requires arg.fromAccountId in db.accounts && arg.toAccountId in db.accounts
    requires arg.fromAccountId in l1.accounts && arg.toAccountId in l1.accounts
    requires AfterRepeats(db, l1, arg, 1)
    requires AfterRepeats(l1, l, arg, n - 1)
    ensures AfterRepeats(db, l, arg, n)
  {
  }

  /** The from account is locked first exactly when its id is the lower one; distinct ids are locked in increasing order. */
  lemma LowerIdLockedFirst(arg: TransferTxParams)
    ensures |LockOrder(arg)| == 2
    ensures LockOrder(arg)[0] == arg.fromAccountId <==>
      arg.fromAccountId < arg.toAccountId || arg.fromAccountId == arg.toAccountId
    ensures arg.fromAccountId != arg.toAccountId ==> LockOrder(arg)[0] < LockOrder(arg)[1]
  {
  }

  /** Whether a lock order takes account `p` before account `q`. */
  predicate LocksBefore(order: seq<AccountId>, p: AccountId, q: AccountId)
  {
    |order| == 2 && order[0] == p && order[1] == q
  }

  /**
   * No circular wait: two transfers that both lock the distinct accounts `p`
   * and `q` take them in the same order, whatever their directions.
   */
  lemma NoCircularWait(a: TransferTxParams, b: TransferTxParams, p: AccountId, q: AccountId)
    requires p != q
    requires LocksBefore(LockOrder(a), p, q)
    ensures !LocksBefore(LockOrder(b), q, p)
  {
  }
}
