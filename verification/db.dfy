/**
 * The ledger state and the single-statement repository queries the transfer
 * engine composes. Each query runs inside a transaction handle `Tx` that
 * counts the statements issued so far, so that a failure can be injected on
 * any chosen statement, and that records every row lock taken.
 */
module Db {
  import opened Wrappers

  type AccountId = int

  datatype Account = Account(id: AccountId, owner: string, balance: int, currency: string)

  /** One signed balance movement: negative is a debit, positive a credit. */
  datatype Entry = Entry(id: int, accountId: AccountId, amount: int)

  /** The record of one transfer of a positive amount between two accounts. */
  datatype Transfer = Transfer(id: int, fromAccountId: AccountId, toAccountId: AccountId, amount: int)

  /** The persisted tables, with the next value of the entry and transfer id sequences. */
  datatype Ledger = Ledger(
    accounts: map<AccountId, Account>,
    entries: seq<Entry>,
    transfers: seq<Transfer>,
    nextEntryId: int,
    nextTransferId: int)

  /** The errors a repository call can return; `PqError` carries the PostgreSQL condition name. */
  datatype DbError =
    | ErrNoRows
    | ErrConnDone
    | ErrTxDone
    | PqError(codeName: string, message: string)
    | Other(message: string)
  {
    function Message(): string
    {
      match this
      case ErrNoRows => "sql: no rows in result set"
      case ErrConnDone => "sql: connection is already closed"
      case ErrTxDone => "sql: transaction has already been committed or rolled back"
      case PqError(_, m) => "pq: " + m
      case Other(m) => m
    }
  }

  /**
   * The well-formedness the tables keep: accounts are keyed by their id, the
   * id sequences run ahead of every stored id and hand out strictly
   * increasing ids, and every entry and transfer references existing accounts.
   */
  ghost predicate Valid(l: Ledger)
  {
    && (forall k :: k in l.accounts ==> l.accounts[k].id == k)
    && (forall i :: 0 <= i < |l.entries| ==> l.entries[i].id < l.nextEntryId)
    && (forall i, j :: 0 <= i < j < |l.entries| ==> l.entries[i].id < l.entries[j].id)
    && (forall i :: 0 <= i < |l.entries| ==> l.entries[i].accountId in l.accounts)
    && (forall i :: 0 <= i < |l.transfers| ==> l.transfers[i].id < l.nextTransferId)
    && (forall i, j :: 0 <= i < j < |l.transfers| ==> l.transfers[i].id < l.transfers[j].id)
    && (forall i :: 0 <= i < |l.transfers| ==>
          l.transfers[i].fromAccountId in l.accounts && l.transfers[i].toAccountId in l.accounts)
  }

  /**
   * A transaction-scoped repository handle: the working copy of the tables,
   * the injected failures keyed by statement ordinal, the number of
   * statements issued so far, and the account rows locked so far, in order.
   */
  datatype Tx = Tx(ledger: Ledger, faults: map<nat, DbError>, issued: nat, locks: seq<AccountId>)

  /** The result of running statements on a handle: a value or an error, and the handle afterwards. */
  datatype Step<+T> = Done(value: T, tx: Tx) | Failed(err: DbError, tx: Tx)

  /** The handle after one more statement has been issued. */
  function Issue(tx: Tx): (t: Tx)
    ensures t.issued == tx.issued + 1
  {
    tx.(issued := tx.issued + 1)
  }

  datatype CreateTransferParams = CreateTransferParams(fromAccountId: AccountId, toAccountId: AccountId, amount: int)
  datatype CreateEntryParams = CreateEntryParams(accountId: AccountId, amount: int)
  datatype UpdateAccountParams = UpdateAccountParams(id: AccountId, balance: int)

  /** INSERT INTO transfers ... RETURNING *: appends a row with the next transfer id. */
  function CreateTransfer(tx: Tx, p: CreateTransferParams): (s: Step<Transfer>)
    ensures s.tx.issued == tx.issued + 1 && s.tx.faults == tx.faults && s.tx.locks == tx.locks
    ensures s.Done? <==> tx.issued !in tx.faults
    ensures s.Failed? ==> s.err == tx.faults[tx.issued]
  {
    if tx.issued in tx.faults then Failed(tx.faults[tx.issued], Issue(tx))
    else
      var l := tx.ledger;
      var t := Transfer(l.nextTransferId, p.fromAccountId, p.toAccountId, p.amount);
      Done(t, Issue(tx).(ledger := l.(transfers := l.transfers + [t], nextTransferId := l.nextTransferId + 1)))
  }

  /** INSERT INTO entries ... RETURNING *: appends a row with the next entry id. */
  function CreateEntry(tx: Tx, p: CreateEntryParams): (s: Step<Entry>)
    ensures s.tx.issued == tx.issued + 1 && s.tx.faults == tx.faults && s.tx.locks == tx.locks
    ensures s.Done? <==> tx.issued !in tx.faults
    ensures s.Failed? ==> s.err == tx.faults[tx.issued]
  {
    if tx.issued in tx.faults then Failed(tx.faults[tx.issued], Issue(tx))
    else
      var l := tx.ledger;
      var e := Entry(l.nextEntryId, p.accountId, p.amount);
      Done(e, Issue(tx).(ledger := l.(entries := l.entries + [e], nextEntryId := l.nextEntryId + 1)))
  }

  /** SELECT ... FOR UPDATE: reads one account row and locks it until the transaction ends. */
  function GetAccountForUpdate(tx: Tx, id: AccountId): (s: Step<Account>)
    ensures s.tx.issued == tx.issued + 1 && s.tx.faults == tx.faults && s.tx.ledger == tx.ledger
    ensures s.Done? <==> tx.issued !in tx.faults && id in tx.ledger.accounts
    ensures s.Done? ==> s.value == tx.ledger.accounts[id] && s.tx.locks == tx.locks + [id]
    ensures s.Failed? ==> s.tx.locks == tx.locks
    ensures s.Failed? ==> s.err == (if tx.issued in tx.faults then tx.faults[tx.issued] else ErrNoRows)
  {
    if tx.issued in tx.faults then Failed(tx.faults[tx.issued], Issue(tx))
    else if id !in tx.ledger.accounts then Failed(ErrNoRows, Issue(tx))
    else Done(tx.ledger.accounts[id], Issue(tx).(locks := tx.locks + [id]))
  }

  /** UPDATE accounts SET balance = ... WHERE id = ... RETURNING *. */
  function UpdateAccount(tx: Tx, p: UpdateAccountParams): (s: Step<Account>)
    ensures s.tx.issued == tx.issued + 1 && s.tx.faults == tx.faults && s.tx.locks == tx.locks
    ensures s.Done? <==> tx.issued !in tx.faults && p.id in tx.ledger.accounts
    ensures s.Done? ==> s.value == tx.ledger.accounts[p.id].(balance := p.balance)
    ensures s.Done? ==> s.tx.ledger == tx.ledger.(accounts := tx.ledger.accounts[p.id := s.value])
    ensures s.Failed? ==> s.err == (if tx.issued in tx.faults then tx.faults[tx.issued] else ErrNoRows)
  {
    if tx.issued in tx.faults then Failed(tx.faults[tx.issued], Issue(tx))
    else if p.id !in tx.ledger.accounts then Failed(ErrNoRows, Issue(tx))
    else
      var a := tx.ledger.accounts[p.id].(balance := p.balance);
      Done(a, Issue(tx).(ledger := tx.ledger.(accounts := tx.ledger.accounts[p.id := a])))
  }

  /** SELECT ... WHERE id = ...: a plain read outside any transaction. */
  function GetAccount(l: Ledger, id: AccountId): (r: Result<Account, DbError>)
    ensures r.Ok? <==> id in l.accounts
    ensures r.Ok? ==> r.value == l.accounts[id]
    ensures r.Err? ==> r.error == ErrNoRows
  {
    if id in l.accounts then Ok(l.accounts[id]) else Err(ErrNoRows)
  }

  /** The position of the first row of `rows` whose `key` is `id`, if any. */
  function IndexOf<T>(rows: seq<T>, key: T -> int, id: int): (r: Option<nat>)
    ensures r.Some? ==> r.value < |rows| && key(rows[r.value]) == id
    ensures r.Some? ==> forall i :: 0 <= i < r.value ==> key(rows[i]) != id
    ensures r.None? ==> forall i :: 0 <= i < |rows| ==> key(rows[i]) != id
  {
    if rows == [] then None
    else if key(rows[0]) == id then Some(0)
    else match IndexOf(rows[1..], key, id)
      case None => None
      case Some(k) => Some(k + 1)
  }

  function EntryId(e: Entry): int { e.id }

  function TransferId(t: Transfer): int { t.id }

  /** SELECT * FROM entries WHERE id = ...: not-found is `ErrNoRows`. */
  function GetEntry(l: Ledger, id: int): (r: Result<Entry, DbError>)
    ensures r.Ok? ==> r.value in l.entries && r.value.id == id
    ensures r.Err? <==> forall i :: 0 <= i < |l.entries| ==> l.entries[i].id != id
  {
    match IndexOf(l.entries, EntryId, id)
    case Some(k) => Ok(l.entries[k])
    case None => Err(ErrNoRows)
  }

  /** SELECT * FROM transfers WHERE id = ...: not-found is `ErrNoRows`. */
  function GetTransfer(l: Ledger, id: int): (r: Result<Transfer, DbError>)
    ensures r.Ok? ==> r.value in l.transfers && r.value.id == id
    ensures r.Err? <==> forall i :: 0 <= i < |l.transfers| ==> l.transfers[i].id != id
  {
    match IndexOf(l.transfers, TransferId, id)
    case Some(k) => Ok(l.transfers[k])
    case None => Err(ErrNoRows)
  }

  /** In a valid ledger every stored entry is found again by its own id. */
  lemma EntryRetrievable(l: Ledger, i: int)
    requires Valid(l)
    requires 0 <= i < |l.entries|
    ensures GetEntry(l, l.entries[i].id) == Ok(l.entries[i])
  {
  }

  /** In a valid ledger every stored transfer is found again by its own id. */
  lemma TransferRetrievable(l: Ledger, i: int)
    requires Valid(l)
    requires 0 <= i < |l.transfers|
    ensures GetTransfer(l, l.transfers[i].id) == Ok(l.transfers[i])
  {
  }
}
