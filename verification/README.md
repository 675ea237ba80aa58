# simple-bank in Dafny

A model of the money-moving core of simple-bank, a small Go bank service.
The core has five parts:

- **The transfer transaction engine** (`db/sqlc/store.go`).
  - `execTx` runs a unit of work inside one database transaction. It commits on success and rolls back on failure.
  - `TransferTx` is such a unit of work. It inserts one transfer record, then two signed entries, then moves the two balances.
  - The two balances are locked and updated in account-id order.
- **The transfer endpoint's policy** (`api/transfer.go`): the ordered checks of `createTransfer` and `validAccount`.
- **The account endpoints' policy** (`api/account.go`): `createAccount`, `getAccount`, and `listAccounts` with its page arithmetic.
- **The bearer authorization-header parser** in `authMiddleware` (`api/middleware.go`).
- **The currency whitelist** `IsSupportedCurrency` (`util/currency.go`).

How the model represents these:

- The database is an immutable `Ledger`. It holds:
  - a map from account id to account;
  - the entry and transfer tables as sequences;
  - the next ids.
- A statement runs on a transaction handle `Tx`. The handle carries:
  - the ledger as the transaction sees it;
  - a map from statement ordinal to injected `DbError`;
  - the number of statements issued so far;
  - the trace of account rows locked, in order.
- A statement either succeeds or fails: the result is a `Step` (`Done` or `Failed`).
- `TxEnv` says which of BEGIN, ROLLBACK and COMMIT fail and which statements fail.
- The handlers are pure decision functions. They receive the store calls as function parameters, and their reply records:
  - the status;
  - the lookups and store calls they made;
  - the body.

Modules:

- `Wrappers`: Option and Result.
- `Ascii`: whitespace and lower-casing.
- `Currency`.
- `Db`: the tables and the repository queries.
- `Store`: `ExecTx` and `TransferTx`.
- `Http`: status codes and integer widths.
- `Token`: the payload the token verifier yields.
- `Middleware`.
- `TransferApi`.
- `AccountApi`.

Behaviour of the code kept as written:

- The engine has no from ≠ to check and no balance floor.
  - A transfer from an account to itself commits and leaves its balance unchanged.
  - The result's `toAccount` in that case shows the balance plus the amount, as the first of the two updates left it (`Store.TransferUnit`).
- `Posted` is the reference definition of a committed transfer, stated as one net effect. `TransferTx` is proved to produce exactly that.
- The repeated-transfer law is stated for `n` transfers run one after another on a database where nothing fails (`Store.TransferTimes`).

## Model

| member | source | states |
|---|---|---|
| Store.ExecTx | db/sqlc/store.go:35-57 | A BEGIN error is returned unwrapped and the unit never runs. A unit failure yields the wrapped cause together with the ROLLBACK error, if any. A COMMIT error is returned as is. Every error leaves the tables exactly as they were. The result is Ok exactly when BEGIN, the unit and COMMIT all succeed; then the tables and the value are the unit's. |
| Store.WrappedMessageCarriesCauses | db/sqlc/store.go:47-53 | The wrapped message begins with "transaction error: " followed by the cause's message. When rollback also failed, it ends with the rollback error's message. |
| Store.MakeTransfer | db/sqlc/store.go:129-135 | The transfer record carries exactly the given from, to and amount under the next transfer id, and is appended to the transfer table. It fails exactly when its statement fails, and then reports that statement's injected error. |
| Store.MakeEntry | db/sqlc/store.go:138-154 | Exactly two entries are appended, `(from, -amount)` then `(to, amount)`, with consecutive fresh ids. Their amounts sum to zero. It fails exactly when one of its two statements fails, and then reports the error of the first that fails. |
| Store.UpdateAccountBalance | db/sqlc/store.go:157-169 | Locks the row, then writes the balance read under the lock plus the delta. It succeeds exactly when both statements do and the account exists. On success, no other account changes and the id is appended to the lock trace. On failure it reports the lock's error (its injected fault, or no rows for a missing account), else the update's. |
| Store.SequentialUpdatesArePosted | db/sqlc/store.go:103-121 | Debit then credit, or credit then debit, give the same account map: every account moved by its net delta. |
| Store.UpdateBalances | db/sqlc/store.go:103-121 | The two updates run in lock order. On success, the accounts equal the net-effect map, the lock trace gains `LockOrder`, and the from account is returned as finally stored. |
| Store.EntriesThenBalances | db/sqlc/store.go:98-121 | After the transfer record, the unit's six remaining statements succeed exactly when none fails and both accounts exist. On success: the entries `(from, -amount)` and `(to, amount)` are appended, the accounts equal the net-effect map, and the lock trace gains `LockOrder`. |
| Store.TransferUnit | db/sqlc/store.go:91-122 | The unit succeeds exactly when its seven statements succeed and both accounts exist. On success its tables equal `Posted`, and the result's rows are the rows just appended. When from = to, the reported to account shows the intermediate balance. |
| Store.TransferTx | db/sqlc/store.go:82-126 | All or nothing: any error leaves the tables unchanged. It commits exactly under `Commits`. The rows locked are a prefix of `LockOrder`. On commit: the tables equal `Posted`; the transfer and the two entries are exactly as given and were appended; the entries sum to zero; from loses the amount and to gains it when the two differ. |
| Store.FirstFailure | db/sqlc/store.go:91-122 | The unit returns at the first statement error. A run of statements reports no failure exactly when none of its statements fails. |
| Store.FirstFailureAt | db/sqlc/store.go:91-122 | When statement `k` is the first to fail, the run reports exactly that statement's error. |
| Store.TransferFailureStepwise | db/sqlc/store.go:91-122 | The error composed as the unit runs equals the first error among the seven statements in source order. The unit runs the transfer insert, then `makeEntry`, then the two balance updates in lock order. |
| Store.UpdateTwoCause | db/sqlc/store.go:103-121 | Two `updateAccountBalance` calls in a row report the first call's error, or, when it succeeds, the second call's. |
| Store.UpdateBalancesCause | db/sqlc/store.go:103-121 | The two balance updates report the error of the first failing lock or update, in lock order. |
| Store.EntriesThenBalancesCause | db/sqlc/store.go:98-121 | The entries and the updates report the error of the first of their six statements that fails. |
| Store.TransferUnitCause | db/sqlc/store.go:91-122 | A failed unit reports the error of its first failing statement. That error is the injected fault, or no rows for a lock on a missing account. A completed unit has no failing statement. |
| Store.TransferTxCause | db/sqlc/store.go:45-56 | After a successful BEGIN, a failed statement gives "transaction error: <cause>" wrapping the first failing statement's error, together with the ROLLBACK error. When no statement fails, a COMMIT error is returned as is. |
| Store.NoFailureWithoutFault | db/sqlc/store.go:91-122 | With no injected fault among the seven statements and both accounts present, no statement fails. |
| Store.MissingAccountReportsNoRows | db/sqlc/store.go:157-163 | When no statement has a fault, a transfer with a missing account fails at that account's lock. Its error is the wrapped no-rows error, with message "transaction error: sql: no rows in result set" when rollback succeeds. |
| Store.FirstFaultIsCause | db/sqlc/store.go:91-122 | Between existing accounts, the attempt reports the injected fault of the first faulty statement among the seven, wrapped with the ROLLBACK error. |
| Store.PostedPreservesValid | db/sqlc/store.go:82-126 | Posting between existing accounts keeps the tables well formed: fresh increasing ids, rows that reference existing accounts. |
| Store.TransferTxPreservesValid | db/sqlc/store.go:82-126 | Every attempt, committed or not, keeps the tables well formed. |
| Store.CommittedRecordsRetrievable | db/sqlc/store_test.go:61-87 | After a commit, the new transfer and both new entries can be read back by their ids. |
| Store.TransferScenario | db/sqlc/store.go:82-126 | Accounts at 1000 and 500 with a transfer of 200 end at 800 and 700, with entries -200 and +200. |
| Store.HealthyTransferCommits | db/sqlc/store_test.go:44-48 | On a database where nothing fails, a transfer between existing accounts commits and leaves exactly the net effect `Posted`. |
| Store.RepeatAgrees | db/sqlc/store_test.go:26-39 | Two steps that agree on every ledger holding both accounts agree on any number of repetitions, provided the second step keeps the set of accounts. |
| Store.TransferTimesArePosted | db/sqlc/store_test.go:26-39 | Running the transfer `n` times on a healthy database is the same as posting its net effect `n` times. |
| Store.RepeatedPostings | db/sqlc/store_test.go:106-117 | After `n` postings between distinct accounts: from is lower by `n * amount` and to is higher by `n * amount`; every other account is unchanged; there are `n` more transfers and `2n` more entries. |
| Store.RepeatedTransfers | db/sqlc/store_test.go:106-117 | The same law for `n` committed `TransferTx` runs. |
| Store.LowerIdLockedFirst | db/sqlc/store.go:103-121 | The from account is locked first exactly when its id is the lower one. Distinct ids are locked in increasing order. |
| Store.NoCircularWait | db/sqlc/store.go:103-121 | Two transfers touching the same two accounts never lock them in opposite orders, whatever their directions. |
| TransferApi.ValidAccount | api/transfer.go:84-106 | Accepts exactly an existing account in the request's currency. A missing account gives 404, any other lookup error 500, and a currency mismatch 400. |
| TransferApi.CreateTransfer | api/transfer.go:27-81 | A request failing the bindings gets 400 with no lookup, and a missing payload 500. Lookups stay within [from, to], in order. A rejected from account gets `validAccount`'s status (404, 500 or 400) after one lookup. A foreign from account gets 401 before the to account is looked up. A rejected to account gets `validAccount`'s status after both lookups. `TransferTx` is called at most once, exactly when every check passes, with from, to and amount unchanged. An engine error gives 500; success gives 200 with the engine's result. |
| TransferApi.ApprovedTransferOnLedger | api/transfer.go:46-80 | On the ledger model, an approved request gets 200 exactly when the transaction commits, a self-transfer included. Between distinct accounts the reply then shows from lower and to higher by the amount. |
| AccountApi.CreateAccountErrorStatus | api/account.go:56-68 | Gives 403 exactly for a `foreign_key_violation` or `unique_violation` pq error, and 500 otherwise. |
| AccountApi.CreateAccount | api/account.go:29-72 | An unsupported currency gets 400 with no store call. A missing payload gets 500 with no store call. Otherwise a single creation for the authenticated user, in the requested currency, with balance 0. 200 with the account exactly when that call succeeds; a failed call gets the error mapping above. |
| AccountApi.GetAccount | api/account.go:78-122 | An id < 1 gets 400 without a lookup. A missing account gives 404 and any other lookup error 500. A found account with a missing payload gives 500, and another owner's account 401. 200 with the account exactly when it exists and belongs to the authenticated user. |
| AccountApi.ListAccounts | api/account.go:129-170 | A page outside page_id ≥ 1, 5 ≤ page_size ≤ 10 gets 400 with no store call. A missing payload gets 500 with no store call. Otherwise a single listing for the authenticated owner, with limit = page_size and an offset that is a non-negative multiple of page_size whose quotient is page_id − 1. `sql.ErrNoRows` gives 404 and every other store error 500. |
| AccountApi.ListOffset | api/account.go:152-156 | The corrected offset is non-negative, a multiple of page_size, and page_size times (page_id − 1). |
| AccountApi.OffsetAsWritten | api/account.go:155 | The offset as the source computes it, in 32-bit arithmetic; always an `int32`. |
| AccountApi.OffsetAsWrittenAgreesWhileInRange | api/account.go:129-156 | The as-written offset equals the intended one exactly when the intended one fits in an `int32`. |
| AccountApi.OffsetAsWrittenGoesNegative | api/account.go:155 | page_id 300000000 with page_size 10 passes the binding, yet the as-written offset is -1294967306. |
| Middleware.Fields | api/middleware.go:31 | The fields of a header are non-empty runs of non-space characters. |
| Middleware.FieldsSplit | api/middleware.go:31 | Splitting at a space character: the fields of `a + c + b` are those of `a` followed by those of `b`. |
| Middleware.FieldsJoinRoundTrip | api/middleware.go:31 | Words joined with single spaces split back into the same words. |
| Middleware.AuthMiddleware | api/middleware.go:20-58 | Every abort is 401. An empty header aborts before any verification. A non-empty header with fewer than two fields aborts as an invalid format, without verification. A type that does not lower-case to "bearer" aborts without verification. The verifier is called, only with the second field, exactly when the header has at least two fields and a bearer type. The request passes exactly when the verifier also accepts; the payload is then stored under `authorization_payload`. A verifier error aborts with that error as the reason. |
| Middleware.BearerTypeIsCaseInsensitive | api/middleware.go:40-45 | The accepted type words are exactly the six-letter words whose letters are each the lower- or upper-case letter of "bearer". |
| Middleware.BearerHeaderHandsOverToken | api/middleware.go:46-56 | For "<bearer> <token>", exactly that token goes to the verifier, and the request passes exactly when the verifier accepts it. |
| Middleware.MissingTypeRejected | api/middleware.go:31-38 | A header holding only a token is rejected with 401 as an invalid format, without verification. |
| Middleware.ExtraFieldsIgnored | api/middleware.go:46-48 | Appending a third word to a header with at least two fields changes nothing. |
| Currency.IsSupportedCurrency | util/currency.go:12-19 | True exactly for the four codes USD, ILS, EUR and CAD. Every accepted code is three upper-case letters. |
| Currency.LowerCaseCodeRejected | util/currency.go:13-15 | Matching is case-sensitive: the lower-case spelling of a supported code is rejected. |
| Currency.CurrencyExamples | util/currency.go:4-19 | The four codes pass; "usd", "" and "GBP" do not. |

## Left out

- Real PostgreSQL, row locks and goroutine concurrency.
  - Transfers run one after another; interleavings and deadlock detection are not modelled.
  - Locking is a trace of account ids.
  - Context cancellation and timeouts are not modelled.
- The generated query code (`db/sqlc/*.sql.go`) is not part of this model.
  - The queries `CreateTransfer`, `CreateEntry`, `GetAccountForUpdate`, `UpdateAccount` and `GetAccount` are modelled from their names and use.
  - Schema constraints such as foreign keys appear only as injected statement failures.
- Store.TransferTx: the id counters roll back with the rest of the tables. PostgreSQL sequences do not roll back, so after a failed attempt real ids skip values.
- Store.TransferTx: on error the source also returns the partially filled result. The model drops it, since no caller reads it.
- Store.TransferTx: uses mathematical integers. The int64 overflow of `amount * -1` and of `balance + amount` is not modelled.
- Timestamps (`CreatedAt`) are left out.
- The gin binding layer is reduced to predicates over already-decoded values (`TransferApi.Binds`, `AccountApi.BindsId`, `AccountApi.BindsPage`). JSON and URI decoding, and the JSON encoding of reply bodies, are left out.
- The `MustGet` panic when no payload is set is modelled as the missing-payload 500 branch (`auth == None`).
- AccountApi.ListAccounts: the SQL owner filter is stated only as the owner passed to the store call.
- AccountApi.ListAccounts: on `sql.ErrNoRows` the source writes 404 and then 500. Gin keeps the first status written, so the client sees 404 with both error bodies. The model answers 404 and leaves out the second body.
- AccountApi.ListAccounts: uses the corrected offset `ListOffset`, not the wrapping one (see Findings).
- Middleware.Fields: splits on ASCII whitespace only; Go's `strings.Fields` also splits on Unicode spaces.
- Middleware.AuthMiddleware: lower-cases ASCII only. No other character lower-cases to a letter of "bearer", so the accept/reject decision is the same.
- Token signing, verification and expiry (JWT/PASETO) are left out. The verifier is an uninterpreted function parameter.
- Also left out:
  - password hashing;
  - configuration;
  - random data;
  - the server bootstrap;
  - the user endpoints in `api/user.go`.

## Findings

| source | as written | input that shows it | evidently intended | confidence | as-written member | corrected member |
|---|---|---|---|---|---|---|
| api/account.go:155 | `(req.PageID - 1) * req.PageSize` is computed in `int32`. The binding bounds page_id only from below, so the product wraps. | page_id = 300000000, page_size = 10 passes the binding; the offset becomes -1294967306. | offset = (page_id − 1) · page_size, never negative | high, not executed | AccountApi.OffsetAsWritten (shown by AccountApi.OffsetAsWrittenGoesNegative) | AccountApi.ListOffset |
