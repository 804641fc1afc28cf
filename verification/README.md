# money-done-right ledger core, in Dafny

This project models the two pure pieces of `web/main.py` in the
money-done-right personal ledger:

- **Balance reconstruction** (`BaseHandler.compute_balance_for`). An
  account's balance and debt are never stored. They are derived from the
  account's rows. The rows are read newest first, and only the newest 100
  are read. The newest row carrying a `balance` is the *anchor*. The deltas
  of the rows newer than the anchor are added to it. Debt is a pure
  snapshot: the newest non-null `debt`. Both results are shown with Python
  truthiness, so a value of exactly 0 is shown as unknown, the same as a
  missing one.
- **Recording a multi-account transaction**
  (`CreateTransactionHandler.post`). The first 20 accounts in name order are
  listed. For each of them the form may supply a balance, a delta and a
  debt. A candidate row takes the supplied fields. It is kept only when one
  field is truthy, so a row whose values are all zero is dropped. Then one
  transaction is stored. After it, every kept row is stamped with that
  transaction and stored.

Files and modules:

- `rows.dfy`, module `Rows`: the `Row` entity (nullable integer columns in
  minor units), `Option`, `Field`, Python truthiness, the 64-bit column
  range.
- `reconstruction.dfy`, module `Reconstruction`:
  - the reference definition: `NewestIndex`, `SumDeltas`, `AnchoredBalance`,
    `Shown`, `Reconstruct`;
  - the loop exactly as written: `Step`, `Replay`, `Settle`;
  - the method `ComputeBalance`, proved equal to `Reconstruct`;
  - lemmas about the reading.
- `store.dfy`, module `Store`: the datastore as an append-only log of
  `put()`s. `History` gives an account's rows newest first.
- `recording.dfy`, module `Recording`:
  - candidate construction: `Candidate`, `Candidates`;
  - the write sequence: `PutAll`, `Record`;
  - lemmas relating a recorded transaction to what reconstruction reads
    afterwards.

Reconstruction reads nothing but its argument and returns a value.
`ComputeBalance`'s postcondition fixes its result to `Reconstruct(rows)`.
So two runs on the same rows agree, and the rows are never changed.

Three behaviours of the code are kept as they are:

- **Zero values.** The code drops a candidate row whose supplied values are
  all 0 (line 168). It also shows a reconstructed 0 as unknown (lines
  109-110). Both quirks are kept: `Keeps`, `Shown`,
  `ZeroInputLeavesAccountUnchanged`, `ZeroBalanceReadsAsUnknown`.
- **Parse failures.** A field raises out of the handler when
  `int(float(x) * 100)` fails (text that is not a number, an infinity, a
  NaN) or when its result does not fit the 64-bit integer column it is
  assigned to (`Raises`). This happens inside the row-building loop,
  before the transaction is stored. The model returns `Rejected` and
  stores nothing. The raised exception is modelled as
  `Rejected(ParseError(account, field))`. The code has no separate
  validation or partial-write error.
- **No atomic scope.** The transaction and the rows are separate `put()`s.
  They are modelled as consecutive appends to the log.

## Model

| member | source | states |
|---|---|---|
| Reconstruction.Window | web/main.py:96 | the fetched rows are the newest ones, in order, at most 100 of them, and all of them when there are fewer than 100 |
| Reconstruction.Shown | web/main.py:109-110 | `x if x else None`: a value is shown exactly when it is non-null and nonzero, and then unchanged |
| Reconstruction.Step | web/main.py:101-106 | one loop iteration: a balance, once set, is never replaced, otherwise the row's balance is taken; the row's delta is added exactly when no balance is set after the first test, so the anchor's own delta is skipped; a debt, once set, is kept, otherwise the row's debt is taken |
| Reconstruction.Replay | web/main.py:97-106 | after the loop over any rows, a balance is set exactly when some row has one, a debt exactly when some row has one, and with no balance the accumulated delta is the sum of all deltas |
| Reconstruction.Settle | web/main.py:107-108 | the final balance is known exactly when an anchor was found, and then exceeds the anchor by the accumulated delta |
| Reconstruction.NewestIndex | web/main.py:100-106 | the index of the newest row whose column is non-null: that row has it, no newer row has it; none exactly when no row has it |
| Reconstruction.ReplayTracksAnchor | web/main.py:97-106 | after the loop has visited any prefix of the rows: `balance` is the newest snapshot, `delta` is the sum of the deltas strictly newer than it (all deltas if there is none), `debt` is the newest debt |
| Reconstruction.ReplayComputesReference | web/main.py:97-108 | the loop followed by `balance += delta` yields the anchored balance and the newest debt |
| Reconstruction.ComputeBalance | web/main.py:94-110 | the loop over the fetched rows, presented with truthiness, returns exactly the reference reading `Reconstruct(rows)` |
| Reconstruction.ComputeBalances | web/main.py:94-96 | one reading per account, each equal to the reference reading of that account's rows in the store, newest first |
| Reconstruction.OnlyWindowMatters | web/main.py:96 | two row sequences that agree on their first 100 rows read the same |
| Reconstruction.RowBeyondWindowIgnored | web/main.py:96 | replacing any row at index 100 or later does not change the reading |
| Reconstruction.BalanceFromNewestSnapshot | web/main.py:100-109 | if row k (k < 100) is the newest with a balance, the balance read is that snapshot plus the deltas of rows 0..k-1, shown with truthiness |
| Reconstruction.AnchorOwnDeltaIgnored | web/main.py:101-104 | changing the anchor row's own delta changes nothing, since the delta test runs after the anchor is set |
| Reconstruction.UnknownWithoutSnapshot | web/main.py:97-109 | if none of the first 100 rows has a balance, the balance is unknown whatever the deltas |
| Reconstruction.DebtFromNewestSnapshot | web/main.py:105-110 | if row k (k < 100) is the newest with a debt, the debt read is that snapshot, shown with truthiness |
| Reconstruction.UnknownDebtWithoutSnapshot | web/main.py:99-110 | if none of the first 100 rows has a debt, the debt is unknown |
| Reconstruction.DebtReadsOnlyDebt | web/main.py:105-106 | two row sequences with the same debt columns read the same debt, whatever their deltas and balances |
| Reconstruction.SnapshotOnTop | web/main.py:101-106 | a newest row with a balance (or debt) snapshot determines the balance (or debt) read |
| Reconstruction.DeltaOnTop | web/main.py:100-108 | a newest row with only a delta adds it to the anchored balance when the anchor stays within the window |
| Reconstruction.DeltasOnTopOfSnapshot | web/main.py:100-110 | deltas +500 and -200 over a snapshot of 1000 read 1300, with unknown debt |
| Reconstruction.DebtBetweenDeltas | web/main.py:100-110 | a debt of 300 between two deltas reads 300, and with no snapshot the balance is unknown |
| Reconstruction.SnapshotPastWindow | web/main.py:96 | a snapshot that is the 101st newest row is not seen: the balance is unknown |
| Reconstruction.ZeroBalanceReadsAsUnknown | web/main.py:109-110 | a balance that reconstructs to 0 reads the same as an account with no rows |
| Store.History | web/main.py:96 | an account's rows, as its newest-first query returns them: every row returned belongs to that account, every row of that account ever written is returned, and there are no more rows than writes |
| Store.HistoryAppend | web/main.py:96 | rows stored later come first in an account's newest-first history |
| Recording.Listed | web/main.py:153 | the handler works on the first 20 accounts in name order, all of them when there are fewer |
| Recording.Raises | web/main.py:162-167 | a field on which `int(float(x) * 100)` raises aborts the request; a converted value aborts it exactly when it lies outside the signed 64-bit column range; an empty field never does, and a field that does not abort gives a value the column accepts |
| Recording.InputFor | web/main.py:159-161 | a missing form parameter reads as empty text for every field |
| Recording.Supplied | web/main.py:162-167 | a column is set exactly when its field was supplied, and then to the converted value |
| Recording.Draft | web/main.py:157-167 | the row built for an account belongs to it, has no transaction yet, and each column equals the supplied value or null |
| Recording.Keeps | web/main.py:168 | `row.balance or row.delta or row.debt`: a row is kept exactly when some column is non-null and nonzero |
| Recording.Candidate | web/main.py:157-169 | the result is an error exactly when a field raises, and the error names that account and the first field that raises, in the order balance, delta, debt; a row exists exactly when a supplied value is nonzero; it belongs to the account, has no transaction yet, fits the 64-bit columns, and each column equals the supplied value or null |
| Recording.Candidates | web/main.py:155-169 | the result is an error exactly when some listed account has a field that raises; otherwise there are at most as many rows as accounts, every row is the kept, storable draft of a listed account, and every listed account whose draft is kept has its row |
| Recording.CandidatesFollowAccountOrder | web/main.py:155-169 | for every pair of rows, the earlier row's account comes strictly before the later row's account in the account order |
| Recording.CandidatesOnePerAccount | web/main.py:155-169 | with distinct accounts, no two rows share an account |
| Recording.FirstParseErrorReported | web/main.py:159-167 | the reported error belongs to the first account, in order, that has a field that raises, and names such a field |
| Recording.ZeroInputsProduceNoRow | web/main.py:168 | an explicit 0 delta, or all three fields 0, produces no row, the same as empty input |
| Recording.PutAll | web/main.py:175-177 | the log grows by one put per row, in order, each row stamped with the transaction; earlier writes are untouched |
| Recording.Record | web/main.py:153-177 | rejection exactly when a listed account has a field that raises; otherwise earlier writes are kept, one transaction is stored first with the next key and the description, and after it come exactly the candidate rows in order, each referencing that transaction and a listed account |
| Recording.StoredLayout | web/main.py:171-177 | after the earlier writes come the transaction under the next key and then the stamped rows, each of a listed account |
| Recording.RecordedRowsFit | web/main.py:162-177 | every row a recorded transaction stores has all its columns within the signed 64-bit range |
| Recording.ColumnBoundary | web/main.py:162-163 | a balance one past the largest 64-bit integer aborts the request at that field; the largest one is stored |
| Recording.UntouchedAccountUnchanged | web/main.py:168-177 | an account without a kept row has the same history, and so the same reading, as before |
| Recording.ZeroInputLeavesAccountUnchanged | web/main.py:168 | an account whose fields are all empty or 0 is left exactly as it was |
| Recording.UnlistedAccountUnchanged | web/main.py:153 | an account past the first 20 in name order never gets a row |
| Recording.StampedRowOnTop | web/main.py:175-177 | a transaction followed by stamped rows of distinct accounts puts exactly the account's stamped row on top of its history |
| Recording.KeptRowOnTopOfHistory | web/main.py:171-177 | with distinct accounts, a listed account with a kept row has exactly that row, stamped with the new transaction, on top of its history |
| Recording.SnapshotsReadBack | web/main.py:162-177 | a nonzero balance or debt entered for a listed account is what the account reads next, whatever delta was entered beside it |
| Recording.DeltaRowOnTop | web/main.py:164-177 | after a nonzero delta entered without a balance, the account reads as its old history with a row on top that carries that delta, no balance, and the debt entered beside it (none if blank) |
| Recording.DeltaAddsToReading | web/main.py:164-177 | a nonzero delta entered without a balance is added to the account's anchored balance when the anchor is among its 99 newest rows |
| Recording.DeltaOverStoredBalance | web/main.py:94-110 | a delta of -50.00 recorded for an account whose stored balance is 10.00 is accepted, lands on top of that anchor, and the account then reads -40.00 |
| Recording.RentExample | web/main.py:153-177 | "rent" with balance 1200.00 for account 1 and delta -50.00 for account 2 stores the transaction, then rows 120000 and -5000 referencing it |

## Left out

- Decimal text to minor units, `int(float(x) * 100)` (lines 163, 165, 167): floating point. A field arrives as the integer the conversion yields (`Amount`, unbounded). Text on which the conversion raises (not a number, `inf`, `nan`, a float overflow) arrives as `Malformed`. Empty text arrives as `Blank`.
- The 64-bit range of an integer column (lines 35-37) is enforced by the datastore library's `db.IntegerProperty`, which is not part of this model. It is taken to be the signed 64-bit range, checked when a converted value is assigned to the row (`Raises`).
- Display scaling `/ 100.0` (lines 109-110): floating point. Readings are returned in integer minor units.
- Datastore queries and keys: the account list (line 153) is a parameter given in name order. A transaction's key is the position of its write in the log. An account's newest-first row order is taken to be reverse write order: `created_at` ties are not modelled.
- Concurrent requests and clocks: `created_at` is set from the serving instance's clock when a row is built (lines 34, 157). The model takes requests to run one at a time, on a clock that follows write order, so that newest first is reverse write order. Two requests in flight for the same account, or instances with skewed clocks, can store rows whose `created_at` order differs from their write order. `HistoryAppend`, `StampedRowOnTop`, `KeptRowOnTopOfHistory`, `SnapshotsReadBack`, `DeltaRowOnTop` and `DeltaAddsToReading` hold only under that assumption.
- `put()` failures, atomicity and partial writes: store-level fault behaviour, not logic of this code. The unused `run_in_transaction` decorator (lines 17-20) is not modelled.
- Request plumbing: `FinishRequest`, `prolog`, redirects, templates, error pages, login, `SettingsHandler`, `SettingsAddAccountHandler`, the `MainHandler` listing, URL mapping and WSGI start-up (lines 42-92, 112-149, 179-193).
- `Account` and `Transaction` timestamps and `created_by` (lines 22-29): they take no part in either computation.
