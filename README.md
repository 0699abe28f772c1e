# Metered arithmetic calculator: a Dafny model

This project models the metered-operation path of an arithmetic calculator
service. Authenticated users spend balance to run an operation (addition,
subtraction, multiplication, division, square root or a random string). Each
successful operation debits the operation's price from the user and appends an
audit record that snapshots the price charged, the new balance and the textual
result. Users can list their own records a page at a time, optionally filtered
by a substring of the result, and can delete their own records. The operation
catalog is seeded at start-up by an insert-if-absent pass over six priced types.

Modules, one per part of the source:

- `Models` (`models.dfy`): users, operations and records as datatypes; the
  schema's constraints (unique usernames, unique operation types, distinct
  keys) as the predicate `Consistent`; the column defaults for new users.
- `Arithmetic` (`arithmetic.dfy`): the dispatcher over the binary operations
  and the guarded square root. Number rendering (`strconv.FormatFloat`) and
  `math.Sqrt` are function values in a `Numerics` parameter.
- `Database` (`database.dfy`): catalog seeding as a pure insert-if-absent
  function with its lemmas. The `Store` class holds the three tables as fields,
  with `SeedOperations` (the loop over the seed list) and `CreateUser`.
- `Ledger` (`ledger.dfy`): what each handler does, written as functions from
  the tables before a request to the response and the tables after it
  (`Charge`, `Matching`/`PageOf`/`TotalPages`, `Delete`). The handlers'
  promises are lemmas about these functions, including lemmas over any
  sequence of requests (`Run`).
- `Controllers` (`controllers.dfy`): the handlers as imperative methods over a
  `Store`. `OperationController.PerformOperation` follows the handler step by
  step. `GetRecords` builds its response in a loop. `DeleteRecord` removes the
  caller's record. Each method is proved equal to its `Ledger` function, and
  each keeps the store `Consistent`.

Money is held in integer cents. The seeded prices 1.0, 1.0, 1.5, 2.0, 2.5 and
2.5 are 100, 100, 150, 200, 250 and 250, and the default balance 50 is 5000.
Operands are Dafny `real`s. The random-string provider is a function from a
length to a string or an error message. The record date is an input.

The Go code has no transaction around the debit and the record insert, and
no per-user locking. A computation failure is answered with the underlying
error message. An operation type that is in the catalog but not implemented
gets its own "Unsupported operation" answer.

## Model

| member | source | states |
|---|---|---|
| `Models.NewUser` | models/models.go:5-11 | a new user keeps id, username and password; the status is "active" exactly when none (or "active") was given, and the balance is 50.00 exactly when zero (or 50.00) was given |
| `Models.LookupByTypeIsUnique` | models/models.go:13-17 | in a catalog where every entry sits under its own type, any operation of a type is the one stored under that type (lookup by type finds at most one) |
| `Arithmetic.Calculate` | services/arithmetic.go:10-27 | fails exactly for an unknown name or a division by zero, with "unsupported operation" or "division by zero is not allowed"; otherwise the sum, difference, product or quotient, each characterised by its inverse operation |
| `Arithmetic.PerformArithmeticOperation` | services/arithmetic.go:9-30 | succeeds exactly when the computation does, and then returns the rendered value; on failure returns the error and no result |
| `Arithmetic.Sqrt` | services/arithmetic.go:32-39 | fails exactly on a negative input, with "cannot calculate square root of a negative number"; otherwise returns the rendered root |
| `Arithmetic.SqrtSquaresBack` | services/arithmetic.go:37-38 | with an exact root function, a successful square root renders a non-negative number whose square is the input |
| `Arithmetic.InversePairs` | services/arithmetic.go:14-24 | on the model's exact real operands, subtraction undoes addition and division by a non-zero number undoes multiplication (float64 rounding is not modelled) |
| `Models.Consistent` | models/models.go:5-29 | the table invariants: usernames unique, operation types unique (each entry stored under its own type), and user, operation and record keys distinct and below the next auto-increment key |
| `Database.SeedAll` | database/database.go:36-40 | applies insert-if-absent to each seed entry in order (its properties are the `SeedAll…` lemmas) |
| `Database.Seed` | database/database.go:26-41 | the seeding pass over the six listed types and prices (its properties are the `Seed…` lemmas) |
| `Database.FirstOrCreate` | database/database.go:37 | the type is present afterwards; an existing entry is kept as it is (same price, same key); an absent one is inserted under the next key with the given price; no other type is added or changed |
| `Database.SeedAllKeepsExisting` | database/database.go:36-40 | seeding keeps every existing entry unchanged, and afterwards a type is present exactly when it was before or is listed |
| `Database.SeedAllWhenPresent` | database/database.go:36-40 | when every listed type is already present, seeding changes nothing |
| `Database.SeedAllFreshCost` | database/database.go:27-40 | a listed type that was absent, and is listed once, ends up with its listed price |
| `Database.SeedAllWellKeyed` | database/database.go:36-40 | seeding keeps every entry under its own type and keeps operation keys distinct |
| `Database.SeedAddsAllTypes` | database/database.go:27-40 | after seeding, all six operation types are in the catalog |
| `Database.SeedNeverOverwrites` | database/database.go:36-40 | seeding never changes the price of an existing entry, and leaves types outside the seed list as they were |
| `Database.SeedIdempotent` | database/database.go:36-40 | seeding twice gives the same catalog and next key as seeding once |
| `Database.SeedEmptyPrices` | database/database.go:27-34 | on an empty catalog the seeded prices are 1.00, 1.00, 1.50, 2.00, 2.50 and 2.50, and every price is non-negative |
| `Database.Store.constructor` | database/database.go:21 | a new store has empty tables and consistent keys |
| `Database.Store.CreateUser` | models/models.go:5-11 | a username already taken is refused with nothing changed; otherwise the user is inserted under the next key with the column defaults, and nothing else changes |
| `Database.Store.SeedOperations` | database/database.go:25-41 | the catalog becomes the seeded catalog of the old one; users and records are untouched; the store stays consistent |
| `Ledger.Charge` | controllers/operation_controller.go:24-109 | a rejection changes nothing; success happens exactly when the request names an operation, the user exists, the type is catalogued, the balance covers the price and the computation succeeds; success debits exactly the price and appends exactly one snapshot record; the insufficient-balance answer is given exactly when the balance is below the price; an empty operation is the invalid-request answer; for a paying user a failed computation is answered with the computation's own failure (missing operands, unsupported operation, or the arithmetic or provider error passed through) |
| `Ledger.StatusCode` | controllers/operation_controller.go:24-108 | success is 200; an unknown user is 404, insufficient balance 402, a failed computation 500, and every malformed request 400 |
| `Ledger.Compute` | controllers/operation_controller.go:58-80 | a binary operation missing a number gets "both numbers required", otherwise the rendered arithmetic result or its error; a square root missing number1 gets "number1 is required", otherwise fails exactly on a negative input; a random string asks the provider for the given length or 10 and passes on its string or error; any other type is "Unsupported operation" |
| `Ledger.ChargeUnknownUserOrType` | controllers/operation_controller.go:38-48 | an unknown user gets "User not found", and a known user with an uncatalogued type gets "Invalid operation type", with nothing changed |
| `Ledger.ChargeChecksBalanceBeforeOperands` | controllers/operation_controller.go:50-63 | a binary operation with a missing number is answered "insufficient balance" when the balance is below the price, otherwise "both numbers required"; either way nothing changes |
| `Ledger.ChargeSquareRootNeedsNumber1` | controllers/operation_controller.go:65-69 | a square root without number1, from a user who can pay, is a missing-operand answer with nothing changed |
| `Ledger.ChargeRandomStringDefaultLength` | controllers/operation_controller.go:71-76 | a random string without a length asks the provider for 10 characters; its string is the result, its error leaves everything unchanged |
| `Ledger.ChargeFailedComputation` | controllers/operation_controller.go:82-85 | division by zero and a negative square root are answered with their error messages; there is no debit and no record |
| `Ledger.ChargeSucceeds` | controllers/operation_controller.go:87-108 | a request passing every check returns the computed result, lowers the balance by the price and appends one record whose amount is the price and whose balance is the new balance |
| `Ledger.ChargeFrame` | controllers/operation_controller.go:87-103 | other users, the catalog, the set of users and the existing records are never changed by a request |
| `Ledger.ChargeKeepsConsistent` | controllers/operation_controller.go:94-103 | a request keeps usernames unique, keys in place and record keys distinct |
| `Ledger.ChargeDivisionScenario` | controllers/operation_controller.go:51-103 | 6 divided by 3, priced 2.00, from a balance of 100.00: the result is the rendered 2, the balance becomes 98.00, and one record of 2.00 with that result is logged |
| `Ledger.ChargeInsufficientScenario` | controllers/operation_controller.go:51-54 | a balance of 1.00 cannot pay for a multiplication priced 1.50; nothing changes |
| `Ledger.Run` | controllers/operation_controller.go:24-109 | serving a sequence of requests one after another yields one answer per request |
| `Ledger.RunKeepsBalancesNonNegative` | controllers/operation_controller.go:51-88 | from non-negative balances, no sequence of requests makes any balance negative |
| `Ledger.RunAccounting` | controllers/operation_controller.go:88-103 | over any sequence of requests: the catalog is unchanged; a user's final balance is the initial one minus the prices of that user's successful requests; the log grows by one record per success, and earlier records are kept |
| `Ledger.RunPerUserLedger` | controllers/operation_controller.go:88-103 | over any sequence of requests, per user: the user's record count grows by exactly the number of that user's successful requests, and the amounts on the user's records grow by exactly what those requests cost, the same sum `RunAccounting` subtracts from the balance |
| `Ledger.Matching` | controllers/operation_controller.go:125-130 | the listing filter keeps exactly the caller's records whose result contains the search text (all of the caller's records when the search is empty); a single record is kept exactly when it is selected |
| `Ledger.MatchingAppend` | controllers/operation_controller.go:125-130 | the filter of a concatenation is the concatenation of the filters, so with the one-record case the filter keeps the selected records in order, each once, and the count behind the page count is fixed |
| `Ledger.PageOf` | controllers/operation_controller.go:119-142 | a page holds at most `limit` records: the filtered records from position (page-1)*limit on, or from the start when that offset is not positive |
| `Ledger.TotalPages` | controllers/operation_controller.go:138 | the page count is the least number of pages of `limit` records that holds all filtered records (zero when there are none) |
| `Ledger.PagesCoverMatching` | controllers/operation_controller.go:119-142 | every filtered record is shown on one of the pages from 1 to the reported page count |
| `Ledger.OperationKind` | controllers/operation_controller.go:142-155 | a record's operation is reported by the type of the catalog entry with its operation key, or as empty text when there is none |
| `Ledger.View` | controllers/operation_controller.go:147-156 | a listed record shows the record's key, amount, date and result, and the type of the catalog entry with its operation key when there is one |
| `Ledger.IndexOfOwned` | controllers/operation_controller.go:175-179 | finds a record with the given key owned by the caller, or reports that there is none |
| `Ledger.Delete` | controllers/operation_controller.go:164-187 | deletion succeeds exactly when the caller owns a record with that key; it removes one record; users and catalog (so every balance) are never affected; otherwise "Record not found" and nothing changes |
| `Ledger.DeleteRemovesExactlyOne` | controllers/operation_controller.go:176-186 | with distinct record keys, a deletion leaves no record with that key, keeps every other record, and adds none |
| `Ledger.DeleteKeepsConsistent` | controllers/operation_controller.go:181 | a deletion keeps the tables consistent |
| `Controllers.OperationController.constructor` | controllers/operation_controller.go:20-22 | the controller holds the given random-string provider |
| `Controllers.OperationController.PerformOperation` | controllers/operation_controller.go:24-109 | the handler's answer and the new store are exactly those of `Ledger.Charge` on the old store, and the store stays consistent |
| `Controllers.GetRecords` | controllers/operation_controller.go:111-162 | returns one page of at most `limit` records; each is the caller's, matches the search, and is shown with its key, amount, date, result and operation type; the page count is the ceiling of the filtered count over `limit` |
| `Controllers.DeleteRecord` | controllers/operation_controller.go:164-187 | the answer and the new store are exactly those of `Ledger.Delete` on the old store, and the store stays consistent |

## Left out

- HTTP plumbing: JSON binding, status writing, routing and CORS. Answers are the `Outcome` and `DeleteOutcome` datatypes, and `Ledger.StatusCode` gives the HTTP status. Of the binding errors, only the required `operation` field is modelled (an empty operation is `InvalidRequest`).
- The "user_id not in context" branches of the three handlers: the JWT middleware always sets it on these routes. Authentication (bcrypt, JWT) is not part of this model.
- Parsing of query and path parameters: `page`, `limit` and the record key reach the model as numbers. A non-numeric record key simply matches no record.
- Controllers.GetRecords: requires `limit > 0`. A limit of 0, or a non-numeric limit (which parses to 0), makes the page-count division divide by zero. A negative limit depends on ORM behaviour the model does not see.
- Ledger.Matching: the SQL `LIKE '%search%'` is modelled as a case-sensitive substring test. The database's ASCII case folding and the wildcard meaning of `%` and `_` inside the search text are not modelled.
- Ledger.PageOf: a non-positive offset is treated as no offset, which is how the ORM builds the query. The listing query has no ORDER BY, so the database may return rows in any order; the model chooses insertion order.
- Ledger.PageOf: the offset `(page-1)*limit` is an unbounded integer. Go's int arithmetic wraps at 64 bits, so for a huge page (for example page 2^62 with limit 4) the source's offset wraps to a non-positive value and returns the first page, while the model returns an empty page.
- Ledger.TotalPages: the page count `(count+limit-1)/limit` is computed without 64-bit wrap-around. For a limit near the int64 maximum the source's sum wraps and yields a negative page count, while the model yields the ceiling.
- Arithmetic.Calculate: operands and results are exact reals. float64 rounding (`(1 + 1e16) - 1e16` is 0 in the source), overflow to ±Inf and negative zero are not modelled, so `InversePairs` is a fact about the real-number model only.
- Arithmetic.Sqrt: the precision of `math.Sqrt` and the digits produced by `strconv.FormatFloat` are not modelled. Both are function values; `SqrtSquaresBack` assumes an exact root.
- Floating-point money: balances and prices are exact integer cents, so float64 rounding drift is not modelled.
- The random-string provider's network call: the provider is a function from a length to a string or an error. It is deterministic per length within one `Run` (one sequence of requests), and the length (possibly non-positive) is passed through unchanged.
- Store failures are not modelled; the model's store never fails. These are:
  - the failed balance save and the failed record insert in the operation handler (500). The source has no transaction, so a failed insert after a saved debit would leave a debit without a record; the model makes no atomicity claim;
  - the failed count and the failed page query in the listing handler (500);
  - the failed delete in the deletion handler (500);
  - the panic on a failed `FirstOrCreate` while seeding.
- Concurrency: the store is sequential. The source has no locking, so the check-then-debit race is outside the model.
- Soft deletion: a deleted record leaves the visible record sequence; the hidden deleted-at column is not modelled.
- Timestamps: the record date is an opaque input.
- Database connection and migration, and the global database handle: the store is an explicit `Store` object passed to each handler.
