/** The meaning of the three metered-operation handlers as functions from the
    tables before a request to the response and the tables after it, with the
    properties the handlers promise stated as lemmas. */
module Ledger {
  import opened Wrappers
  import opened Models
  import Arithmetic

  /** The random-string provider: a string of the requested length, or an error. */
  type RandomStringService = int -> Result<string, string>

  /** An operation request; the numbers and the length are optional. */
  datatype Request = Request(operation: string, number1: Option<real>, number2: Option<real>, length: Option<int>)

  const DefaultLength := 10
  const BothNumbersRequired := "Both number1 and number2 are required for this operation"
  const Number1Required := "number1 is required for square root operation"

  /** Why a request was turned down; the comment gives the HTTP status. */
  datatype Failure =
    | InvalidRequest                    // 400: the request names no operation
    | UserNotFound                      // 404
    | InvalidOperationType              // 400: the type is not in the catalog
    | InsufficientBalance               // 402
    | MissingOperands(message: string)  // 400
    | UnsupportedOperation              // 400: in the catalog, but not implemented
    | OperationFailed(cause: string)    // 500: the computation returned an error

  datatype Outcome = Done(result: string) | Rejected(failure: Failure)

  /** Each kind of answer has its own HTTP status, except that the several
      malformed-request answers share 400. */
  function StatusCode(o: Outcome): (code: int)
    ensures code == 200 <==> o.Done?
    ensures code == 404 <==> o == Rejected(UserNotFound)
    ensures code == 402 <==> o == Rejected(InsufficientBalance)
    ensures code == 500 <==> o.Rejected? && o.failure.OperationFailed?
    ensures code == 400 || code == 402 || code == 404 || code == 500 || code == 200
  {
    match o
    case Done(_) => 200
    case Rejected(f) =>
      match f
      case UserNotFound => 404
      case InsufficientBalance => 402
      case OperationFailed(_) => 500
      case _ => 400
  }

  predicate Sufficient(t: Tables, userId: nat, kind: string)
  {
    userId in t.users && kind in t.operations && t.users[userId].balance >= t.operations[kind].cost
  }

  /** The computation step: operand checks, then the arithmetic service or the
      random-string provider. */
  function Compute(req: Request, randomStrings: RandomStringService, numerics: Arithmetic.Numerics): (r: Result<string, Failure>)
    ensures r.Err? ==> r.error.MissingOperands? || r.error.UnsupportedOperation? || r.error.OperationFailed?
    ensures Arithmetic.IsBinary(req.operation) ==>
      if req.number1.None? || req.number2.None? then r == Err(MissingOperands(BothNumbersRequired))
      else
        var c := Arithmetic.Calculate(req.operation, req.number1.value, req.number2.value);
        && (r.Ok? <==> c.Ok?)
        && (r.Ok? ==> r.value == numerics.formatFloat(c.value))
        && (r.Err? ==> r.error == OperationFailed(c.error))
    ensures req.operation == SquareRoot ==>
      if req.number1.None? then r == Err(MissingOperands(Number1Required))
      else
        && (r.Err? <==> req.number1.value < 0.0)
        && (r.Err? ==> r.error == OperationFailed(Arithmetic.NegativeSquareRoot))
        && (r.Ok? ==> r.value == numerics.formatFloat(numerics.sqrt(req.number1.value)))
    ensures req.operation == RandomString ==>
      var reply := randomStrings(if req.length.Some? then req.length.value else DefaultLength);
      (r.Ok? <==> reply.Ok?) && (r.Ok? ==> r.value == reply.value) && (r.Err? ==> r.error == OperationFailed(reply.error))
    ensures !Arithmetic.IsBinary(req.operation) && req.operation != SquareRoot && req.operation != RandomString ==>
      r == Err(UnsupportedOperation)
  {
    if Arithmetic.IsBinary(req.operation) then
      if req.number1.None? || req.number2.None? then Err(MissingOperands(BothNumbersRequired))
      else Lift(Arithmetic.PerformArithmeticOperation(req.operation, req.number1.value, req.number2.value, numerics))
    else if req.operation == SquareRoot then
      if req.number1.None? then Err(MissingOperands(Number1Required))
      else Lift(Arithmetic.Sqrt(req.number1.value, numerics))
    else if req.operation == RandomString then
      Lift(randomStrings(if req.length.Some? then req.length.value else DefaultLength))
    else Err(UnsupportedOperation)
  }

  function Lift(r: Result<string, string>): Result<string, Failure>
  {
    match r
    case Ok(s) => Ok(s)
    case Err(e) => Err(OperationFailed(e))
  }

  /** The state after a successful charge of `kind` to `userId`: the balance is
      lowered by the cost and one record, snapshotting the cost, the new balance
      and the result, is appended under the next record key. */
  predicate Debited(before: Tables, after: Tables, userId: nat, kind: string, result: string, date: string)
  {
    && userId in before.users && kind in before.operations
    && var user := before.users[userId];
       var op := before.operations[kind];
       var balance := user.balance - op.cost;
    && op.cost <= user.balance
    && after == before.(
         users := before.users[userId := user.(balance := balance)],
         records := before.records + [Record(before.nextRecordId, op.id, userId, op.cost, balance, result, date)],
         nextRecordId := before.nextRecordId + 1)
  }

  datatype Charged = Charged(outcome: Outcome, after: Tables)

  /** One operation request by `userId`, in the handler's order: user, catalog
      entry, balance, operands and computation, then the debit and the record. */
  function Charge(before: Tables, userId: nat, req: Request, randomStrings: RandomStringService,
                  numerics: Arithmetic.Numerics, date: string): (r: Charged)
    ensures r.outcome.Rejected? ==> r.after == before
    ensures r.outcome.Done? <==>
      req.operation != "" && Sufficient(before, userId, req.operation) && Compute(req, randomStrings, numerics).Ok?
    ensures r.outcome.Done? ==> Debited(before, r.after, userId, req.operation, r.outcome.result, date)
    ensures r.outcome.Done? ==> Compute(req, randomStrings, numerics) == Ok(r.outcome.result)
    ensures r.outcome == Rejected(InsufficientBalance) <==>
      req.operation != "" && userId in before.users && req.operation in before.operations && !Sufficient(before, userId, req.operation)
    ensures req.operation == "" ==> r.outcome == Rejected(InvalidRequest)
    ensures req.operation != "" && Sufficient(before, userId, req.operation) && Compute(req, randomStrings, numerics).Err? ==>
      r.outcome == Rejected(Compute(req, randomStrings, numerics).error)
  {
    if req.operation == "" then Charged(Rejected(InvalidRequest), before)
    else if userId !in before.users then Charged(Rejected(UserNotFound), before)
    else if req.operation !in before.operations then Charged(Rejected(InvalidOperationType), before)
    else
      var user := before.users[userId];
      var op := before.operations[req.operation];
      if user.balance < op.cost then Charged(Rejected(InsufficientBalance), before)
      else
        match Compute(req, randomStrings, numerics)
        case Err(f) => Charged(Rejected(f), before)
        case Ok(result) =>
          var balance := user.balance - op.cost;
          Charged(Done(result), before.(
            users := before.users[userId := user.(balance := balance)],
            records := before.records + [Record(before.nextRecordId, op.id, userId, op.cost, balance, result, date)],
            nextRecordId := before.nextRecordId + 1))
  }

  /** An unknown user, then an unknown type, is rejected with nothing changed. */
  lemma ChargeUnknownUserOrType(before: Tables, userId: nat, req: Request, randomStrings: RandomStringService,
                                numerics: Arithmetic.Numerics, date: string)
    requires req.operation != ""
    ensures userId !in before.users ==>
      Charge(before, userId, req, randomStrings, numerics, date) == Charged(Rejected(UserNotFound), before)
    ensures userId in before.users && req.operation !in before.operations ==>
      Charge(before, userId, req, randomStrings, numerics, date) == Charged(Rejected(InvalidOperationType), before)
  {
  }

  /** The balance is checked before the operands: missing operands are reported
      only to a user who can pay, and a balance equal to the cost is enough. */
  lemma ChargeChecksBalanceBeforeOperands(before: Tables, userId: nat, req: Request, randomStrings: RandomStringService,
                                          numerics: Arithmetic.Numerics, date: string)
    requires userId in before.users && req.operation in before.operations && req.operation != ""
    requires Arithmetic.IsBinary(req.operation) && (req.number1.None? || req.number2.None?)
    ensures Charge(before, userId, req, randomStrings, numerics, date) ==
      Charged(Rejected(if Sufficient(before, userId, req.operation) then MissingOperands(BothNumbersRequired) else InsufficientBalance), before)
  {
  }

  lemma ChargeSquareRootNeedsNumber1(before: Tables, userId: nat, req: Request, randomStrings: RandomStringService,
                                     numerics: Arithmetic.Numerics, date: string)
    requires req.operation == SquareRoot && req.number1.None? && Sufficient(before, userId, SquareRoot)
    ensures Charge(before, userId, req, randomStrings, numerics, date) == Charged(Rejected(MissingOperands(Number1Required)), before)
  {
  }

  /** A random string without a length asks the provider for ten characters. */
  lemma ChargeRandomStringDefaultLength(before: Tables, userId: nat, req: Request, randomStrings: RandomStringService,
                                        numerics: Arithmetic.Numerics, date: string)
    requires req.operation == RandomString && req.length.None? && Sufficient(before, userId, RandomString)
    ensures var r := Charge(before, userId, req, randomStrings, numerics, date);
      match randomStrings(10)
      case Ok(s) => r.outcome == Done(s)
      case Err(e) => r == Charged(Rejected(OperationFailed(e)), before)
  {
  }

  /** Division by zero and a negative square root cost nothing and leave no record. */
  lemma ChargeFailedComputation(before: Tables, userId: nat, req: Request, randomStrings: RandomStringService,
                                numerics: Arithmetic.Numerics, date: string)
    requires Sufficient(before, userId, req.operation)
    requires || (req.operation == Division && req.number1.Some? && req.number2 == Some(0.0))
             || (req.operation == SquareRoot && req.number1.Some? && req.number1.value < 0.0)
    ensures var r := Charge(before, userId, req, randomStrings, numerics, date);
      && r.after == before
      && r.outcome == Rejected(OperationFailed(
           if req.operation == Division then Arithmetic.DivisionByZero else Arithmetic.NegativeSquareRoot))
  {
  }

  /** A request that passes every check is charged: the outcome carries the
      computed result and the tables change exactly as `Debited` says. */
  lemma ChargeSucceeds(before: Tables, userId: nat, req: Request, randomStrings: RandomStringService,
                       numerics: Arithmetic.Numerics, date: string)
    requires req.operation != "" && Sufficient(before, userId, req.operation)
    requires Compute(req, randomStrings, numerics).Ok?
    ensures var r := Charge(before, userId, req, randomStrings, numerics, date);
      && r.outcome == Done(Compute(req, randomStrings, numerics).value)
      && r.after.users[userId].balance == before.users[userId].balance - before.operations[req.operation].cost
      && r.after.records == before.records + [r.after.records[|before.records|]]
      && r.after.records[|before.records|].amount == before.operations[req.operation].cost
      && r.after.records[|before.records|].userBalance == r.after.users[userId].balance
  {
  }

  /** Only the charged user's balance and the record log can change. */
  lemma ChargeFrame(before: Tables, userId: nat, req: Request, randomStrings: RandomStringService,
                    numerics: Arithmetic.Numerics, date: string, other: nat)
    requires other != userId && other in before.users
    ensures var r := Charge(before, userId, req, randomStrings, numerics, date);
      && r.after.operations == before.operations
      && r.after.users.Keys == before.users.Keys
      && r.after.users[other] == before.users[other]
      && r.after.records[..|before.records|] == before.records
  {
  }

  /** A charge keeps usernames unique, keys in place and record ids distinct. */
  lemma ChargeKeepsConsistent(before: Tables, userId: nat, req: Request, randomStrings: RandomStringService,
                              numerics: Arithmetic.Numerics, date: string)
    requires Consistent(before)
    ensures Consistent(Charge(before, userId, req, randomStrings, numerics, date).after)
  {
    var r := Charge(before, userId, req, randomStrings, numerics, date);
    if r.outcome.Done? {
      var after := r.after;
      assert forall u :: u in after.users ==> after.users[u].username == before.users[u].username;
      assert forall i :: 0 <= i < |before.records| ==> after.records[i] == before.records[i];
    }
  }

  /** Dividing 6 by 3 at a price of 2.00 from a balance of 100.00 returns the
      rendered 2, leaves 98.00 and logs one record of 2.00. */
  lemma ChargeDivisionScenario(before: Tables, randomStrings: RandomStringService,
                               numerics: Arithmetic.Numerics, date: string)
    requires 1 in before.users && before.users[1].balance == 10000
    requires Division in before.operations && before.operations[Division].cost == 200
    ensures var r := Charge(before, 1, Request(Division, Some(6.0), Some(3.0), None), randomStrings, numerics, date);
      && r.outcome == Done(numerics.formatFloat(2.0))
      && r.after.users[1].balance == 9800
      && |r.after.records| == |before.records| + 1
      && r.after.records[|before.records|].amount == 200
      && r.after.records[|before.records|].operationResult == numerics.formatFloat(2.0)
  {
    assert Arithmetic.Calculate(Division, 6.0, 3.0) == Ok(2.0);
  }

  /** A balance of 1.00 cannot pay for a multiplication priced 1.50. */
  lemma ChargeInsufficientScenario(before: Tables, req: Request, randomStrings: RandomStringService,
                                   numerics: Arithmetic.Numerics, date: string)
    requires 1 in before.users && before.users[1].balance == 100
    requires Multiplication in before.operations && before.operations[Multiplication].cost == 150
    requires req.operation == Multiplication
    ensures Charge(before, 1, req, randomStrings, numerics, date) == Charged(Rejected(InsufficientBalance), before)
  {
  }

  predicate NonNegativeBalances(t: Tables)
  {
    forall u :: u in t.users ==> 0 <= t.users[u].balance
  }

  /** One request in a sequence of requests. */
  datatype Call = Call(userId: nat, request: Request, date: string)

  datatype Ran = Ran(outcomes: seq<Outcome>, after: Tables)

  /** Serves the calls one after another. */
  function Run(before: Tables, calls: seq<Call>, randomStrings: RandomStringService, numerics: Arithmetic.Numerics): (r: Ran)
    ensures |r.outcomes| == |calls|
    decreases |calls|
  {
    if calls == [] then Ran([], before)
    else
      var first := Charge(before, calls[0].userId, calls[0].request, randomStrings, numerics, calls[0].date);
      var rest := Run(first.after, calls[1..], randomStrings, numerics);
      Ran([first.outcome] + rest.outcomes, rest.after)
  }

  /** Starting from non-negative balances, no sequence of requests drives any
      balance below zero: every debit is guarded by the balance check. */
  lemma {:induction false} RunKeepsBalancesNonNegative(before: Tables, calls: seq<Call>,
                                                       randomStrings: RandomStringService, numerics: Arithmetic.Numerics)
    requires NonNegativeBalances(before)
    ensures NonNegativeBalances(Run(before, calls, randomStrings, numerics).after)
    decreases |calls|
  {
    if calls != [] {
      var first := Charge(before, calls[0].userId, calls[0].request, randomStrings, numerics, calls[0].date);
      assert NonNegativeBalances(first.after);
      RunKeepsBalancesNonNegative(first.after, calls[1..], randomStrings, numerics);
    }
  }

  /** What the successful calls of `userId` among `calls` cost, at catalog prices. */
  function Spent(operations: map<string, Operation>, calls: seq<Call>, outcomes: seq<Outcome>, userId: nat): Cents
    requires |outcomes| == |calls|
    decreases |calls|
  {
    if calls == [] then 0
    else
      var here := if outcomes[0].Done? && calls[0].userId == userId && calls[0].request.operation in operations
                  then operations[calls[0].request.operation].cost else 0;
      here + Spent(operations, calls[1..], outcomes[1..], userId)
  }

  function Successes(outcomes: seq<Outcome>): nat
  {
    if outcomes == [] then 0 else (if outcomes[0].Done? then 1 else 0) + Successes(outcomes[1..])
  }

  /** Over any sequence of requests a user's final balance is the initial one
      minus the prices of that user's successful requests, the catalog is
      unchanged, and the log grows by exactly one record per success. */
  lemma {:induction false} RunAccounting(before: Tables, calls: seq<Call>, randomStrings: RandomStringService,
                                         numerics: Arithmetic.Numerics, userId: nat)
    requires userId in before.users
    ensures var r := Run(before, calls, randomStrings, numerics);
      && r.after.operations == before.operations
      && userId in r.after.users
      && r.after.users[userId].balance == before.users[userId].balance - Spent(before.operations, calls, r.outcomes, userId)
      && |r.after.records| == |before.records| + Successes(r.outcomes)
      && r.after.records[..|before.records|] == before.records
    decreases |calls|
  {
    if calls != [] {
      var first := Charge(before, calls[0].userId, calls[0].request, randomStrings, numerics, calls[0].date);
      RunAccounting(first.after, calls[1..], randomStrings, numerics, userId);
      var r := Run(before, calls, randomStrings, numerics);
      var rest := Run(first.after, calls[1..], randomStrings, numerics);
      assert r.outcomes[1..] == rest.outcomes;
      assert r.outcomes[0] == first.outcome;
      assert |first.after.records| == |before.records| + (if first.outcome.Done? then 1 else 0);
      assert first.after.records[..|before.records|] == before.records;
      assert rest.after.records[..|first.after.records|] == first.after.records;
      assert r.after.records[..|before.records|] == rest.after.records[..|first.after.records|][..|before.records|];
    }
  }

  /** How many of `records` belong to user `u`. */
  function CountOwned(records: seq<Record>, u: nat): nat
  {
    if records == [] then 0
    else CountOwned(records[..|records| - 1], u) + (if records[|records| - 1].userId == u then 1 else 0)
  }

  /** The amounts charged on the records of user `u`, summed. */
  function PaidBy(records: seq<Record>, u: nat): Cents
  {
    if records == [] then 0
    else PaidBy(records[..|records| - 1], u) + (if records[|records| - 1].userId == u then records[|records| - 1].amount else 0)
  }

  /** How many of the calls made by user `u` succeeded. */
  function UserSuccesses(calls: seq<Call>, outcomes: seq<Outcome>, u: nat): nat
    requires |outcomes| == |calls|
    decreases |calls|
  {
    if calls == [] then 0
    else (if outcomes[0].Done? && calls[0].userId == u then 1 else 0) + UserSuccesses(calls[1..], outcomes[1..], u)
  }

  /** Per user, over any sequence of requests: the user's records grow by one
      per successful request of theirs, and the amounts on those new records
      add up to exactly what was debited from them. */
  lemma {:induction false} RunPerUserLedger(before: Tables, calls: seq<Call>, randomStrings: RandomStringService,
                                            numerics: Arithmetic.Numerics, u: nat)
    ensures var r := Run(before, calls, randomStrings, numerics);
      && CountOwned(r.after.records, u) == CountOwned(before.records, u) + UserSuccesses(calls, r.outcomes, u)
      && PaidBy(r.after.records, u) == PaidBy(before.records, u) + Spent(before.operations, calls, r.outcomes, u)
    decreases |calls|
  {
    if calls != [] {
      var first := Charge(before, calls[0].userId, calls[0].request, randomStrings, numerics, calls[0].date);
      RunPerUserLedger(first.after, calls[1..], randomStrings, numerics, u);
      var r := Run(before, calls, randomStrings, numerics);
      var rest := Run(first.after, calls[1..], randomStrings, numerics);
      assert r.outcomes[1..] == rest.outcomes;
      assert r.outcomes[0] == first.outcome;
      assert first.after.operations == before.operations;
      if first.outcome.Done? {
        var n := |before.records|;
        assert first.after.records[..n] == before.records;
        assert first.after.records[n].userId == calls[0].userId;
        assert first.after.records[n].amount == before.operations[calls[0].request.operation].cost;
      }
    }
  }

  // ----- Listing records -----

  /** Text contains `search` as a contiguous piece. */
  predicate Contains(text: string, search: string)
  {
    exists i :: 0 <= i <= |text| && OccursAt(text, search, i)
  }

  predicate OccursAt(text: string, search: string, i: nat)
  {
    i + |search| <= |text| && text[i..i + |search|] == search
  }

  /** The listing filter: the caller's records, and only those whose result
      contains `search` when a search is given. */
  predicate Selected(r: Record, userId: nat, search: string)
  {
    r.userId == userId && (search != "" ==> Contains(r.operationResult, search))
  }

  function Matching(records: seq<Record>, userId: nat, search: string): (m: seq<Record>)
    ensures |m| <= |records|
    ensures forall r :: r in m <==> r in records && Selected(r, userId, search)
    ensures |records| == 1 ==> m == if Selected(records[0], userId, search) then records else []
  {
    if records == [] then []
    else (if Selected(records[0], userId, search) then [records[0]] else []) + Matching(records[1..], userId, search)
  }

  /** The filter distributes over concatenation; with the one-record case this
      makes it an order-preserving filter that keeps each selected record once. */
  lemma {:induction false} MatchingAppend(a: seq<Record>, b: seq<Record>, userId: nat, search: string)
    ensures Matching(a + b, userId, search) == Matching(a, userId, search) + Matching(b, userId, search)
    decreases |a|
  {
    if a == [] {
      assert a + b == b;
    } else {
      assert (a + b)[0] == a[0];
      assert (a + b)[1..] == a[1..] + b;
      MatchingAppend(a[1..], b, userId, search);
    }
  }

  /** How many matching records precede the page; a non-positive offset means none. */
  function Skipped(page: int, limit: int): nat
  {
    var offset := (page - 1) * limit;
    if offset > 0 then offset else 0
  }

  /** The records of one page: at most `limit`, starting after the skipped ones. */
  function PageOf(m: seq<Record>, page: int, limit: int): (p: seq<Record>)
    requires limit > 0
    ensures |p| <= limit
    ensures |p| == if Skipped(page, limit) < |m| then (if limit < |m| - Skipped(page, limit) then limit else |m| - Skipped(page, limit)) else 0
    ensures forall i :: 0 <= i < |p| ==> Skipped(page, limit) + i < |m| && p[i] == m[Skipped(page, limit) + i]
  {
    var start := if Skipped(page, limit) < |m| then Skipped(page, limit) else |m|;
    var end := if limit < |m| - start then start + limit else |m|;
    m[start..end]
  }

  /** The page count reported with a listing: the least number of pages of
      `limit` records that hold `count` records. */
  function TotalPages(count: nat, limit: int): (n: int)
    requires limit > 0
    ensures 0 <= n
    ensures count == 0 ==> n == 0
    ensures count <= n * limit
    ensures 0 < n ==> (n - 1) * limit < count
  {
    var n := (count + limit - 1) / limit;
    assert n * limit + (count + limit - 1) % limit == count + limit - 1;
    n
  }

  /** Every matching record is shown on a page between 1 and TotalPages: the
      record at position k is on page k / limit + 1. */
  lemma {:induction false} PagesCoverMatching(m: seq<Record>, limit: int, k: nat)
    requires limit > 0 && k < |m|
    ensures var page := k / limit + 1;
      && 1 <= page <= TotalPages(|m|, limit)
      && Skipped(page, limit) <= k
      && PageOf(m, page, limit)[k - Skipped(page, limit)] == m[k]
  {
    var q := k / limit;
    assert q * limit + k % limit == k;
    assert Skipped(q + 1, limit) == q * limit;
    var n := TotalPages(|m|, limit);
    FactorBelow(q, n, limit);
  }

  /** Cancelling a positive factor keeps a strict order. */
  lemma FactorBelow(a: int, b: int, c: int)
    requires 0 < c && a * c < b * c
    ensures a < b
  {
    assert (b - a) * c == b * c - a * c;
  }

  /** A record as a listing shows it: the operation is named by its type. */
  datatype RecordView = RecordView(id: nat, amount: Cents, date: string, result: string, operation: string)

  /** The type of the catalog entry with key `operationId`; empty when none has it. */
  function OperationKind(operations: map<string, Operation>, operationId: nat): (kind: string)
    requires UniqueOperationIds(operations)
    ensures (exists t :: t in operations && operations[t].id == operationId) ==>
      kind in operations && operations[kind].id == operationId
    ensures !(exists t :: t in operations && operations[t].id == operationId) ==> kind == ""
  {
    if exists t :: t in operations && operations[t].id == operationId then
      var t :| t in operations && operations[t].id == operationId; t
    else ""
  }

  function View(operations: map<string, Operation>, r: Record): (v: RecordView)
    requires UniqueOperationIds(operations)
    ensures v.id == r.id && v.amount == r.amount && v.date == r.date && v.result == r.operationResult
    ensures (exists t :: t in operations && operations[t].id == r.operationId) ==>
      v.operation in operations && operations[v.operation].id == r.operationId
  {
    RecordView(r.id, r.amount, r.date, r.operationResult, OperationKind(operations, r.operationId))
  }

  // ----- Deleting a record -----

  datatype DeleteOutcome = Deleted | RecordNotFound

  /** The position of the record with key `recordId` if it belongs to `userId`. */
  function IndexOfOwned(records: seq<Record>, userId: nat, recordId: nat): (r: Option<nat>)
    ensures r.Some? ==> r.value < |records| && records[r.value].id == recordId && records[r.value].userId == userId
    ensures r.None? ==> forall i :: 0 <= i < |records| ==> !(records[i].id == recordId && records[i].userId == userId)
  {
    if records == [] then None
    else if records[0].id == recordId && records[0].userId == userId then Some(0)
    else match IndexOfOwned(records[1..], userId, recordId)
      case Some(i) => Some(i + 1)
      case None => None
  }

  datatype Removal = Removal(outcome: DeleteOutcome, after: Tables)

  /** Deleting a record by key on behalf of `userId`. */
  function Delete(before: Tables, userId: nat, recordId: nat): (r: Removal)
    ensures r.after.users == before.users && r.after.operations == before.operations
    ensures r.outcome == Deleted <==>
      exists i :: 0 <= i < |before.records| && before.records[i].id == recordId && before.records[i].userId == userId
    ensures r.outcome == RecordNotFound ==> r.after == before
    ensures r.outcome == Deleted ==> |r.after.records| == |before.records| - 1
  {
    match IndexOfOwned(before.records, userId, recordId)
    case Some(i) => Removal(Deleted, before.(records := before.records[..i] + before.records[i + 1..]))
    case None => Removal(RecordNotFound, before)
  }

  /** Removing position `i` shifts the later records down by one. */
  lemma RemoveAt(rs: seq<Record>, i: nat)
    requires i < |rs|
    ensures |rs[..i] + rs[i + 1..]| == |rs| - 1
    ensures forall j :: 0 <= j < i ==> (rs[..i] + rs[i + 1..])[j] == rs[j]
    ensures forall j :: i < j < |rs| ==> (rs[..i] + rs[i + 1..])[j - 1] == rs[j]
  {
  }

  /** With distinct record keys, a deletion removes exactly the owned record with
      that key: no record with the key is left, and every other record stays. */
  lemma DeleteRemovesExactlyOne(before: Tables, userId: nat, recordId: nat)
    requires UniqueRecordIds(before.records, before.nextRecordId)
    ensures var after := Delete(before, userId, recordId);
      && (after.outcome == Deleted ==> forall x :: x in after.after.records ==> x.id != recordId)
      && (forall x :: x in before.records && !(x.id == recordId && x.userId == userId) ==> x in after.after.records)
      && (forall x :: x in after.after.records ==> x in before.records)
  {
    var rs := before.records;
    var found := IndexOfOwned(rs, userId, recordId);
    if found.Some? {
      RemovedExactly(rs, found.value, before.nextRecordId);
    }
  }

  lemma RemovedExactly(rs: seq<Record>, i: nat, nextId: nat)
    requires i < |rs| && UniqueRecordIds(rs, nextId)
    ensures forall x :: x in rs[..i] + rs[i + 1..] ==> x in rs && x.id != rs[i].id
    ensures forall x :: x in rs && x != rs[i] ==> x in rs[..i] + rs[i + 1..]
  {
    var after := rs[..i] + rs[i + 1..];
    RemoveAt(rs, i);
    forall x | x in rs && x != rs[i] ensures x in after {
      var j :| 0 <= j < |rs| && rs[j] == x;
      if j < i {
        assert after[j] == x;
      } else {
        assert after[j - 1] == x;
      }
    }
    forall x | x in after ensures x in rs && x.id != rs[i].id {
      var j :| 0 <= j < |after| && after[j] == x;
      var k := if j < i then j else j + 1;
      assert after[j] == rs[k] && k != i;
    }
  }

  lemma DeleteKeepsConsistent(before: Tables, userId: nat, recordId: nat)
    requires Consistent(before)
    ensures Consistent(Delete(before, userId, recordId).after)
  {
    var rs := before.records;
    match IndexOfOwned(rs, userId, recordId)
    case None =>
    case Some(i) =>
      var after := rs[..i] + rs[i + 1..];
      RemoveAt(rs, i);
      forall a, b | 0 <= a < |after| && 0 <= b < |after| && after[a].id == after[b].id ensures a == b {
        var a', b' := if a < i then a else a + 1, if b < i then b else b + 1;
        assert after[a] == rs[a'] && after[b] == rs[b'];
      }
  }
}
