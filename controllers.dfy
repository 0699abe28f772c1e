/** The three handlers as methods over an explicit store: charging for an
    operation, listing the caller's records a page at a time, and deleting one
    of the caller's records. `userId` is the identity the authentication layer
    attached to the request. */
module Controllers {
  import opened Wrappers
  import opened Models
  import Arithmetic
  import opened Database
  import opened Ledger

  class OperationController {
    const randomStringService: RandomStringService
    const numerics: Arithmetic.Numerics

    constructor (randomStringService: RandomStringService, numerics: Arithmetic.Numerics)
      ensures this.randomStringService == randomStringService && this.numerics == numerics
    {
      this.randomStringService := randomStringService;
      this.numerics := numerics;
    }

    /** Serves one operation request: every rejection leaves the store as it
        was, and a success debits the user and appends one record. */
    method PerformOperation(db: Store, userId: nat, req: Request, date: string) returns (outcome: Outcome)
      requires db.Valid()
      modifies db
      ensures db.Valid()
      ensures Charged(outcome, db.Snapshot()) == Charge(old(db.Snapshot()), userId, req, randomStringService, numerics, date)
    {
      ghost var before := db.Snapshot();
      ChargeKeepsConsistent(before, userId, req, randomStringService, numerics, date);
      if req.operation == "" {
        return Rejected(InvalidRequest);
      }
      if userId !in db.users {
        return Rejected(UserNotFound);
      }
      var user := db.users[userId];
      if req.operation !in db.operations {
        return Rejected(InvalidOperationType);
      }
      var operation := db.operations[req.operation];
      if user.balance < operation.cost {
        return Rejected(InsufficientBalance);
      }

      var result: string;
      var computed: Result<string, string>;
      if Arithmetic.IsBinary(req.operation) {
        if req.number1.None? || req.number2.None? {
          return Rejected(MissingOperands(BothNumbersRequired));
        }
        computed := Arithmetic.PerformArithmeticOperation(req.operation, req.number1.value, req.number2.value, numerics);
      } else if req.operation == SquareRoot {
        if req.number1.None? {
          return Rejected(MissingOperands(Number1Required));
        }
        computed := Arithmetic.Sqrt(req.number1.value, numerics);
      } else if req.operation == RandomString {
        var length := DefaultLength;
        if req.length.Some? {
          length := req.length.value;
        }
        computed := randomStringService(length);
      } else {
        return Rejected(UnsupportedOperation);
      }
      if computed.Err? {
        return Rejected(OperationFailed(computed.error));
      }
      result := computed.value;

      user := user.(balance := user.balance - operation.cost);
      db.users := db.users[userId := user];
      var record := Record(db.nextRecordId, operation.id, user.id, operation.cost, user.balance, result, date);
      db.records := db.records + [record];
      db.nextRecordId := db.nextRecordId + 1;
      outcome := Done(result);
    }
  }

  /** Lists the caller's records, filtered by `search`, one page of `limit`
      records, with the number of pages the filtered records fill. */
  method GetRecords(db: Store, userId: nat, page: int, limit: int, search: string) returns (records: seq<RecordView>, totalPages: int)
    requires db.Valid()
    requires limit > 0
    ensures var m := Matching(db.records, userId, search);
      && totalPages == TotalPages(|m|, limit)
      && |records| == |PageOf(m, page, limit)| <= limit
      && forall i :: 0 <= i < |records| ==>
           records[i] == View(db.operations, PageOf(m, page, limit)[i])
           && PageOf(m, page, limit)[i] in db.records
           && Selected(PageOf(m, page, limit)[i], userId, search)
  {
    var matching := Matching(db.records, userId, search);
    totalPages := (|matching| + limit - 1) / limit;
    var found := PageOf(matching, page, limit);

    records := [];
    for i := 0 to |found|
      invariant |records| == i
      invariant forall k :: 0 <= k < i ==> records[k] == View(db.operations, found[k])
    {
      var r := found[i];
      records := records + [RecordView(r.id, r.amount, r.date, r.operationResult, OperationKind(db.operations, r.operationId))];
    }
    forall i | 0 <= i < |found| ensures found[i] in matching {
      assert found[i] == matching[Skipped(page, limit) + i];
    }
  }

  /** Deletes the record with key `recordId` if the caller owns it; the
      balance is never touched. */
  method DeleteRecord(db: Store, userId: nat, recordId: nat) returns (outcome: DeleteOutcome)
    requires db.Valid()
    modifies db
    ensures db.Valid()
    ensures Removal(outcome, db.Snapshot()) == Delete(old(db.Snapshot()), userId, recordId)
  {
    DeleteKeepsConsistent(db.Snapshot(), userId, recordId);
    var found := IndexOfOwned(db.records, userId, recordId);
    if found.None? {
      return RecordNotFound;
    }
    var i := found.value;
    db.records := db.records[..i] + db.records[i + 1..];
    outcome := Deleted;
  }
}
