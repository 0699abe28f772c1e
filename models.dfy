/** The three persisted entities (users, operations, records) and the
    constraints the schema places on them. Money is held in integer cents. */
module Models {

  /** An amount of money in cents; the seeded prices 1.0, 1.5, 2.0 and 2.5
      are exact in this unit. */
  type Cents = int

  // The operation types the service knows.
  const Addition := "addition"
  const Subtraction := "subtraction"
  const Multiplication := "multiplication"
  const Division := "division"
  const SquareRoot := "square_root"
  const RandomString := "random_string"

  /** Column defaults of the users table: 50.00 and "active". */
  const DefaultBalance: Cents := 5000
  const DefaultStatus := "active"

  datatype User = User(id: nat, username: string, password: string, status: string, balance: Cents)

  /** A catalog entry; `kind` is the unique type name of the operation. */
  datatype Operation = Operation(id: nat, kind: string, cost: Cents)

  /** An audit record: references to the operation and the user, and snapshots
      of the amount charged and of the balance right after the charge. Every
      result, numeric or not, is stored as text. */
  datatype Record = Record(
    id: nat,
    operationId: nat,
    userId: nat,
    amount: Cents,
    userBalance: Cents,
    operationResult: string,
    date: string)

  /** The contents of the three tables, with each table's next auto-increment key.
      Users are keyed by id, operations by type, records kept in insertion order. */
  datatype Tables = Tables(
    users: map<nat, User>,
    operations: map<string, Operation>,
    records: seq<Record>,
    nextUserId: nat,
    nextOperationId: nat,
    nextRecordId: nat)

  /** The unique constraint on usernames. */
  predicate UniqueUsernames(users: map<nat, User>)
  {
    forall a, b :: a in users && b in users && users[a].username == users[b].username ==> a == b
  }

  predicate UsersKeyed(users: map<nat, User>, nextId: nat)
  {
    forall id :: id in users ==> users[id].id == id && id < nextId
  }

  /** Every catalog entry sits under its own type, which makes types unique. */
  predicate OperationsKeyed(operations: map<string, Operation>, nextId: nat)
  {
    forall t :: t in operations ==> operations[t].kind == t && operations[t].id < nextId
  }

  predicate UniqueOperationIds(operations: map<string, Operation>)
  {
    forall s, t :: s in operations && t in operations && operations[s].id == operations[t].id ==> s == t
  }

  predicate UniqueRecordIds(records: seq<Record>, nextId: nat)
  {
    && (forall i :: 0 <= i < |records| ==> records[i].id < nextId)
    && (forall i, j :: 0 <= i < |records| && 0 <= j < |records| && records[i].id == records[j].id ==> i == j)
  }

  predicate Consistent(t: Tables)
  {
    && UniqueUsernames(t.users)
    && UsersKeyed(t.users, t.nextUserId)
    && OperationsKeyed(t.operations, t.nextOperationId)
    && UniqueOperationIds(t.operations)
    && UniqueRecordIds(t.records, t.nextRecordId)
  }

  /** Because the catalog is keyed by type, a lookup by type finds at most one
      operation: every operation of that type is the one stored under it. */
  lemma LookupByTypeIsUnique(operations: map<string, Operation>, nextId: nat, kind: string, o: Operation)
    requires OperationsKeyed(operations, nextId)
    requires o in operations.Values && o.kind == kind
    ensures kind in operations && o == operations[kind]
  {
    var t :| t in operations && operations[t] == o;
    assert operations[t].kind == t;
  }

  /** The user a registration inserts: the table defaults replace a zero
      balance and an empty status, as the ORM does for zero-valued fields. */
  function NewUser(id: nat, username: string, password: string, status: string, balance: Cents): (u: User)
    ensures u.id == id && u.username == username && u.password == password
    ensures u.status == DefaultStatus || u.status == status
    ensures u.status == DefaultStatus <==> status == "" || status == DefaultStatus
    ensures u.balance == DefaultBalance || u.balance == balance
    ensures u.balance == DefaultBalance <==> balance == 0 || balance == DefaultBalance
  {
    User(id, username, password,
         if status == "" then DefaultStatus else status,
         if balance == 0 then DefaultBalance else balance)
  }
}
