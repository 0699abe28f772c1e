/** The store behind the service: the three tables as fields of one object,
    with catalog seeding (insert-if-absent by type) and user insertion. */
module Database {
  import opened Wrappers
  import opened Models

  /** The seed list, in the order it is applied, with prices in cents. */
  const Seeds: seq<(string, Cents)> := [
    (Addition, 100), (Subtraction, 100), (Multiplication, 150),
    (Division, 200), (SquareRoot, 250), (RandomString, 250)]

  /** The operations table with its next auto-increment key. */
  datatype Catalog = Catalog(operations: map<string, Operation>, nextId: nat)

  ghost predicate WellKeyed(c: Catalog)
  {
    OperationsKeyed(c.operations, c.nextId) && UniqueOperationIds(c.operations)
  }

  /** One `FirstOrCreate` by type: an existing entry is kept as it is, an absent
      type is inserted with the given cost under the next key. */
  function FirstOrCreate(c: Catalog, kind: string, cost: Cents): (r: Catalog)
    ensures kind in r.operations
    ensures kind !in c.operations ==> r.operations[kind].kind == kind && r.operations[kind].id == c.nextId && r.nextId == c.nextId + 1
    ensures r.operations[kind].cost == if kind in c.operations then c.operations[kind].cost else cost
    ensures forall t :: t != kind ==> (t in r.operations <==> t in c.operations)
    ensures forall t :: t in c.operations ==> t in r.operations && r.operations[t] == c.operations[t]
    ensures c.nextId <= r.nextId
    ensures kind in c.operations ==> r.nextId == c.nextId
  {
    if kind in c.operations then c
    else Catalog(c.operations[kind := Operation(c.nextId, kind, cost)], c.nextId + 1)
  }

  /** Applies `FirstOrCreate` to each entry in turn. */
  function SeedAll(c: Catalog, entries: seq<(string, Cents)>): Catalog
    decreases |entries|
  {
    if entries == [] then c
    else SeedAll(FirstOrCreate(c, entries[0].0, entries[0].1), entries[1..])
  }

  function Seed(c: Catalog): Catalog
  {
    SeedAll(c, Seeds)
  }

  /** Seeding only adds the listed types and never changes an existing entry. */
  lemma {:induction false} SeedAllKeepsExisting(c: Catalog, entries: seq<(string, Cents)>)
    ensures forall t :: t in c.operations ==> t in SeedAll(c, entries).operations && SeedAll(c, entries).operations[t] == c.operations[t]
    ensures forall t :: t in SeedAll(c, entries).operations <==> t in c.operations || exists i :: 0 <= i < |entries| && entries[i].0 == t
    ensures c.nextId <= SeedAll(c, entries).nextId
    decreases |entries|
  {
    if entries != [] {
      var c' := FirstOrCreate(c, entries[0].0, entries[0].1);
      SeedAllKeepsExisting(c', entries[1..]);
      var r := SeedAll(c, entries);
      forall t
        ensures t in r.operations <==> t in c.operations || exists i :: 0 <= i < |entries| && entries[i].0 == t
      {
        if exists i :: 0 <= i < |entries| && entries[i].0 == t {
          var i :| 0 <= i < |entries| && entries[i].0 == t;
          if i > 0 { assert entries[1..][i - 1].0 == t; }
        }
        if exists i :: 0 <= i < |entries[1..]| && entries[1..][i].0 == t {
          var i :| 0 <= i < |entries[1..]| && entries[1..][i].0 == t;
          assert entries[i + 1].0 == t;
        }
      }
    }
  }

  /** Seeding a catalog that already holds every listed type changes nothing. */
  lemma {:induction false} SeedAllWhenPresent(c: Catalog, entries: seq<(string, Cents)>)
    requires forall i :: 0 <= i < |entries| ==> entries[i].0 in c.operations
    ensures SeedAll(c, entries) == c
    decreases |entries|
  {
    if entries != [] {
      SeedAllWhenPresent(c, entries[1..]);
    }
  }

  /** A listed type that was absent, and is listed once, gets its listed price. */
  lemma {:induction false} SeedAllFreshCost(c: Catalog, entries: seq<(string, Cents)>, k: nat)
    requires k < |entries| && entries[k].0 !in c.operations
    requires forall i :: 0 <= i < |entries| && i != k ==> entries[i].0 != entries[k].0
    ensures entries[k].0 in SeedAll(c, entries).operations
    ensures SeedAll(c, entries).operations[entries[k].0].cost == entries[k].1
    decreases |entries|
  {
    var c' := FirstOrCreate(c, entries[0].0, entries[0].1);
    if k == 0 {
      SeedAllKeepsExisting(c', entries[1..]);
    } else {
      assert entries[1..][k - 1] == entries[k];
      SeedAllFreshCost(c', entries[1..], k - 1);
    }
  }

  /** Seeding keeps every type under its own key and keeps ids distinct. */
  lemma {:induction false} SeedAllWellKeyed(c: Catalog, entries: seq<(string, Cents)>)
    requires WellKeyed(c)
    ensures WellKeyed(SeedAll(c, entries))
    decreases |entries|
  {
    if entries != [] {
      var c' := FirstOrCreate(c, entries[0].0, entries[0].1);
      assert WellKeyed(c') by {
        if entries[0].0 !in c.operations {
          assert forall s :: s in c'.operations && s != entries[0].0 ==> c'.operations[s].id < c.nextId;
        }
      }
      SeedAllWellKeyed(c', entries[1..]);
    }
  }

  /** After seeding, all six operation types are in the catalog. */
  lemma SeedAddsAllTypes(c: Catalog)
    ensures forall i :: 0 <= i < |Seeds| ==> Seeds[i].0 in Seed(c).operations
  {
    SeedAllKeepsExisting(c, Seeds);
    forall i | 0 <= i < |Seeds| ensures Seeds[i].0 in Seed(c).operations {
      assert exists j :: 0 <= j < |Seeds| && Seeds[j].0 == Seeds[i].0;
    }
  }

  /** Entries already present keep their price, and types outside the seed list
      are neither added nor removed. */
  lemma SeedNeverOverwrites(c: Catalog)
    ensures forall t :: t in c.operations ==> t in Seed(c).operations && Seed(c).operations[t] == c.operations[t]
    ensures forall t :: t !in [Addition, Subtraction, Multiplication, Division, SquareRoot, RandomString] ==>
      (t in Seed(c).operations <==> t in c.operations)
  {
    SeedAllKeepsExisting(c, Seeds);
  }

  /** Seeding twice is the same as seeding once. */
  lemma SeedIdempotent(c: Catalog)
    ensures Seed(Seed(c)) == Seed(c)
  {
    SeedAddsAllTypes(c);
    SeedAllWhenPresent(Seed(c), Seeds);
  }

  /** On an empty catalog the seeded prices are 1.00, 1.00, 1.50, 2.00, 2.50
      and 2.50, all non-negative. */
  lemma SeedEmptyPrices(nextId: nat)
    ensures var ops := Seed(Catalog(map[], nextId)).operations;
      && Addition in ops && ops[Addition].cost == 100
      && Subtraction in ops && ops[Subtraction].cost == 100
      && Multiplication in ops && ops[Multiplication].cost == 150
      && Division in ops && ops[Division].cost == 200
      && SquareRoot in ops && ops[SquareRoot].cost == 250
      && RandomString in ops && ops[RandomString].cost == 250
      && forall t :: t in ops ==> 0 <= ops[t].cost
  {
    var c := Catalog(map[], nextId);
    SeedAllFreshCost(c, Seeds, 0);
    SeedAllFreshCost(c, Seeds, 1);
    SeedAllFreshCost(c, Seeds, 2);
    SeedAllFreshCost(c, Seeds, 3);
    SeedAllFreshCost(c, Seeds, 4);
    SeedAllFreshCost(c, Seeds, 5);
    SeedAllKeepsExisting(c, Seeds);
  }

  /** The database: users keyed by id, the catalog keyed by type, and records in
      insertion order (a deleted record is no longer visible). */
  class Store {
    var users: map<nat, User>
    var operations: map<string, Operation>
    var records: seq<Record>
    var nextUserId: nat
    var nextOperationId: nat
    var nextRecordId: nat

    function Snapshot(): Tables
      reads this
    {
      Tables(users, operations, records, nextUserId, nextOperationId, nextRecordId)
    }

    ghost predicate Valid()
      reads this
    {
      Consistent(Snapshot())
    }

    /** An empty database; auto-increment keys start at 1. */
    constructor ()
      ensures Valid()
      ensures Snapshot() == Tables(map[], map[], [], 1, 1, 1)
    {
      users, operations, records := map[], map[], [];
      nextUserId, nextOperationId, nextRecordId := 1, 1, 1;
    }

    /** Inserts a user. A username already taken violates the unique constraint
        and inserts nothing; otherwise the new user gets the next id and the
        column defaults for a zero balance or an empty status. */
    method CreateUser(username: string, password: string, status: string, balance: Cents) returns (id: Option<nat>)
      requires Valid()
      modifies this
      ensures Valid()
      ensures id.None? <==> exists u :: u in old(users) && old(users)[u].username == username
      ensures id.None? ==> Snapshot() == old(Snapshot())
      ensures id.Some? ==>
        && id.value == old(nextUserId)
        && users == old(users)[id.value := NewUser(id.value, username, password, status, balance)]
        && nextUserId == old(nextUserId) + 1
        && operations == old(operations) && records == old(records)
        && nextOperationId == old(nextOperationId) && nextRecordId == old(nextRecordId)
    {
      if exists u :: u in users && users[u].username == username {
        return None;
      }
      id := Some(nextUserId);
      users := users[nextUserId := NewUser(nextUserId, username, password, status, balance)];
      nextUserId := nextUserId + 1;
    }

    /** Seeds the catalog: for each listed type, in order, insert it with its
        listed price unless an entry of that type already exists. */
    method SeedOperations()
      requires Valid()
      modifies this
      ensures Valid()
      ensures Catalog(operations, nextOperationId) == Seed(old(Catalog(operations, nextOperationId)))
      ensures users == old(users) && records == old(records)
      ensures nextUserId == old(nextUserId) && nextRecordId == old(nextRecordId)
    {
      SeedAllWellKeyed(Catalog(operations, nextOperationId), Seeds);
      for i := 0 to |Seeds|
        invariant SeedAll(Catalog(operations, nextOperationId), Seeds[i..]) == Seed(old(Catalog(operations, nextOperationId)))
        invariant users == old(users) && records == old(records)
        invariant nextUserId == old(nextUserId) && nextRecordId == old(nextRecordId)
      {
        assert Seeds[i..][1..] == Seeds[i + 1..];
        var c := FirstOrCreate(Catalog(operations, nextOperationId), Seeds[i].0, Seeds[i].1);
        operations, nextOperationId := c.operations, c.nextId;
      }
      assert Seeds[|Seeds|..] == [];
    }
  }
}
