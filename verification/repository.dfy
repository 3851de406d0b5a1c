/**
 The customers table as a map from id to row, and the repository's
 statements as functions from the table before to the table after and the
 error the Go method returns. What the database driver does beyond the rows
 (a failed statement, a failed row count) is an explicit input.
 */
module Repository {
  import opened Wrappers
  import opened Models

  /** The customers table, keyed by its id column. */
  type Store = map<Uuid, Customer>

  /** Every row sits under its own id. */
  predicate Keyed(db: Store) {
    forall k :: k in db ==> db[k].id == k
  }

  /** How the driver answers one call. */
  datatype Driver =
    | Healthy
    | StatementFails(message: string)   // ExecContext / GetContext returns an error
    | RowCountFails(message: string)    // the statement ran, then RowsAffected returns an error

  /** The table after a write, and the error the write returned. */
  datatype Written = Written(db: Store, result: Result<(), Error>)

  const CreateOp := "repository.customer.Create"
  const GetByIdOp := "repository.customer.GetByID"
  const GetByUserIdOp := "repository.customer.GetByUserID"
  const GetAllOp := "repository.customer.GetAll"
  const UpdateOp := "repository.customer.Update"
  const DeleteOp := "repository.customer.Delete"

  /**
   Repository.Create: insert one row. The insert names every column except
   created_at, which the table fills in (`createdAt` is that default). The id
   is the table's key, so inserting an id that is already there fails.
   */
  function Create(db: Store, c: Customer, createdAt: Timestamp, driver: Driver): (r: Written)
    ensures r.result.Ok? <==> !driver.StatementFails? && c.id !in db
    ensures r.result.Ok? ==> r.db == db[c.id := c.(createdAt := createdAt)]
    ensures r.result.Err? ==> r.db == db && !IsNotFound(r.result.error)
    ensures Keyed(db) ==> Keyed(r.db)
  {
    if driver.StatementFails? then Written(db, Err(Wrapped(CreateOp, Driver(driver.message))))
    else if c.id in db then Written(db, Err(Wrapped(CreateOp, DuplicateKey)))
    else Written(db[c.id := c.(createdAt := createdAt)], Ok(()))
  }

  /** Repository.GetByID: the row with that id; "no rows" becomes ErrUserNotFound. */
  function GetById(db: Store, id: Uuid, driver: Driver): (r: Result<Customer, Error>)
    ensures r.Ok? <==> !driver.StatementFails? && id in db
    ensures r.Ok? ==> r.value == db[id]
    ensures r.Err? ==> (IsNotFound(r.error) <==> id !in db && !driver.StatementFails?)
  {
    if driver.StatementFails? then Err(Wrapped(GetByIdOp, Driver(driver.message)))
    else if id !in db then Err(UserNotFound)
    else Ok(db[id])
  }

  /** Each id of the table appears exactly once: an order in which the database returns the rows. */
  predicate IsScan(db: Store, scan: seq<Uuid>) {
    && (forall i :: 0 <= i < |scan| ==> scan[i] in db)
    && (forall k :: k in db ==> k in scan)
    && (forall i, j :: 0 <= i < j < |scan| ==> scan[i] != scan[j])
  }

  /** A scan lists as many rows as the table holds. */
  lemma {:induction false} ScanLength(db: Store, scan: seq<Uuid>)
    requires IsScan(db, scan)
    ensures |scan| == |db|
    decreases |scan|
  {
    if scan == [] {
      assert db.Keys == {};
    } else {
      var k := scan[0];
      var rest := scan[1..];
      var db' := db - {k};
      assert forall i :: 0 <= i < |rest| ==> rest[i] == scan[i + 1];
      assert forall i :: 0 <= i < |rest| ==> rest[i] in db';
      forall j | j in db' ensures j in rest {
        var i :| 0 <= i < |scan| && scan[i] == j;
        assert i != 0;
        assert rest[i - 1] == j;
      }
      ScanLength(db', rest);
      assert db'.Keys == db.Keys - {k};
    }
  }

  /** The first row in `scan` whose user_id is `userId`. */
  function FirstOfUser(db: Store, scan: seq<Uuid>, userId: Uuid): (r: Option<Customer>)
    requires forall i :: 0 <= i < |scan| ==> scan[i] in db
    ensures r.Some? ==> r.value.userId == userId && exists i :: 0 <= i < |scan| && r.value == db[scan[i]]
    ensures r.None? <==> forall i :: 0 <= i < |scan| ==> db[scan[i]].userId != userId
  {
    if scan == [] then None
    else if db[scan[0]].userId == userId then Some(db[scan[0]])
    else
      var r := FirstOfUser(db, scan[1..], userId);
      assert r.Some? ==> exists i :: 0 <= i < |scan| && r.value == db[scan[i]] by {
        if r.Some? {
          var i :| 0 <= i < |scan| - 1 && r.value == db[scan[1..][i]];
          assert r.value == db[scan[i + 1]];
        }
      }
      r
  }

  /**
   Repository.GetByUserID: a row with that user_id, the first one the
   database returns; "no rows" becomes ErrUserNotFound.
   */
  function GetByUserId(db: Store, scan: seq<Uuid>, userId: Uuid, driver: Driver): (r: Result<Customer, Error>)
    requires IsScan(db, scan)
    ensures r.Ok? ==> r.value.userId == userId && r.value in db.Values
    ensures r.Ok? <==> !driver.StatementFails? && exists k :: k in db && db[k].userId == userId
    ensures r.Err? ==> (IsNotFound(r.error) <==> !driver.StatementFails? && forall k :: k in db ==> db[k].userId != userId)
  {
    if driver.StatementFails? then Err(Wrapped(GetByUserIdOp, Driver(driver.message)))
    else
      var found := FirstOfUser(db, scan, userId);
      if found.None? then
        assert forall k :: k in db ==> db[k].userId != userId by {
          forall k | k in db ensures db[k].userId != userId {
            var i :| 0 <= i < |scan| && scan[i] == k;
          }
        }
        Err(UserNotFound)
      else
        Ok(found.value)
  }

  /**
   The listing the service's GetAll call receives: every row once, in scan
   order. The repository file defines no GetAll method; this is the
   unpaginated select of all rows that the service interface asks for.
   */
  function GetAll(db: Store, scan: seq<Uuid>, driver: Driver): (r: Result<seq<Customer>, Error>)
    requires IsScan(db, scan)
    ensures r.Ok? <==> !driver.StatementFails?
    ensures r.Ok? ==> |r.value| == |db|
    ensures r.Ok? ==> forall c :: c in r.value <==> c in db.Values
    ensures r.Err? ==> !IsNotFound(r.error)
  {
    if driver.StatementFails? then Err(Wrapped(GetAllOp, Driver(driver.message)))
    else
      ScanLength(db, scan);
      var rows := seq(|scan|, i requires 0 <= i < |scan| => db[scan[i]]);
      assert forall c :: c in db.Values ==> c in rows by {
        forall c | c in db.Values ensures c in rows {
          var k :| k in db && db[k] == c;
          var i :| 0 <= i < |scan| && scan[i] == k;
          assert rows[i] == c;
        }
      }
      Ok(rows)
  }

  /**
   Repository.Update: overwrite first_name, last_name, gender, timezone and
   birthday of the row with that id. Zero affected rows becomes
   ErrUserNotFound; a failed row count is reported after the row has changed.
   */
  function Update(db: Store, id: Uuid, c: Customer, driver: Driver): (r: Written)
    ensures r.result.Ok? <==> driver.Healthy? && id in db
    ensures r.result.Err? ==> (IsNotFound(r.result.error) <==> driver.Healthy? && id !in db)
    ensures r.db.Keys == db.Keys
    ensures forall k :: k in db && k != id ==> r.db[k] == db[k]
    ensures id in db && !driver.StatementFails? ==>
      && r.db[id].id == db[id].id
      && r.db[id].userId == db[id].userId
      && r.db[id].createdAt == db[id].createdAt
      && r.db[id].firstName == c.firstName
      && r.db[id].lastName == c.lastName
      && r.db[id].gender == c.gender
      && r.db[id].timezone == c.timezone
      && r.db[id].birthday == c.birthday
    ensures id !in db || driver.StatementFails? ==> r.db == db
    ensures Keyed(db) ==> Keyed(r.db)
  {
    if driver.StatementFails? then Written(db, Err(Wrapped(UpdateOp, Driver(driver.message))))
    else
      var db' := if id in db then
          db[id := db[id].(firstName := c.firstName, lastName := c.lastName, gender := c.gender,
                           timezone := c.timezone, birthday := c.birthday)]
        else db;
      if driver.RowCountFails? then Written(db', Err(Wrapped(UpdateOp, Driver(driver.message))))
      else if id !in db then Written(db', Err(UserNotFound))
      else Written(db', Ok(()))
  }

  /**
   Repository.Delete: remove the row with that id. Zero affected rows becomes
   ErrUserNotFound; a failed row count is reported after the row is gone.
   */
  function Delete(db: Store, id: Uuid, driver: Driver): (r: Written)
    ensures r.result.Ok? <==> driver.Healthy? && id in db
    ensures r.result.Err? ==> (IsNotFound(r.result.error) <==> driver.Healthy? && id !in db)
    ensures r.db == if driver.StatementFails? then db else db - {id}
    ensures id !in db ==> r.db == db
    ensures Keyed(db) ==> Keyed(r.db)
  {
    if driver.StatementFails? then Written(db, Err(Wrapped(DeleteOp, Driver(driver.message))))
    else
      var db' := db - {id};
      if driver.RowCountFails? then Written(db', Err(Wrapped(DeleteOp, Driver(driver.message))))
      else if id !in db then Written(db', Err(UserNotFound))
      else Written(db', Ok(()))
  }

  /** Deleting a row just created, before anything else, leaves the table as it was. */
  lemma DeleteUndoesCreate(db: Store, c: Customer, createdAt: Timestamp, driver: Driver, later: Driver)
    requires Create(db, c, createdAt, driver).result.Ok?
    requires !later.StatementFails?
    ensures Delete(Create(db, c, createdAt, driver).db, c.id, later).db == db
  {
    assert db[c.id := c.(createdAt := createdAt)] - {c.id} == db;
  }

  /** A read after a successful update sees the five columns it wrote and the three it kept. */
  lemma UpdateThenGet(db: Store, id: Uuid, c: Customer, driver: Driver, later: Driver)
    requires Update(db, id, c, driver).result.Ok?
    requires !later.StatementFails?
    ensures GetById(Update(db, id, c, driver).db, id, later) ==
      Ok(db[id].(firstName := c.firstName, lastName := c.lastName, gender := c.gender,
                 timezone := c.timezone, birthday := c.birthday))
  {
  }
}
