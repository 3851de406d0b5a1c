/**
 The customer service: validation, identifier and date parsing, and the
 repository calls, composed in the order the Go service makes them. Every
 error it returns wraps the cause with the operation's name.
 */
module Service {
  import opened Wrappers
  import opened Text
  import opened Dates
  import opened Models
  import opened Dto
  import Repo = Repository

  const CreateOp := "service.customer.CreateCustomer"
  const GetOp := "service.customer.GetCustomer"
  const GetAllOp := "service.customer.GetAllCustomers"
  const UpdateOp := "service.customer.UpdateCustomer"

  /** What one request reads from outside the customers table. */
  datatype Env = Env(
    clock: Clock,                       // time.Now(), as the validators see it
    parseUuid: string -> Option<Uuid>,  // uuid.Parse
    freshId: Uuid,                      // uuid.New()
    createdAt: Timestamp,               // the created_at default the database fills in
    read: Repo.Driver,                  // how the driver answers the select
    write: Repo.Driver                  // how the driver answers the insert or update
  )

  /** The table after the call, and what the call returned. */
  datatype Outcome<T> = Outcome(db: Repo.Store, result: Result<T, Error>)

  /** `c` is the record CreateCustomer builds from `req`: fields copied verbatim, timezone defaulted. */
  predicate BuiltFrom(req: CreateRequest, env: Env, c: Customer) {
    && c.id == env.freshId
    && c.firstName == req.firstName
    && c.lastName == req.lastName
    && c.gender == req.gender
    && c.timezone == (if req.timezone == "" then DefaultTimezone else req.timezone)
    && Spells(TrimSpace(req.birthday), c.birthday)
    && env.parseUuid(req.userId) == Some(c.userId)
    && c.createdAt == ZeroTime
  }

  /** The last step of CreateCustomer: build the record from the validated payload and insert it. */
  function Insert(db: Repo.Store, req: CreateRequest, userId: Uuid, env: Env): (r: Outcome<Customer>)
    requires BirthdayDate(req.birthday).Some?
    ensures r.result.Err? ==> r.db == db && !IsNotFound(r.result.error)
    ensures r.result.Ok? <==> env.freshId !in db && !env.write.StatementFails?
    ensures r.result.Ok? ==>
      && r.result.value.id == env.freshId
      && r.result.value.firstName == req.firstName
      && r.result.value.lastName == req.lastName
      && r.result.value.gender == req.gender
      && r.result.value.timezone == req.timezone
      && Spells(TrimSpace(req.birthday), r.result.value.birthday)
      && r.result.value.userId == userId
      && r.result.value.createdAt == ZeroTime
      && r.db == db[env.freshId := r.result.value.(createdAt := env.createdAt)]
    ensures Repo.Keyed(db) ==> Repo.Keyed(r.db)
  {
    match ParseCreateBirthday(req)
    case Err(_) =>
      // validation has already parsed this birthday, so the second parse cannot fail
      assert false;
      Outcome(db, Err(Wrapped(CreateOp + ": invalid birthday", DateSyntax)))
    case Ok(birthday) =>
      var c := Customer(env.freshId, req.firstName, req.lastName, req.gender, req.timezone,
                        birthday, userId, ZeroTime);
      var w := Repo.Create(db, c, env.createdAt, env.write);
      if w.result.Err? then Outcome(w.db, Err(Wrapped(CreateOp, w.result.error)))
      else Outcome(w.db, Ok(c))
  }

  /** Service.CreateCustomer. */
  function CreateCustomer(db: Repo.Store, req: CreateRequest, env: Env): (r: Outcome<Customer>)
    ensures r.result.Err? ==> r.db == db
    ensures r.result.Ok? <==>
      && ValidateCreate(req, env.clock).violation.None?
      && env.parseUuid(req.userId).Some?
      && env.freshId !in db
      && !env.write.StatementFails?
    ensures r.result.Ok? ==>
      && BuiltFrom(req, env, r.result.value)
      && r.db == db[env.freshId := r.result.value.(createdAt := env.createdAt)]
  {
    var checked := ValidateCreate(req, env.clock);
    if checked.violation.Some? then
      Outcome(db, Err(Wrapped(CreateOp, Invalid(checked.violation.value))))
    else
      var req' := checked.request;
      assert req'.userId == req.userId && req'.birthday == req.birthday;
      match env.parseUuid(req'.userId)
      case None => Outcome(db, Err(Wrapped(CreateOp + ": invalid user_id", UuidSyntax)))
      case Some(userId) => Insert(db, req', userId, env)
  }

  /** No failure of create is ever a not-found error. */
  lemma CreateNeverNotFound(db: Repo.Store, req: CreateRequest, env: Env)
    ensures CreateCustomer(db, req, env).result.Err? ==> !IsNotFound(CreateCustomer(db, req, env).result.error)
  {
    var checked := ValidateCreate(req, env.clock);
    if checked.violation.None? {
      assert checked.request.userId == req.userId;
    }
  }

  /** A payload that fails validation is refused with the rule it broke first. */
  lemma CreateReportsViolation(db: Repo.Store, req: CreateRequest, env: Env)
    ensures ValidateCreate(req, env.clock).violation.Some? ==>
      CreateCustomer(db, req, env).result == Err(Wrapped(CreateOp, Invalid(ValidateCreate(req, env.clock).violation.value)))
  {
  }

  /** A valid payload whose user_id is not a UUID is refused as such. */
  lemma CreateReportsBadUserId(db: Repo.Store, req: CreateRequest, env: Env)
    ensures ValidateCreate(req, env.clock).violation.None? && env.parseUuid(req.userId).None? ==>
      CreateCustomer(db, req, env).result == Err(Wrapped(CreateOp + ": invalid user_id", UuidSyntax))
  {
    assert ValidateCreate(req, env.clock).request.userId == req.userId;
  }

  /** Service.GetCustomer. */
  function GetCustomer(db: Repo.Store, id: Uuid, env: Env): (r: Result<Customer, Error>)
    ensures r.Ok? <==> id in db && !env.read.StatementFails?
    ensures r.Ok? ==> r.value == db[id]
    ensures r.Err? ==> (IsNotFound(r.error) <==> id !in db && !env.read.StatementFails?)
  {
    match Repo.GetById(db, id, env.read)
    case Err(e) => Err(Wrapped(GetOp, e))
    case Ok(c) => Ok(c)
  }

  /** Service.GetAllCustomers, over the rows in the order the database returns them. */
  function GetAllCustomers(db: Repo.Store, scan: seq<Uuid>, env: Env): (r: Result<seq<Customer>, Error>)
    requires Repo.IsScan(db, scan)
    ensures r.Ok? <==> !env.read.StatementFails?
    ensures r.Ok? ==> |r.value| == |db| && forall c :: c in r.value <==> c in db.Values
    ensures r.Err? ==> !IsNotFound(r.error)
  {
    match Repo.GetAll(db, scan, env.read)
    case Err(e) => Err(Wrapped(GetAllOp, e))
    case Ok(cs) => Ok(cs)
  }

  /** The supplied value if there is one, else the current one. */
  function Overlay(supplied: Option<string>, current: string): string {
    if supplied.Some? then supplied.value else current
  }

  /** `after` is `before` with exactly the supplied fields of `req` applied. */
  predicate MergedFrom(before: Customer, req: UpdateRequest, after: Customer) {
    && after.id == before.id
    && after.userId == before.userId
    && after.createdAt == before.createdAt
    && (req.firstName.Some? ==> after.firstName == req.firstName.value)
    && (req.firstName.None? ==> after.firstName == before.firstName)
    && (req.lastName.Some? ==> after.lastName == req.lastName.value)
    && (req.lastName.None? ==> after.lastName == before.lastName)
    && (req.gender.Some? ==> after.gender == req.gender.value)
    && (req.gender.None? ==> after.gender == before.gender)
    && (req.timezone.Some? ==> after.timezone == req.timezone.value)
    && (req.timezone.None? ==> after.timezone == before.timezone)
    && (req.birthday.Some? ==> Spells(TrimSpace(req.birthday.value), after.birthday))
    && (req.birthday.None? ==> after.birthday == before.birthday)
  }

  /** The record UpdateCustomer writes back: the fetched row with the supplied fields applied. */
  function Merge(existing: Customer, req: UpdateRequest): (r: Customer)
    requires req.birthday.Some? ==> BirthdayDate(req.birthday.value).Some?
    ensures MergedFrom(existing, req, r)
  {
    var named := existing.(
      firstName := Overlay(req.firstName, existing.firstName),
      lastName := Overlay(req.lastName, existing.lastName),
      gender := Overlay(req.gender, existing.gender),
      timezone := Overlay(req.timezone, existing.timezone));
    match ParseUpdateBirthday(req)
    case Err(_) =>
      // validation has already parsed this birthday, so the second parse cannot fail
      assert false;
      named
    case Ok(None) => named
    case Ok(Some(birthday)) => named.(birthday := birthday)
  }

  /** The last step of UpdateCustomer: write the merged record back. */
  function Rewrite(db: Repo.Store, id: Uuid, req: UpdateRequest, env: Env): (r: Outcome<Customer>)
    requires id in db
    requires req.birthday.Some? ==> BirthdayDate(req.birthday.value).Some?
    ensures r.result.Err? ==> !IsNotFound(r.result.error)
    ensures r.result.Ok? <==> env.write.Healthy?
    ensures r.result.Ok? ==> MergedFrom(db[id], req, r.result.value) && r.db == db[id := r.result.value]
    ensures r.db.Keys == db.Keys
    ensures r.db == db || (MergedFrom(db[id], req, r.db[id]) && r.db == db[id := r.db[id]])
  {
    var merged := Merge(db[id], req);
    var w := Repo.Update(db, id, merged, env.write);
    assert !w.result.Ok? || w.db[id] == merged;
    if w.result.Err? then Outcome(w.db, Err(Wrapped(UpdateOp, w.result.error)))
    else Outcome(w.db, Ok(merged))
  }

  /** Service.UpdateCustomer: validate, fetch, apply the supplied fields, write back. */
  function UpdateCustomer(db: Repo.Store, id: Uuid, req: UpdateRequest, env: Env): (r: Outcome<Customer>)
    ensures ValidateUpdate(req, env.clock).Some? ==>
      r == Outcome(db, Err(Wrapped(UpdateOp, Invalid(ValidateUpdate(req, env.clock).value))))
    ensures ValidateUpdate(req, env.clock).None? && (id !in db || env.read.StatementFails?) ==>
      r.db == db && r.result.Err?
    ensures r.result.Err? ==>
      (IsNotFound(r.result.error) <==>
        ValidateUpdate(req, env.clock).None? && id !in db && !env.read.StatementFails?)
    ensures r.result.Ok? <==>
      ValidateUpdate(req, env.clock).None? && id in db && !env.read.StatementFails? && env.write.Healthy?
    ensures r.result.Ok? ==> MergedFrom(db[id], req, r.result.value) && r.db == db[id := r.result.value]
    // the only row that can change is `id`, and only to its merged value, even when an error is returned
    ensures r.db.Keys == db.Keys
    ensures r.db == db || (id in db && MergedFrom(db[id], req, r.db[id]) && r.db == db[id := r.db[id]])
  {
    match ValidateUpdate(req, env.clock)
    case Some(v) => Outcome(db, Err(Wrapped(UpdateOp, Invalid(v))))
    case None =>
      match Repo.GetById(db, id, env.read)
      case Err(e) => Outcome(db, Err(Wrapped(UpdateOp, e)))
      case Ok(_) => Rewrite(db, id, req, env)
  }

  // ---------------------------------------------------------------------------
  // Properties across calls

  /** A stored record meets the rules the validators enforce on the fields they judge. */
  predicate ProfileValid(c: Customer) {
    NameValid(c.firstName) && NameValid(c.lastName) && GenderAccepted(c.gender) && Writable(c.birthday)
  }

  predicate AllProfilesValid(db: Repo.Store) {
    forall k :: k in db ==> ProfileValid(db[k])
  }

  /** Creating a customer only ever adds a record that passed validation. */
  lemma CreateKeepsProfilesValid(db: Repo.Store, req: CreateRequest, env: Env)
    requires AllProfilesValid(db)
    ensures AllProfilesValid(CreateCustomer(db, req, env).db)
  {
  }

  /** Updating a customer only ever writes fields that passed validation. */
  lemma UpdateKeepsProfilesValid(db: Repo.Store, id: Uuid, req: UpdateRequest, env: Env)
    requires AllProfilesValid(db)
    ensures AllProfilesValid(UpdateCustomer(db, id, req, env).db)
  {
    var r := UpdateCustomer(db, id, req, env);
    if r.db != db {
      assert ValidateUpdate(req, env.clock).None?;
      assert id in db && MergedFrom(db[id], req, r.db[id]) && r.db == db[id := r.db[id]];
      MergedStaysValid(db[id], req, r.db[id], env.clock);
      assert ProfileValid(r.db[id]);
      forall k | k in r.db ensures ProfileValid(r.db[k]) {
        if k != id {
          assert r.db[k] == db[k];
        }
      }
    }
  }

  /** Applying a payload that passed update validation to a valid record gives a valid record. */
  lemma MergedStaysValid(before: Customer, req: UpdateRequest, after: Customer, clock: Clock)
    requires ProfileValid(before) && MergedFrom(before, req, after)
    requires ValidateUpdate(req, clock).None?
    ensures ProfileValid(after)
  {
    assert NameValid(after.firstName) by {
      if req.firstName.Some? {
        assert NameCheck(req.firstName.value, FirstNameRequired, FirstNameTooLong).None?;
      } else {
        assert after.firstName == before.firstName;
      }
    }
    assert NameValid(after.lastName) by {
      if req.lastName.Some? {
        assert NameCheck(req.lastName.value, LastNameRequired, LastNameTooLong).None?;
      } else {
        assert after.lastName == before.lastName;
      }
    }
    assert GenderAccepted(after.gender) by {
      if req.gender.Some? {
        assert GenderCheck(req.gender.value).None?;
      } else {
        assert after.gender == before.gender;
      }
    }
  }

  /** A created customer reads back as returned, except created_at, which the database filled in. */
  lemma CreateThenGet(db: Repo.Store, req: CreateRequest, env: Env, later: Env)
    ensures var r := CreateCustomer(db, req, env);
      r.result.Ok? && !later.read.StatementFails? ==>
        GetCustomer(r.db, r.result.value.id, later) == Ok(r.result.value.(createdAt := env.createdAt))
  {
  }

  /** Creating keeps every row stored under its own id. */
  lemma CreateKeepsRowsKeyed(db: Repo.Store, req: CreateRequest, env: Env)
    requires Repo.Keyed(db)
    ensures Repo.Keyed(CreateCustomer(db, req, env).db)
  {
    var r := CreateCustomer(db, req, env);
    if r.result.Ok? {
      assert r.result.value.id == env.freshId;
    }
  }

  /** Updating keeps every row stored under its own id. */
  lemma UpdateKeepsRowsKeyed(db: Repo.Store, id: Uuid, req: UpdateRequest, env: Env)
    requires Repo.Keyed(db)
    ensures Repo.Keyed(UpdateCustomer(db, id, req, env).db)
  {
    var r := UpdateCustomer(db, id, req, env);
    if r.db != db {
      assert r.db[id].id == db[id].id;
      forall k | k in r.db ensures r.db[k].id == k {
        if k != id {
          assert r.db[k] == db[k];
        }
      }
    }
  }

  /** Updating an id that was never stored creates no row. */
  lemma UpdateOfUnknownIdCreatesNothing(db: Repo.Store, id: Uuid, req: UpdateRequest, env: Env)
    requires id !in db
    ensures UpdateCustomer(db, id, req, env).db == db
    ensures UpdateCustomer(db, id, req, env).result.Err?
  {
  }
}
