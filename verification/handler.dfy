/**
 The HTTP handlers: decode the body and the path id, call the service, and
 map the outcome to a status code and a JSON payload.
 */
module Handler {
  import opened Wrappers
  import opened Models
  import opened Dto
  import Repo = Repository
  import Svc = Service

  const StatusOK := 200
  const StatusCreated := 201
  const StatusBadRequest := 400
  const StatusNotFound := 404
  const StatusInternalServerError := 500

  /** The JSON body written back: a record, a list of records, or `{"error": message}`. */
  datatype Payload = One(customer: Customer) | Many(customers: seq<Customer>) | Problem(message: string)

  /** The response, with the table as the request left it. */
  datatype Reply = Reply(status: int, payload: Payload, db: Repo.Store)

  /** The status for a failed get or update: 404 for the not-found sentinel, 500 for anything else. */
  function ErrorStatus(e: Error): (status: int)
    ensures status == StatusNotFound <==> IsNotFound(e)
    ensures status == StatusInternalServerError <==> !IsNotFound(e)
  {
    if IsNotFound(e) then StatusNotFound else StatusInternalServerError
  }

  /**
   Handler.CreateCustomer. `body` is None when the JSON body does not decode.
   Every service error, a failed validation included, becomes 500.
   */
  function CreateCustomer(db: Repo.Store, body: Option<CreateRequest>, env: Svc.Env): (r: Reply)
    ensures body.None? ==> r == Reply(StatusBadRequest, Problem("invalid request body"), db)
    ensures r.status == StatusBadRequest <==> body.None?
    ensures r.status == StatusCreated <==> body.Some? && Svc.CreateCustomer(db, body.value, env).result.Ok?
    ensures r.status == StatusInternalServerError <==> body.Some? && Svc.CreateCustomer(db, body.value, env).result.Err?
    ensures body.Some? && ValidateCreate(body.value, env.clock).violation.Some? ==>
      r.status == StatusInternalServerError && r.db == db
    ensures r.status == StatusCreated ==>
      r.payload.One? && r.db == db[r.payload.customer.id := r.payload.customer.(createdAt := env.createdAt)]
    ensures r.status != StatusCreated ==> r.db == db
    // the table and the 201 body are exactly what the service left and returned
    ensures body.Some? ==> r.db == Svc.CreateCustomer(db, body.value, env).db
    ensures r.status == StatusCreated ==> r.payload == One(Svc.CreateCustomer(db, body.value, env).result.value)
  {
    match body
    case None => Reply(StatusBadRequest, Problem("invalid request body"), db)
    case Some(req) =>
      var o := Svc.CreateCustomer(db, req, env);
      match o.result
      case Err(_) => Reply(StatusInternalServerError, Problem("failed to create customer"), o.db)
      case Ok(c) => Reply(StatusCreated, One(c), o.db)
  }

  /** Handler.GetCustomer. `idText` is the {id} path segment. */
  function GetCustomer(db: Repo.Store, idText: string, env: Svc.Env): (r: Reply)
    ensures r.db == db
    ensures env.parseUuid(idText).None? ==> r == Reply(StatusBadRequest, Problem("invalid customer id"), db)
    ensures r.status == StatusOK <==>
      env.parseUuid(idText).Some? && env.parseUuid(idText).value in db && !env.read.StatementFails?
    ensures r.status == StatusOK ==> r.payload == One(db[env.parseUuid(idText).value])
    ensures r.status == StatusNotFound <==>
      env.parseUuid(idText).Some? && env.parseUuid(idText).value !in db && !env.read.StatementFails?
    ensures r.status == StatusInternalServerError <==> env.parseUuid(idText).Some? && env.read.StatementFails?
  {
    match env.parseUuid(idText)
    case None => Reply(StatusBadRequest, Problem("invalid customer id"), db)
    case Some(id) =>
      match Svc.GetCustomer(db, id, env)
      case Err(e) =>
        Reply(ErrorStatus(e), Problem(if IsNotFound(e) then "customer not found" else "failed to get customer"), db)
      case Ok(c) => Reply(StatusOK, One(c), db)
  }

  /** Handler.GetAllCustomers. */
  function GetAllCustomers(db: Repo.Store, scan: seq<Uuid>, env: Svc.Env): (r: Reply)
    requires Repo.IsScan(db, scan)
    ensures r.db == db
    ensures r.status == StatusOK || r.status == StatusInternalServerError
    ensures r.status == StatusOK <==> !env.read.StatementFails?
    ensures r.status == StatusOK ==>
      r.payload.Many? && |r.payload.customers| == |db| && forall c :: c in r.payload.customers <==> c in db.Values
  {
    match Svc.GetAllCustomers(db, scan, env)
    case Err(_) => Reply(StatusInternalServerError, Problem("failed to get customers"), db)
    case Ok(cs) => Reply(StatusOK, Many(cs), db)
  }

  /**
   Handler.UpdateCustomer. The path id is checked before the body is decoded;
   a failed validation becomes 500, only the not-found sentinel becomes 404.
   */
  function UpdateCustomer(db: Repo.Store, idText: string, body: Option<UpdateRequest>, env: Svc.Env): (r: Reply)
    ensures env.parseUuid(idText).None? ==> r == Reply(StatusBadRequest, Problem("invalid customer id"), db)
    ensures env.parseUuid(idText).Some? && body.None? ==> r == Reply(StatusBadRequest, Problem("invalid request body"), db)
    ensures r.status == StatusBadRequest <==> env.parseUuid(idText).None? || body.None?
    ensures r.status == StatusOK <==>
      env.parseUuid(idText).Some? && body.Some? &&
      Svc.UpdateCustomer(db, env.parseUuid(idText).value, body.value, env).result.Ok?
    ensures r.status == StatusNotFound <==>
      && env.parseUuid(idText).Some? && body.Some?
      && ValidateUpdate(body.value, env.clock).None?
      && env.parseUuid(idText).value !in db && !env.read.StatementFails?
    ensures env.parseUuid(idText).Some? && body.Some? && ValidateUpdate(body.value, env.clock).Some? ==>
      r.status == StatusInternalServerError && r.db == db
    ensures r.status == StatusOK ==> r.payload.One? && r.db == db[env.parseUuid(idText).value := r.payload.customer]
    ensures r.db.Keys == db.Keys
    // the table and the 200 body are exactly what the service left and returned
    ensures env.parseUuid(idText).Some? && body.Some? ==>
      r.db == Svc.UpdateCustomer(db, env.parseUuid(idText).value, body.value, env).db
    ensures r.status == StatusOK ==>
      r.payload == One(Svc.UpdateCustomer(db, env.parseUuid(idText).value, body.value, env).result.value)
    ensures env.parseUuid(idText).None? || body.None? ==> r.db == db
  {
    match env.parseUuid(idText)
    case None => Reply(StatusBadRequest, Problem("invalid customer id"), db)
    case Some(id) =>
      match body
      case None => Reply(StatusBadRequest, Problem("invalid request body"), db)
      case Some(req) =>
        var o := Svc.UpdateCustomer(db, id, req, env);
        match o.result
        case Err(e) =>
          Reply(ErrorStatus(e), Problem(if IsNotFound(e) then "customer not found" else "failed to update customer"), o.db)
        case Ok(c) => Reply(StatusOK, One(c), o.db)
  }
}
