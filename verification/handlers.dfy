/** The four task routes, each a pure function from the caller, the request
    and the table to the response and the new table.

    The Supabase call each route makes is read as its relational meaning on
    the table; whether that call succeeds is a parameter (`StoreCall`),
    since its causes lie in the foreign client. */
module Handlers {
  import opened Options
  import opened Store
  import opened Http
  import opened Auth

  /** `{ title, description }` of a create request. */
  datatype CreateBody = CreateBody(title: Option<string>, description: Option<string>)

  /** `{ title, description, completed }` of an update request; a field
      the client left out is `None`. */
  datatype UpdateBody = UpdateBody(title: Option<string>, description: Option<string>, completed: Option<bool>)

  /** How the store call went: it answered, it reported an error with a
      message, or it threw. */
  datatype StoreCall = Answered | Refused(message: string) | Crashed

  datatype Outcome = Outcome(response: Response, table: Table)

  /** `!title` is false: the title is present and not empty. */
  predicate HasTitle(title: Option<string>) {
    title.Some? && title.value != []
  }

  /** `description || ''`. */
  function DescriptionOrEmpty(description: Option<string>): string {
    if description.Some? && description.value != [] then description.value else []
  }

  /** A failed store call is answered with its message (400) or a generic
      server error (500), and the table is left alone. */
  function Failed(call: StoreCall, table: Table): (o: Outcome)
    requires !call.Answered?
    ensures o.table == table
    ensures o.response.status == BadRequest <==> call.Refused?
    ensures o.response.status == InternalError <==> call.Crashed?
    ensures call.Refused? ==> o.response == Error(BadRequest, call.message)
    ensures call.Crashed? ==> o.response == Error(InternalError, ServerFailure)
  {
    match call
    case Refused(message) => Outcome(Error(BadRequest, message), table)
    case Crashed => Outcome(Error(InternalError, ServerFailure), table)
  }

  /** POST /tasks. `newId` and `now` are the `id` and `created_at` the
      store assigns to the inserted row. */
  function Create(caller: User, body: CreateBody, newId: TaskId, now: int, call: StoreCall, table: Table): (o: Outcome)
    ensures !HasTitle(body.title) ==> o == Outcome(Error(BadRequest, TitleRequired), table)
    ensures o.response.status == OK <==> HasTitle(body.title) && call.Answered?
    ensures o.response.status != OK ==> o.table == table
    ensures o.response.status == OK ==>
              && |o.table| == |table| + 1
              && o.table[..|table|] == table
              && var row := o.table[|table|];
              && row.userId == caller.id
              && row.title == body.title.value
              && row.description == DescriptionOrEmpty(body.description)
              && !row.completed
              && row.id == newId
              && row.createdAt == now
              && o.response.body == Rows([row])
  {
    if !HasTitle(body.title) then Outcome(Error(BadRequest, TitleRequired), table)
    else if !call.Answered? then Failed(call, table)
    else
      var row := Task(newId, body.title.value, DescriptionOrEmpty(body.description), false, caller.id, now);
      assert (table + [row])[..|table|] == table;
      Outcome(Response(OK, Rows([row])), table + [row])
  }

  /** GET /tasks. */
  function List(caller: User, call: StoreCall, table: Table): (o: Outcome)
    ensures o.table == table
    ensures o.response.status == OK <==> call.Answered?
    ensures call.Answered? ==>
              && o.response.body.Rows?
              && NewestFirst(o.response.body.rows)
              && multiset(o.response.body.rows) == multiset(OwnedBy(table, caller.id))
              && (forall t :: t in o.response.body.rows <==> t in table && t.userId == caller.id)
  {
    if !call.Answered? then Failed(call, table)
    else Outcome(Response(OK, Rows(Select(table, caller.id))), table)
  }

  /** The `updateData` object: one entry per field that is not `undefined`,
      and nothing else. */
  function ChangesOf(body: UpdateBody): (c: Changes)
    ensures WellTyped(c)
    ensures Title in c <==> body.title.Some?
    ensures Description in c <==> body.description.Some?
    ensures Completed in c <==> body.completed.Some?
    ensures Title in c ==> c[Title] == Text(body.title.value)
    ensures Description in c ==> c[Description] == Text(body.description.value)
    ensures Completed in c ==> c[Completed] == Flag(body.completed.value)
  {
    var withTitle: Changes := if body.title.Some? then map[Title := Text(body.title.value)] else map[];
    var withDescription := if body.description.Some? then withTitle[Description := Text(body.description.value)] else withTitle;
    if body.completed.Some? then withDescription[Completed := Flag(body.completed.value)] else withDescription
  }

  /** PUT /tasks/:id. Zero matching rows is still a 200. */
  function Update(caller: User, id: TaskId, body: UpdateBody, call: StoreCall, table: Table): (o: Outcome)
    ensures o.response.status == OK <==> call.Answered?
    ensures call.Answered? ==> o.response.body == Relayed && o.table == UpdateWhere(table, id, caller.id, ChangesOf(body))
    ensures !call.Answered? ==> o.table == table
  {
    if !call.Answered? then Failed(call, table)
    else Outcome(Response(OK, Relayed), UpdateWhere(table, id, caller.id, ChangesOf(body)))
  }

  /** DELETE /tasks/:id. Zero matching rows is still a 200. */
  function Delete(caller: User, id: TaskId, call: StoreCall, table: Table): (o: Outcome)
    ensures o.response.status == OK <==> call.Answered?
    ensures call.Answered? ==> o.response.body == Relayed && o.table == DeleteWhere(table, id, caller.id)
    ensures !call.Answered? ==> o.table == table
  {
    if !call.Answered? then Failed(call, table)
    else Outcome(Response(OK, Relayed), DeleteWhere(table, id, caller.id))
  }

  // ---------------------------------------------------------------------
  // Dispatch: the gate, then the route
  // ---------------------------------------------------------------------

  datatype Route =
    | PostTask(create: CreateBody)
    | GetTasks
    | PutTask(id: TaskId, update: UpdateBody)
    | DeleteTask(id: TaskId)

  datatype Request = Request(authorization: Option<string>, route: Route)

  /** Everything a request depends on besides itself and the table: the
      auth service, the store-assigned `id` and `created_at` for an insert,
      and how the store call goes. */
  datatype Env = Env(whoIs: string -> AuthReply, newId: TaskId, now: int, call: StoreCall)

  /** One request through `authMiddleware` and then its route. */
  function Handle(req: Request, env: Env, table: Table): (o: Outcome)
    ensures Authenticate(req.authorization, env.whoIs).Deny? ==>
              o == Outcome(Authenticate(req.authorization, env.whoIs).response, table)
  {
    match Authenticate(req.authorization, env.whoIs)
    case Deny(response) => Outcome(response, table)
    case Admit(caller) =>
      match req.route
      case PostTask(body) => Create(caller, body, env.newId, env.now, env.call, table)
      case GetTasks => List(caller, env.call, table)
      case PutTask(id, body) => Update(caller, id, body, env.call, table)
      case DeleteTask(id) => Delete(caller, id, env.call, table)
  }

  /** The id of the user a request is handled for, if it passes the gate. */
  function CallerOf(req: Request, env: Env): Option<UserId> {
    match Authenticate(req.authorization, env.whoIs)
    case Admit(caller) => Some(caller.id)
    case Deny(_) => None
  }
}
