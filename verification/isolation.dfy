/** Properties of the request handling as a whole: the gate protects the
    table, a request only ever touches its caller's rows, and the routes
    fit together (what is created is listed, what is deleted is gone). */
module Isolation {
  import opened Options
  import opened Store
  import opened Header
  import opened Http
  import opened Auth
  import opened Handlers

  /** A request with no usable token is a 401 "Token requerido." and leaves
      the table alone, whatever the route and whatever the auth service
      would have said. */
  lemma NoTokenNoEffect(req: Request, env: Env, table: Table)
    requires BearerToken(req.authorization).None?
    ensures Handle(req, env, table) == Outcome(Error(Unauthorized, TokenRequired), table)
  {
  }

  /** A token the auth service rejects (an error, or no user) is a 401
      "Token inválido." and leaves the table alone. */
  lemma InvalidTokenNoEffect(req: Request, env: Env, table: Table)
    requires BearerToken(req.authorization).Some?
    requires env.whoIs(BearerToken(req.authorization).value).Reply?
    requires env.whoIs(BearerToken(req.authorization).value).error.Some?
             || env.whoIs(BearerToken(req.authorization).value).user.None?
    ensures Handle(req, env, table) == Outcome(Error(Unauthorized, TokenInvalid), table)
  {
    RejectedToken(req.authorization, env.whoIs);
  }

  /** A create leaves every other user's rows as they were. */
  lemma CreateSparesOthers(caller: User, body: CreateBody, newId: TaskId, now: int, call: StoreCall, table: Table, other: UserId)
    requires other != caller.id
    ensures OwnedBy(Create(caller, body, newId, now, call, table).table, other) == OwnedBy(table, other)
  {
    var o := Create(caller, body, newId, now, call, table);
    if o.response.status == OK {
      assert o.table == o.table[..|table|] + [o.table[|table|]];
      OwnedByAppend(table, o.table[|table|], other);
    }
  }

  /** A request the gate admits is served by its route for the admitted
      caller: when the store answers, each route gives 200 and the table
      its route promises. */
  lemma AdmittedRequestIsServed(req: Request, env: Env, table: Table, u: User)
    requires BearerToken(req.authorization).Some?
    requires Accepts(env.whoIs(BearerToken(req.authorization).value), u)
    requires env.call.Answered?
    ensures req.route.GetTasks? ==>
              && Handle(req, env, table).response.status == OK
              && Handle(req, env, table).response.body.Rows?
              && multiset(Handle(req, env, table).response.body.rows) == multiset(OwnedBy(table, u.id))
              && Handle(req, env, table).table == table
    ensures req.route.PostTask? && HasTitle(req.route.create.title) ==>
              && Handle(req, env, table).response.status == OK
              && Handle(req, env, table).table
                 == table + [Task(env.newId, req.route.create.title.value, DescriptionOrEmpty(req.route.create.description), false, u.id, env.now)]
    ensures req.route.PutTask? ==>
              Handle(req, env, table) == Outcome(Response(OK, Relayed), UpdateWhere(table, req.route.id, u.id, ChangesOf(req.route.update)))
    ensures req.route.DeleteTask? ==>
              Handle(req, env, table) == Outcome(Response(OK, Relayed), DeleteWhere(table, req.route.id, u.id))
  {
    assert Authenticate(req.authorization, env.whoIs) == Admit(u);
    match req.route
    case PostTask(b) =>
      if HasTitle(b.title) {
        var o := Create(u, b, env.newId, env.now, env.call, table);
        assert o.table == o.table[..|table|] + [o.table[|table|]];
      }
    case GetTasks =>
    case PutTask(_, _) =>
    case DeleteTask(_) =>
  }

  /** Every user other than the caller sees exactly the same rows after the
      request as before it. */
  lemma OthersUntouched(req: Request, env: Env, table: Table, other: UserId)
    requires CallerOf(req, env) != Some(other)
    ensures OwnedBy(Handle(req, env, table).table, other) == OwnedBy(table, other)
  {
    match Authenticate(req.authorization, env.whoIs)
    case Deny(_) =>
    case Admit(caller) =>
      match req.route
      case PostTask(body) =>
        CreateSparesOthers(caller, body, env.newId, env.now, env.call, table, other);
      case GetTasks =>
      case PutTask(id, body) =>
        if env.call.Answered? {
          UpdateSparesOthers(table, id, caller.id, ChangesOf(body), other);
        }
      case DeleteTask(id) =>
        if env.call.Answered? {
          DeleteSparesOthers(table, id, caller.id, other);
        }
  }

  /** Ownership is never violated: a row that a request adds, changes or
      removes belongs to the authenticated caller. */
  lemma OnlyCallerRowsChange(req: Request, env: Env, table: Table)
    ensures forall t :: t in Handle(req, env, table).table && t !in table ==> CallerOf(req, env) == Some(t.userId)
    ensures forall t :: t in table && t !in Handle(req, env, table).table ==> CallerOf(req, env) == Some(t.userId)
  {
    var after := Handle(req, env, table).table;
    forall t | (t in after && t !in table) || (t in table && t !in after)
      ensures CallerOf(req, env) == Some(t.userId)
    {
      if CallerOf(req, env) != Some(t.userId) {
        OthersUntouched(req, env, table, t.userId);
      }
    }
  }

  // ---------------------------------------------------------------------
  // Sequences of requests
  // ---------------------------------------------------------------------

  datatype Step = Step(request: Request, env: Env)

  /** The table after handling `steps` one at a time, in order. */
  function Run(table: Table, steps: seq<Step>): Table
    decreases |steps|
  {
    if steps == [] then table
    else Run(Handle(steps[0].request, steps[0].env, table).table, steps[1..])
  }

  /** A user's rows change only through that user's own authenticated
      requests, however many other requests are handled in between. */
  lemma {:induction false} TraceIsolation(table: Table, steps: seq<Step>, user: UserId)
    requires forall k :: 0 <= k < |steps| ==> CallerOf(steps[k].request, steps[k].env) != Some(user)
    ensures OwnedBy(Run(table, steps), user) == OwnedBy(table, user)
    decreases |steps|
  {
    if steps != [] {
      var next := Handle(steps[0].request, steps[0].env, table).table;
      OthersUntouched(steps[0].request, steps[0].env, table, user);
      assert forall k :: 0 <= k < |steps[1..]| ==> steps[1..][k] == steps[k + 1];
      TraceIsolation(next, steps[1..], user);
    }
  }

  /** Every row that a run of requests leaves behind, and that was not there
      before, belongs to the caller of one of those requests. */
  lemma {:induction false} TraceOwnership(table: Table, steps: seq<Step>, t: Task)
    requires t in Run(table, steps) && t !in table
    ensures exists k :: 0 <= k < |steps| && CallerOf(steps[k].request, steps[k].env) == Some(t.userId)
    decreases |steps|
  {
    assert steps != [];
    var next := Handle(steps[0].request, steps[0].env, table).table;
    if t in next {
      OnlyCallerRowsChange(steps[0].request, steps[0].env, table);
      assert CallerOf(steps[0].request, steps[0].env) == Some(t.userId);
    } else {
      TraceOwnership(next, steps[1..], t);
      var k :| 0 <= k < |steps[1..]| && CallerOf(steps[1..][k].request, steps[1..][k].env) == Some(t.userId);
      assert steps[1..][k] == steps[k + 1];
    }
  }

  // ---------------------------------------------------------------------
  // Routes used together
  // ---------------------------------------------------------------------

  /** A task created with only a title is listed for its creator with
      `completed = false` and an empty description, and is listed for no
      one else. */
  lemma CreateThenList(caller: User, title: string, newId: TaskId, now: int, table: Table, other: User)
    requires title != []
    requires other.id != caller.id
    ensures var after := Create(caller, CreateBody(Some(title), None), newId, now, Answered, table).table;
            && Task(newId, title, [], false, caller.id, now) in List(caller, Answered, after).response.body.rows
            && multiset(List(caller, Answered, after).response.body.rows)
               == multiset(List(caller, Answered, table).response.body.rows) + multiset{Task(newId, title, [], false, caller.id, now)}
            && List(other, Answered, after).response.body.rows == List(other, Answered, table).response.body.rows
  {
    var row := Task(newId, title, [], false, caller.id, now);
    var after := Create(caller, CreateBody(Some(title), None), newId, now, Answered, table).table;
    assert after == table + [row] by {
      var o := Create(caller, CreateBody(Some(title), None), newId, now, Answered, table);
      assert o.table == o.table[..|table|] + [o.table[|table|]];
    }
    OwnedByAppend(table, row, caller.id);
    assert OwnedBy(after, caller.id) == OwnedBy(table, caller.id) + [row];
    assert multiset(Select(after, caller.id)) == multiset(Select(table, caller.id)) + multiset{row};
    OwnedByAppend(table, row, other.id);
    assert OwnedBy(after, other.id) == OwnedBy(table, other.id);
    assert Select(after, other.id) == Select(table, other.id);
  }

  /** The `user_id` of a created row is the caller's, whatever the body
      says: the body has no field that reaches it. */
  lemma CreatedRowOwnedByCaller(caller: User, body: CreateBody, newId: TaskId, now: int, table: Table)
    requires HasTitle(body.title)
    ensures var o := Create(caller, body, newId, now, Answered, table);
            && o.response.status == OK
            && forall t :: t in o.table && t !in table ==> t.userId == caller.id
  {
    var o := Create(caller, body, newId, now, Answered, table);
    assert o.table == table + [o.table[|table|]];
  }

  /** An update changes only the fields the body carries, only in rows the
      caller owns with that id, and never a row's `id`, `user_id` or
      `created_at`. */
  lemma PartialUpdate(caller: User, id: TaskId, body: UpdateBody, table: Table)
    ensures var after := Update(caller, id, body, Answered, table).table;
            && |after| == |table|
            && forall i :: 0 <= i < |table| ==>
                 && after[i].id == table[i].id
                 && after[i].userId == table[i].userId
                 && after[i].createdAt == table[i].createdAt
                 && after[i].title == (if Matches(table[i], id, caller.id) && body.title.Some? then body.title.value else table[i].title)
                 && after[i].description == (if Matches(table[i], id, caller.id) && body.description.Some? then body.description.value else table[i].description)
                 && after[i].completed == (if Matches(table[i], id, caller.id) && body.completed.Some? then body.completed.value else table[i].completed)
  {
    var c := ChangesOf(body);
    var after := Update(caller, id, body, Answered, table).table;
    forall i | 0 <= i < |table|
      ensures after[i].title == (if Matches(table[i], id, caller.id) && body.title.Some? then body.title.value else table[i].title)
      ensures after[i].description == (if Matches(table[i], id, caller.id) && body.description.Some? then body.description.value else table[i].description)
      ensures after[i].completed == (if Matches(table[i], id, caller.id) && body.completed.Some? then body.completed.value else table[i].completed)
    {
      if Matches(table[i], id, caller.id) {
        assert Read(after[i], Title) == (if Title in c then c[Title] else Read(table[i], Title));
        assert Read(after[i], Description) == (if Description in c then c[Description] else Read(table[i], Description));
        assert Read(after[i], Completed) == (if Completed in c then c[Completed] else Read(table[i], Completed));
      }
    }
  }

  /** Updating a task the caller does not own, or one that does not exist,
      is a 200 that changes nothing. */
  lemma ForeignUpdateIsNoop(caller: User, id: TaskId, body: UpdateBody, table: Table)
    requires forall i :: 0 <= i < |table| ==> !Matches(table[i], id, caller.id)
    ensures Update(caller, id, body, Answered, table) == Outcome(Response(OK, Relayed), table)
  {
    UpdateWithoutMatch(table, id, caller.id, ChangesOf(body));
  }

  /** Deleting a task the caller does not own, or one that does not exist,
      is a 200 that changes nothing. */
  lemma ForeignDeleteIsNoop(caller: User, id: TaskId, table: Table)
    requires forall i :: 0 <= i < |table| ==> !Matches(table[i], id, caller.id)
    ensures Delete(caller, id, Answered, table) == Outcome(Response(OK, Relayed), table)
  {
    DeleteWithoutMatch(table, id, caller.id);
  }

  /** After a delete, the caller's listing has no task with that id, and
      holds every other task of theirs as before. */
  lemma DeleteThenList(caller: User, id: TaskId, table: Table)
    ensures var after := Delete(caller, id, Answered, table).table;
            var rows := List(caller, Answered, after).response.body.rows;
            && (forall t :: t in rows ==> t.id != id)
            && (forall t :: t in table && t.userId == caller.id && t.id != id ==> t in rows)
  {
    var after := Delete(caller, id, Answered, table).table;
    forall t | t in table && t.userId == caller.id && t.id != id
      ensures t in after
    {
      assert multiset(after)[t] == multiset(table)[t];
    }
    forall t | t in after
      ensures !Matches(t, id, caller.id)
    {
      assert multiset(after)[t] > 0;
    }
  }
}
