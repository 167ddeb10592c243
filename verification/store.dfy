/** The `tasks` table, and the plain relational meaning of the query-builder
    calls the handlers make on it: `.insert`, `.select().eq().order()`,
    `.update().eq().eq()` and `.delete().eq().eq()`. */
module Store {

  /** Identifiers are opaque strings: a user id comes from the auth service,
      a task id from the request path. */
  type UserId = string
  type TaskId = string

  /** One row of `tasks`. `id` and `createdAt` are assigned by the store. */
  datatype Task = Task(
    id: TaskId,
    title: string,
    description: string,
    completed: bool,
    userId: UserId,
    createdAt: int)

  type Table = seq<Task>

  // ---------------------------------------------------------------------
  // Selection and ordering
  // ---------------------------------------------------------------------

  /** `.eq('user_id', uid)`: the rows owned by `uid`, in table order. */
  function OwnedBy(table: Table, uid: UserId): (rows: Table)
    ensures forall t :: t in rows <==> t in table && t.userId == uid
    ensures forall t {:trigger multiset(rows)[t]} :: multiset(rows)[t] == if t.userId == uid then multiset(table)[t] else 0
    ensures |rows| <= |table|
  {
    if table == [] then []
    else
      assert table == [table[0]] + table[1..];
      if table[0].userId == uid then [table[0]] + OwnedBy(table[1..], uid)
      else OwnedBy(table[1..], uid)
  }

  /** `created_at` does not increase from one row to the next. */
  predicate NewestFirst(rows: Table) {
    forall i, j :: 0 <= i < j < |rows| ==> rows[i].createdAt >= rows[j].createdAt
  }

  function InsertNewestFirst(t: Task, rows: Table): (r: Table)
    requires NewestFirst(rows)
    ensures NewestFirst(r)
    ensures multiset(r) == multiset(rows) + multiset{t}
    ensures r[0] == t || (rows != [] && r[0] == rows[0])
  {
    if rows == [] || t.createdAt >= rows[0].createdAt then [t] + rows
    else
      assert rows == [rows[0]] + rows[1..];
      [rows[0]] + InsertNewestFirst(t, rows[1..])
  }

  /** `.order('created_at', { ascending: false })`. The store leaves the order
      of equal timestamps open; this ordering keeps them in table order. */
  function OrderNewestFirst(rows: Table): (r: Table)
    ensures NewestFirst(r)
    ensures multiset(r) == multiset(rows)
  {
    if rows == [] then []
    else
      assert rows == [rows[0]] + rows[1..];
      InsertNewestFirst(rows[0], OrderNewestFirst(rows[1..]))
  }

  /** `select('*').eq('user_id', uid).order('created_at', desc)`: exactly the
      rows owned by `uid`, each as often as in the table, newest first. */
  function Select(table: Table, uid: UserId): (rows: Table)
    ensures NewestFirst(rows)
    ensures multiset(rows) == multiset(OwnedBy(table, uid))
    ensures forall t :: t in rows <==> t in table && t.userId == uid
  {
    var r := OrderNewestFirst(OwnedBy(table, uid));
    assert forall t :: t in r <==> t in multiset(r);
    r
  }

  // ---------------------------------------------------------------------
  // Partial updates
  // ---------------------------------------------------------------------

  /** The columns an update may set. `id`, `user_id` and `created_at` are
      not among them. */
  datatype Column = Title | Description | Completed

  datatype Value = Text(text: string) | Flag(flag: bool)

  /** An update object: the columns to set and their new values. */
  type Changes = map<Column, Value>

  /** Each column is given a value of its own type. */
  predicate WellTyped(c: Changes) {
    && (Title in c ==> c[Title].Text?)
    && (Description in c ==> c[Description].Text?)
    && (Completed in c ==> c[Completed].Flag?)
  }

  /** The value a row holds in a column. */
  function Read(t: Task, col: Column): Value {
    match col
    case Title => Text(t.title)
    case Description => Text(t.description)
    case Completed => Flag(t.completed)
  }

  /** `SET col = value` for each entry of `c`: the listed columns take the
      given values, every other column of the row keeps its value. */
  function Apply(t: Task, c: Changes): (u: Task)
    requires WellTyped(c)
    ensures forall col :: Read(u, col) == (if col in c then c[col] else Read(t, col))
    ensures u.id == t.id && u.userId == t.userId && u.createdAt == t.createdAt
  {
    t.(title := if Title in c then c[Title].text else t.title,
       description := if Description in c then c[Description].text else t.description,
       completed := if Completed in c then c[Completed].flag else t.completed)
  }

  /** The two-key filter of update and delete: `.eq('id', id).eq('user_id', uid)`. */
  predicate Matches(t: Task, id: TaskId, uid: UserId) {
    t.id == id && t.userId == uid
  }

  /** `.update(c).eq('id', id).eq('user_id', uid)`: every matching row is
      changed by `c`, every other row stays as it was, in place. */
  function UpdateWhere(table: Table, id: TaskId, uid: UserId, c: Changes): (r: Table)
    requires WellTyped(c)
    ensures |r| == |table|
    ensures forall i :: 0 <= i < |table| && !Matches(table[i], id, uid) ==> r[i] == table[i]
    ensures forall i :: 0 <= i < |table| && Matches(table[i], id, uid) ==> r[i] == Apply(table[i], c)
  {
    if table == [] then []
    else
      var head := if Matches(table[0], id, uid) then Apply(table[0], c) else table[0];
      [head] + UpdateWhere(table[1..], id, uid, c)
  }

  /** `.delete().eq('id', id).eq('user_id', uid)`: every matching row is
      removed, every other row is kept as often as it occurred. */
  function DeleteWhere(table: Table, id: TaskId, uid: UserId): (r: Table)
    ensures forall t :: multiset(r)[t] == if Matches(t, id, uid) then 0 else multiset(table)[t]
    ensures |r| <= |table|
  {
    if table == [] then []
    else
      assert table == [table[0]] + table[1..];
      if Matches(table[0], id, uid) then DeleteWhere(table[1..], id, uid)
      else [table[0]] + DeleteWhere(table[1..], id, uid)
  }

  // ---------------------------------------------------------------------
  // Properties
  // ---------------------------------------------------------------------

  /** Appending a row extends the owner's selection by that row only. */
  lemma {:induction false} OwnedByAppend(table: Table, t: Task, uid: UserId)
    ensures OwnedBy(table + [t], uid) == OwnedBy(table, uid) + (if t.userId == uid then [t] else [])
  {
    if table != [] {
      var whole := table + [t];
      assert whole[0] == table[0];
      assert whole[1..] == table[1..] + [t];
      OwnedByAppend(table[1..], t, uid);
      var tail := if t.userId == uid then [t] else [];
      if table[0].userId == uid {
        assert OwnedBy(whole, uid) == [table[0]] + OwnedBy(whole[1..], uid);
        assert OwnedBy(table, uid) == [table[0]] + OwnedBy(table[1..], uid);
        assert [table[0]] + (OwnedBy(table[1..], uid) + tail) == ([table[0]] + OwnedBy(table[1..], uid)) + tail;
      } else {
        assert OwnedBy(whole, uid) == OwnedBy(whole[1..], uid);
        assert OwnedBy(table, uid) == OwnedBy(table[1..], uid);
      }
    } else {
      assert table + [t] == [t];
      assert [t][1..] == [];
    }
  }

  /** An update filtered on `uid` leaves every other user's rows exactly as
      they were. */
  lemma {:induction false} UpdateSparesOthers(table: Table, id: TaskId, uid: UserId, c: Changes, other: UserId)
    requires WellTyped(c)
    requires other != uid
    ensures OwnedBy(UpdateWhere(table, id, uid, c), other) == OwnedBy(table, other)
  {
    if table != [] {
      UpdateSparesOthers(table[1..], id, uid, c, other);
      var r := UpdateWhere(table, id, uid, c);
      assert r[1..] == UpdateWhere(table[1..], id, uid, c);
    }
  }

  /** A delete filtered on `uid` leaves every other user's rows exactly as
      they were. */
  lemma {:induction false} DeleteSparesOthers(table: Table, id: TaskId, uid: UserId, other: UserId)
    requires other != uid
    ensures OwnedBy(DeleteWhere(table, id, uid), other) == OwnedBy(table, other)
  {
    if table != [] {
      DeleteSparesOthers(table[1..], id, uid, other);
      if !Matches(table[0], id, uid) {
        assert ([table[0]] + DeleteWhere(table[1..], id, uid))[1..] == DeleteWhere(table[1..], id, uid);
      }
    }
  }

  /** When no row matches both keys (a foreign or unknown id), the update
      changes nothing. */
  lemma UpdateWithoutMatch(table: Table, id: TaskId, uid: UserId, c: Changes)
    requires WellTyped(c)
    requires forall i :: 0 <= i < |table| ==> !Matches(table[i], id, uid)
    ensures UpdateWhere(table, id, uid, c) == table
  {
  }

  /** When no row matches both keys (a foreign or unknown id), the delete
      changes nothing. */
  lemma {:induction false} DeleteWithoutMatch(table: Table, id: TaskId, uid: UserId)
    requires forall i :: 0 <= i < |table| ==> !Matches(table[i], id, uid)
    ensures DeleteWhere(table, id, uid) == table
  {
    if table != [] {
      assert forall i :: 0 <= i < |table[1..]| ==> table[1..][i] == table[i + 1];
      DeleteWithoutMatch(table[1..], id, uid);
    }
  }

  /** Applying the same update twice is the same as applying it once. */
  lemma ApplyIdempotent(t: Task, c: Changes)
    requires WellTyped(c)
    ensures Apply(Apply(t, c), c) == Apply(t, c)
  {
  }

  /** An empty update object changes nothing. */
  lemma ApplyNothing(t: Task)
    ensures Apply(t, map[]) == t
  {
  }
}
