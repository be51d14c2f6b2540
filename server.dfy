/** What both server implementations share: the `todos` and `pomodoro_sessions` tables as
    sequences of rows, the two ways a handler answers, and the owner-scoped row operations
    (`where id = ? and user_id = caller`) of the REST handlers together with proofs that they
    never reach the rows of another owner. The tRPC procedures are meant to perform the same
    operations; `AnyRow` is their lookup as written. */
module Server {
  import opened Wrappers
  import opened Records
  import opened Schemas
  import Lists

  /** The `todos` table, in storage order. */
  class TodosTable {
    var rows: seq<Todo>

    constructor (initial: seq<Todo>)
      ensures rows == initial
    {
      rows := initial;
    }
  }

  /** The `pomodoro_sessions` table, in storage order. */
  class SessionsTable {
    var rows: seq<Session>

    constructor (initial: seq<Session>)
      ensures rows == initial
    {
      rows := initial;
    }
  }

  /** An HTTP answer of the REST handlers: a status code and an `ApiResponse` body. */
  datatype Reply<T> = Reply(status: int, body: ApiResponse<T>)

  /** The 400 `INVALID_INPUT` answer. */
  function InvalidInput<T>(message: string): (r: Reply<T>)
    ensures r.status == 400 && r.body.Failure? && r.body.error.code == "INVALID_INPUT"
  {
    Reply(400, Failure(ApiError("INVALID_INPUT", message)))
  }

  /** The 404 `NOT_FOUND` answer. */
  function NotFound<T>(message: string): (r: Reply<T>)
    ensures r.status == 404 && r.body.Failure? && r.body.error.code == "NOT_FOUND"
  {
    Reply(404, Failure(ApiError("NOT_FOUND", message)))
  }

  /** How a tRPC procedure ends: with a value, refused by its input schema, or by throwing. */
  datatype Outcome<T> = Returned(value: T) | Rejected | Threw(message: string)

  /** The caller's rows, `where user_id = caller`: each of the caller's rows as often as the
      table holds it, and no other row. */
  function OwnedTodos(rows: seq<Todo>, caller: string): (r: seq<Todo>)
    ensures forall t :: t in r <==> t in rows && t.userId == Some(caller)
    ensures forall t :: multiset(r)[t] == if t.userId == Some(caller) then multiset(rows)[t] else 0
  {
    Lists.OnlyCount(rows, TodoOwner, Some(caller));
    Lists.Only(rows, TodoOwner, Some(caller))
  }

  function OwnedSessions(rows: seq<Session>, caller: string): (r: seq<Session>)
    ensures forall s :: s in r <==> s in rows && s.userId == Some(caller)
    ensures forall s :: multiset(r)[s] == if s.userId == Some(caller) then multiset(rows)[s] else 0
  {
    Lists.OnlyCount(rows, SessionOwner, Some(caller));
    Lists.Only(rows, SessionOwner, Some(caller))
  }

  /** The filter keeps the table's order: the caller's rows of two stretches of the table are
      those of the first stretch followed by those of the second. */
  lemma OwnedTodosInTableOrder(a: seq<Todo>, b: seq<Todo>, caller: string)
    ensures OwnedTodos(a + b, caller) == OwnedTodos(a, caller) + OwnedTodos(b, caller)
  {
    Lists.OnlyConcat(a, b, TodoOwner, Some(caller));
  }

  lemma OwnedSessionsInTableOrder(a: seq<Session>, b: seq<Session>, caller: string)
    ensures OwnedSessions(a + b, caller) == OwnedSessions(a, caller) + OwnedSessions(b, caller)
  {
    Lists.OnlyConcat(a, b, SessionOwner, Some(caller));
  }

  /** The first row with the id that belongs to the caller, or -1: the `existing` lookup. */
  function FindOwnedTodo(rows: seq<Todo>, id: string, caller: string): (i: int)
    ensures -1 <= i < |rows|
    ensures i == -1 <==> forall j :: 0 <= j < |rows| ==> !(rows[j].id == id && rows[j].userId == Some(caller))
    ensures i >= 0 ==> rows[i].id == id && rows[i].userId == Some(caller)
  {
    Lists.FindIndex(rows, TodoKey, (id, Some(caller)))
  }

  function FindOwnedSession(rows: seq<Session>, id: string, caller: string): (i: int)
    ensures -1 <= i < |rows|
    ensures i == -1 <==> forall j :: 0 <= j < |rows| ==> !(rows[j].id == id && rows[j].userId == Some(caller))
    ensures i >= 0 ==> rows[i].id == id && rows[i].userId == Some(caller)
  {
    Lists.FindIndex(rows, SessionKey, (id, Some(caller)))
  }

  /** The `existing` lookup of the tRPC procedures as written. Its condition is a JavaScript
      function, which the query builder calls once with the column objects; comparing a column
      object with a string gives `false`, and a false condition adds no `WHERE` clause. So
      `limit(1)` yields some row of the table as soon as the table has one, whoever owns it. */
  function AnyRow<T>(rows: seq<T>): (r: Option<T>)
    ensures r.Some? <==> rows != []
    ensures r.Some? ==> r.value in rows
  {
    if rows == [] then None else Some(rows[0])
  }

  /** `update todos set ... where id = ? and user_id = caller`. */
  function PatchOwned(rows: seq<Todo>, id: string, caller: string, p: TodoPatch): (r: seq<Todo>)
    ensures |r| == |rows|
    ensures forall i :: 0 <= i < |rows| ==>
      r[i] == if rows[i].id == id && rows[i].userId == Some(caller) then ApplyPatch(rows[i], p) else rows[i]
  {
    Lists.MapWhere(rows, TodoKey, (id, Some(caller)), Patcher(p))
  }

  /** `delete from todos where id = ? and user_id = caller`. */
  function DeleteOwned(rows: seq<Todo>, id: string, caller: string): (r: seq<Todo>)
    ensures forall t :: t in r <==> t in rows && !(t.id == id && t.userId == Some(caller))
  {
    Lists.WithoutMembers(rows, TodoKey, (id, Some(caller)));
    Lists.Without(rows, TodoKey, (id, Some(caller)))
  }

  /** A session marked complete at `now`. */
  function Completed(s: Session, now: int): (r: Session)
    ensures r.completedAt == Some(now)
    ensures r.(completedAt := s.completedAt) == s
  {
    s.(completedAt := Some(now))
  }

  function Completer(now: int): Session -> Session {
    s => Completed(s, now)
  }

  /** `update pomodoro_sessions set completed_at = now where id = ? and user_id = caller`. */
  function CompleteOwned(rows: seq<Session>, id: string, caller: string, now: int): (r: seq<Session>)
    ensures |r| == |rows|
    ensures forall i :: 0 <= i < |rows| ==>
      r[i] == if rows[i].id == id && rows[i].userId == Some(caller) then Completed(rows[i], now) else rows[i]
  {
    Lists.MapWhere(rows, SessionKey, (id, Some(caller)), Completer(now))
  }

  /** A row insert in a table whose ids are unique keeps them unique when the new id is fresh. */
  lemma InsertKeepsKeys(rows: seq<Todo>, t: Todo)
    requires UniqueIds(rows, TodoId) && t.id !in Ids(rows, TodoId)
    ensures UniqueIds(rows + [t], TodoId)
  {
    AppendFresh(rows, TodoId, t);
  }

  /** Updating the caller's rows leaves the list of every other owner exactly as it was. */
  lemma {:induction false} PatchOwnedIsolated(rows: seq<Todo>, id: string, caller: string, p: TodoPatch, other: Option<string>)
    requires other != Some(caller)
    ensures Lists.Only(PatchOwned(rows, id, caller, p), TodoOwner, other) == Lists.Only(rows, TodoOwner, other)
  {
    if rows != [] {
      PatchOwnedIsolated(rows[1..], id, caller, p, other);
      var r := PatchOwned(rows, id, caller, p);
      assert r[1..] == PatchOwned(rows[1..], id, caller, p);
      assert r[0].userId == rows[0].userId;
      assert r[0].userId == other ==> r[0] == rows[0];
    }
  }

  /** Deleting one of the caller's rows leaves the list of every other owner as it was. */
  lemma {:induction false} DeleteOwnedIsolated(rows: seq<Todo>, id: string, caller: string, other: Option<string>)
    requires other != Some(caller)
    ensures Lists.Only(DeleteOwned(rows, id, caller), TodoOwner, other) == Lists.Only(rows, TodoOwner, other)
  {
    if rows != [] {
      DeleteOwnedIsolated(rows[1..], id, caller, other);
      if TodoKey(rows[0]) == (id, Some(caller)) {
        assert DeleteOwned(rows, id, caller) == DeleteOwned(rows[1..], id, caller);
      } else {
        assert DeleteOwned(rows, id, caller) == [rows[0]] + DeleteOwned(rows[1..], id, caller);
        assert ([rows[0]] + DeleteOwned(rows[1..], id, caller))[1..] == DeleteOwned(rows[1..], id, caller);
      }
    }
  }

  /** Completing one of the caller's sessions leaves the sessions of every other owner as they were. */
  lemma {:induction false} CompleteOwnedIsolated(rows: seq<Session>, id: string, caller: string, now: int, other: Option<string>)
    requires other != Some(caller)
    ensures Lists.Only(CompleteOwned(rows, id, caller, now), SessionOwner, other) == Lists.Only(rows, SessionOwner, other)
  {
    if rows != [] {
      CompleteOwnedIsolated(rows[1..], id, caller, now, other);
      var r := CompleteOwned(rows, id, caller, now);
      assert r[1..] == CompleteOwned(rows[1..], id, caller, now);
      assert r[0].userId == rows[0].userId;
      assert r[0].userId == other ==> r[0] == rows[0];
    }
  }

  /** Completing twice leaves the later time: nothing stops a second completion. */
  lemma CompleteOverwrites(rows: seq<Session>, id: string, caller: string, t1: int, t2: int)
    ensures CompleteOwned(CompleteOwned(rows, id, caller, t1), id, caller, t2) == CompleteOwned(rows, id, caller, t2)
  {
    var a := CompleteOwned(CompleteOwned(rows, id, caller, t1), id, caller, t2);
    var b := CompleteOwned(rows, id, caller, t2);
    assert forall i :: 0 <= i < |rows| ==> a[i] == b[i];
  }
}
