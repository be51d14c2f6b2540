/** The REST handlers for Pomodoro sessions (`functions/api/pomodoro.ts`), each acting for the
    signed-in caller on the `pomodoro_sessions` table. */
module ApiPomodoro {
  import opened Wrappers
  import opened Records
  import opened Schemas
  import opened Server
  import opened Timer
  import Lists

  /** How many sessions a listing returns at most. */
  const Limit: nat := 30

  /** `GET /api/pomodoro/sessions`: the caller's sessions, newest `startedAt` first, at most 30;
      no session of the caller that is left out started later than one returned. */
  function RecentFor(rows: seq<Session>, caller: string): (r: seq<Session>)
    ensures |r| <= Limit
    ensures |r| == if |OwnedSessions(rows, caller)| < Limit then |OwnedSessions(rows, caller)| else Limit
    ensures forall s :: s in r ==> s in rows && s.userId == Some(caller)
    ensures multiset(r) <= multiset(OwnedSessions(rows, caller))
    ensures |OwnedSessions(rows, caller)| <= Limit ==> multiset(r) == multiset(OwnedSessions(rows, caller))
    ensures Lists.SortedDescBy(r, SessionStartedAt)
    ensures forall x, y :: x in r && y in rows && y.userId == Some(caller) && y !in r ==> y.startedAt <= x.startedAt
  {
    var owned := OwnedSessions(rows, caller);
    Lists.NewestFirst(owned, SessionStartedAt, Limit);
    NothingNewerLeftOut(rows, caller);
    Lists.Take(Lists.Reverse(Lists.SortBy(owned, SessionStartedAt)), Limit)
  }

  lemma NothingNewerLeftOut(rows: seq<Session>, caller: string)
    ensures var r := Lists.Take(Lists.Reverse(Lists.SortBy(OwnedSessions(rows, caller), SessionStartedAt)), Limit);
      forall x, y :: x in r && y in rows && y.userId == Some(caller) && y !in r ==> y.startedAt <= x.startedAt
  {
    var owned := OwnedSessions(rows, caller);
    var r := Lists.Take(Lists.Reverse(Lists.SortBy(owned, SessionStartedAt)), Limit);
    Lists.NewestFirst(owned, SessionStartedAt, Limit);
    forall x, y | x in r && y in rows && y.userId == Some(caller) && y !in r ensures y.startedAt <= x.startedAt {
      assert y in owned;
      assert SessionStartedAt(y) <= SessionStartedAt(x);
    }
  }

  method GetSessions(table: SessionsTable, caller: string) returns (reply: Reply<seq<Session>>)
    ensures reply == Reply(200, Success(RecentFor(table.rows, caller)))
  {
    var sessions := RecentFor(table.rows, caller);
    reply := Reply(200, Success(sessions));
  }

  /** The JSON body of `POST /api/pomodoro/sessions`, every field possibly missing. */
  datatype SessionBody = SessionBody(todoId: Option<string>, kind: Option<string>, startedAt: Schemas.TimeField, durationSecs: Option<int>)

  /** `todoId || null`: a missing or empty todo id is stored as null. */
  function TodoIdOrNull(todoId: Option<string>): (r: Option<string>)
    ensures r.Some? <==> todoId.Some? && todoId.value != ""
    ensures r.Some? ==> r == todoId
  {
    if todoId.Some? && todoId.value != "" then todoId else None
  }

  /** Which check refuses a body, in the order they run: kind, then start time, then duration. */
  function Refusal(body: SessionBody): (r: Option<string>)
    ensures r == Some("Invalid session type") <==> body.kind.None? || ParseKind(body.kind.value).None?
    ensures r == Some("Invalid startedAt") <==>
      body.kind.Some? && ParseKind(body.kind.value).Some? && !body.startedAt.At?
    ensures r == Some("Invalid durationSecs") <==>
      body.kind.Some? && ParseKind(body.kind.value).Some? && body.startedAt.At? &&
      (body.durationSecs.None? || body.durationSecs.value <= 0)
    ensures r.None? <==>
      body.kind.Some? && ParseKind(body.kind.value).Some? && body.startedAt.At? &&
      body.durationSecs.Some? && body.durationSecs.value > 0
  {
    if body.kind.None? || ParseKind(body.kind.value).None? then Some("Invalid session type")
    else if !body.startedAt.At? then Some("Invalid startedAt")
    else if body.durationSecs.None? || body.durationSecs.value <= 0 then Some("Invalid durationSecs")
    else None
  }

  /** `POST /api/pomodoro/sessions`: 400 for the first failing check, otherwise a new running
      session of the caller. The id and `createdAt` come from the database defaults. */
  method PostSession(table: SessionsTable, caller: string, body: SessionBody, freshId: string, now: int)
    returns (reply: Reply<Session>)
    modifies table
    ensures Refusal(body).Some? ==>
      reply == InvalidInput(Refusal(body).value) && table.rows == old(table.rows)
    ensures Refusal(body).None? ==>
      var s := Session(freshId, Some(caller), TodoIdOrNull(body.todoId), ParseKind(body.kind.value).value,
                       body.startedAt.ms, None, body.durationSecs.value, now);
      reply == Reply(200, Success(s)) && table.rows == old(table.rows) + [s]
  {
    if body.kind.None? || ParseKind(body.kind.value).None? {
      return InvalidInput("Invalid session type");
    }
    if !body.startedAt.At? {
      return InvalidInput("Invalid startedAt");
    }
    if body.durationSecs.None? || body.durationSecs.value <= 0 {
      return InvalidInput("Invalid durationSecs");
    }
    var newSession := Session(freshId, Some(caller), TodoIdOrNull(body.todoId), ParseKind(body.kind.value).value,
                              body.startedAt.ms, None, body.durationSecs.value, now);
    table.rows := table.rows + [newSession];
    reply := Reply(200, Success(newSession));
  }

  /** `PATCH /api/pomodoro/sessions/:id/complete`: 404 unless the caller owns a session with the
      id; otherwise `completedAt` becomes `now`, whatever it was before. */
  method CompleteSession(table: SessionsTable, caller: string, id: string, now: int) returns (reply: Reply<Session>)
    modifies table
    ensures FindOwnedSession(old(table.rows), id, caller) == -1 ==>
      reply == NotFound("Session not found") && table.rows == old(table.rows)
    ensures FindOwnedSession(old(table.rows), id, caller) >= 0 ==>
      table.rows == CompleteOwned(old(table.rows), id, caller, now) &&
      reply == Reply(200, Success(Completed(old(table.rows)[FindOwnedSession(old(table.rows), id, caller)], now)))
  {
    var existing := FindOwnedSession(table.rows, id, caller);
    if existing == -1 {
      return NotFound("Session not found");
    }
    table.rows := CompleteOwned(table.rows, id, caller, now);
    reply := Reply(200, Success(table.rows[existing]));
  }
}
