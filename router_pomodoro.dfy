/** The tRPC session procedures (`src/app/routers/pomodoro.ts`), each acting for the
    signed-in caller on the `pomodoro_sessions` table after its input passed the schema. */
module RouterPomodoro {
  import opened Wrappers
  import opened Records
  import opened Schemas
  import opened Server
  import Lists
  import ApiPomodoro

  const Limit: nat := 30

  /** `getSessions`: the caller's sessions sorted by `startedAt`, cut to the first 30, then
      reversed. With more than 30 sessions these are the 30 OLDEST, the latest of them first:
      nothing left out started earlier than one returned. */
  function OldestFor(rows: seq<Session>, caller: string): (r: seq<Session>)
    ensures |r| <= Limit
    ensures |r| == if |OwnedSessions(rows, caller)| < Limit then |OwnedSessions(rows, caller)| else Limit
    ensures forall s :: s in r ==> s in rows && s.userId == Some(caller)
    ensures multiset(r) <= multiset(OwnedSessions(rows, caller))
    ensures |OwnedSessions(rows, caller)| <= Limit ==> multiset(r) == multiset(OwnedSessions(rows, caller))
    ensures Lists.SortedDescBy(r, SessionStartedAt)
    ensures forall x, y :: x in r && y in rows && y.userId == Some(caller) && y !in r ==> x.startedAt <= y.startedAt
  {
    var owned := OwnedSessions(rows, caller);
    Lists.OldestReversed(owned, SessionStartedAt, Limit);
    NothingOlderLeftOut(rows, caller);
    Lists.Reverse(Lists.Take(Lists.SortBy(owned, SessionStartedAt), Limit))
  }

  lemma NothingOlderLeftOut(rows: seq<Session>, caller: string)
    ensures var r := Lists.Reverse(Lists.Take(Lists.SortBy(OwnedSessions(rows, caller), SessionStartedAt), Limit));
      forall x, y :: x in r && y in rows && y.userId == Some(caller) && y !in r ==> x.startedAt <= y.startedAt
  {
    var owned := OwnedSessions(rows, caller);
    var r := Lists.Reverse(Lists.Take(Lists.SortBy(owned, SessionStartedAt), Limit));
    Lists.OldestReversed(owned, SessionStartedAt, Limit);
    forall x, y | x in r && y in rows && y.userId == Some(caller) && y !in r ensures x.startedAt <= y.startedAt {
      assert y in owned;
      assert SessionStartedAt(x) <= SessionStartedAt(y);
    }
  }

  /** With at most 30 sessions the two servers list the very same sequence. */
  lemma ListingsAgreeWhenFew(rows: seq<Session>, caller: string)
    requires |OwnedSessions(rows, caller)| <= Limit
    ensures OldestFor(rows, caller) == ApiPomodoro.RecentFor(rows, caller)
  {
    Lists.SmallListsAgree(OwnedSessions(rows, caller), SessionStartedAt, Limit);
  }

  /** `getSessions` as written: no `WHERE` clause, as for `RouterTodos.ListedAsWritten`, but a
      working `ORDER BY started_at`, since the ordering function returns the column itself. So
      these are the 30 oldest sessions of every owner, the latest of them first. */
  function OldestAsWritten(rows: seq<Session>, caller: string): (r: seq<Session>)
    ensures |r| == if |rows| < Limit then |rows| else Limit
    ensures multiset(r) <= multiset(rows)
    ensures |rows| <= Limit ==> multiset(r) == multiset(rows)
    ensures Lists.SortedDescBy(r, SessionStartedAt)
    ensures forall x, y :: x in r && y in rows && y !in r ==> SessionStartedAt(x) <= SessionStartedAt(y)
  {
    Lists.OldestReversed(rows, SessionStartedAt, Limit);
    Lists.Reverse(Lists.Take(Lists.SortBy(rows, SessionStartedAt), Limit))
  }

  /** As written, among at most 30 sessions one of another owner is listed to the caller; the
      owner filter of `OldestFor` withholds it. */
  lemma SessionLeaksAsWritten(rows: seq<Session>, caller: string, s: Session)
    requires |rows| <= Limit && s in rows && s.userId != Some(caller)
    ensures s in OldestAsWritten(rows, caller) && s !in OldestFor(rows, caller)
  {
    assert multiset(OldestAsWritten(rows, caller))[s] == multiset(rows)[s];
  }

  /** As written, the existence check of `completeSession` passes on any table that has a row,
      even when the caller owns no session with the id. */
  lemma CompleteLookupPassesAsWritten(rows: seq<Session>, id: string, caller: string)
    requires rows != [] && FindOwnedSession(rows, id, caller) == -1
    ensures AnyRow(rows).Some? && AnyRow(rows).value in rows
    ensures forall j :: 0 <= j < |rows| ==> !(rows[j].id == id && rows[j].userId == Some(caller))
  {
  }

  method GetSessions(table: SessionsTable, caller: string) returns (out: Outcome<seq<Session>>)
    ensures out == Returned(OldestFor(table.rows, caller))
  {
    var sessions := OldestFor(table.rows, caller);
    out := Returned(sessions);
  }

  /** The session `createSession` stores for a valid input: owned by the caller, todo id null
      when absent, not completed. */
  function NewSession(input: NewSessionInput, caller: string, freshId: string, now: int): (s: Session)
    requires ValidNewSession(input)
    ensures s.id == freshId && s.userId == Some(caller) && s.completedAt.None? && s.createdAt == now
    ensures s.todoId == input.todoId
    ensures KindName(s.kind) == input.kind && s.durationSecs == input.durationSecs > 0
    ensures s.startedAt == input.startedAt.ms
  {
    UuidTodoIdKept(input);
    Session(freshId, Some(caller), ApiPomodoro.TodoIdOrNull(input.todoId), ParseKind(input.kind).value,
            input.startedAt.ms, None, input.durationSecs, now)
  }

  /** A todo id that passed the schema is a uuid, so `|| null` never drops it. */
  lemma UuidTodoIdKept(input: NewSessionInput)
    requires ValidNewSession(input)
    ensures ApiPomodoro.TodoIdOrNull(input.todoId) == input.todoId
  {
    if input.todoId.Some? {
      UuidNonEmpty(input.todoId.value);
    }
  }

  method CreateSession(table: SessionsTable, caller: string, input: NewSessionInput, freshId: string, now: int)
    returns (out: Outcome<Session>)
    modifies table
    ensures !ValidNewSession(input) ==> out == Rejected && table.rows == old(table.rows)
    ensures ValidNewSession(input) ==>
      out == Returned(NewSession(input, caller, freshId, now)) &&
      table.rows == old(table.rows) + [NewSession(input, caller, freshId, now)]
  {
    if !ValidNewSession(input) {
      return Rejected;
    }
    var created := NewSession(input, caller, freshId, now);
    table.rows := table.rows + [created];
    out := Returned(created);
  }

  /** `completeSession`: refused without a uuid id; throws unless the caller owns a session with
      the id; otherwise sets `completedAt` to `now`, overwriting any earlier completion. */
  method CompleteSession(table: SessionsTable, caller: string, id: string, now: int) returns (out: Outcome<Session>)
    modifies table
    ensures !IsUuid(id) ==> out == Rejected && table.rows == old(table.rows)
    ensures IsUuid(id) && FindOwnedSession(old(table.rows), id, caller) == -1 ==>
      out == Threw("Session not found") && table.rows == old(table.rows)
    ensures IsUuid(id) && FindOwnedSession(old(table.rows), id, caller) >= 0 ==>
      table.rows == CompleteOwned(old(table.rows), id, caller, now) &&
      out == Returned(Completed(old(table.rows)[FindOwnedSession(old(table.rows), id, caller)], now))
  {
    if !IsUuid(id) {
      return Rejected;
    }
    var existing := FindOwnedSession(table.rows, id, caller);
    if existing == -1 {
      return Threw("Session not found");
    }
    table.rows := CompleteOwned(table.rows, id, caller, now);
    out := Returned(table.rows[existing]);
  }
}
