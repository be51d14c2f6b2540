/** The `usePomodoro` hook (`src/hooks/usePomodoro.ts`): the session history a component sees and
    the operations recording a session's start and completion, on the server for a signed-in user
    and in local storage for a guest. The three storage helpers for sessions are not part of this
    model, so what each of them answers, or throws, is a parameter. */
module UsePomodoro {
  import opened Wrappers
  import opened Records
  import opened Schemas
  import opened Timer
  import opened AuthStore
  import Server
  import RouterPomodoro
  import Remote
  import Lists
  import Js

  /** What `getPomodoroSessions` gives: the stored list, or the value it throws. */
  datatype LoadReply = Stored(sessions: seq<Session>) | LoadThrew(thrown: Js.Thrown)

  /** The record a guest's `startSession` hands to `addPomodoroSession`. */
  datatype NewLocalSession = NewLocalSession(todoId: Option<string>, kind: SessionKind, startedAt: int,
                                             durationSecs: int, completedAt: Option<int>)

  /** What `addPomodoroSession` gives: the stored session, or the value it throws. */
  datatype AddReply = Added(session: Session) | AddThrew(thrown: Js.Thrown)

  /** What `updatePomodoroSession` gives: the updated session or `null`, or the value it throws. */
  datatype UpdateReply = UpdatedTo(session: Option<Session>) | UpdateThrew(thrown: Js.Thrown)

  /** What the `getSessions` query holds for a signed-in user. */
  datatype Query = Query(data: Option<seq<Session>>, errorMessage: Option<string>, isLoading: bool)

  datatype SessionsView = SessionsView(sessions: seq<Session>, loading: bool, error: Option<string>)

  /** `{ ...s, userId: '' }` on every session. */
  function Anonymized(s: seq<Session>): (r: seq<Session>)
    ensures |r| == |s|
    ensures forall i :: 0 <= i < |s| ==> r[i].userId == Some("") && r[i].(userId := s[i].userId) == s[i]
  {
    if s == [] then [] else [s[0].(userId := Some(""))] + Anonymized(s[1..])
  }

  /** `sessions`, `error` and `loading`: the query's, owner blanked out, for a signed-in user; the
      local state otherwise. */
  function View(user: Option<AuthUser>, q: Query, localSessions: seq<Session>, loading: bool, error: Option<string>)
    : (v: SessionsView)
    ensures user.None? ==> v == SessionsView(localSessions, loading, error)
    ensures user.Some? ==> |v.sessions| == (if q.data.Some? then |q.data.value| else 0) && v.loading == q.isLoading
    ensures user.Some? ==> forall x :: x in v.sessions ==> x.userId == Some("")
    ensures user.Some? && q.data.Some? ==>
      forall i :: 0 <= i < |q.data.value| ==> v.sessions[i].id == q.data.value[i].id
    ensures user.Some? && q.data.Some? ==> v.sessions == Anonymized(q.data.value)
    ensures user.Some? && q.data.None? ==> v.sessions == []
    ensures user.Some? ==> (v.error.Some? <==> q.errorMessage.Some? && q.errorMessage.value != "")
    ensures user.Some? && v.error.Some? ==> v.error == q.errorMessage
  {
    if user.Some? then
      SessionsView(Anonymized(if q.data.Some? then q.data.value else []),
                   q.isLoading,
                   if q.errorMessage.Some? && q.errorMessage.value != "" then q.errorMessage else None)
    else
      SessionsView(localSessions, loading, error)
  }

  /** Blanking the owner twice is blanking it once, and it keeps ids and start times. */
  lemma {:induction false} AnonymizedIdempotent(s: seq<Session>)
    ensures Anonymized(Anonymized(s)) == Anonymized(s)
    ensures forall i :: 0 <= i < |s| ==> Anonymized(s)[i].id == s[i].id && Anonymized(s)[i].startedAt == s[i].startedAt
  {
    var once := Anonymized(s);
    var twice := Anonymized(once);
    forall i | 0 <= i < |s| ensures twice[i] == once[i] {
      assert twice[i].(userId := once[i].userId) == once[i];
    }
  }

  /** `() => updated` for the entries a completion replaces. */
  function Replacer(u: Session): Session -> Session {
    _ => u
  }

  /** `prev.map(s => s.id === sessionId ? updated : s)`. */
  function ReplaceAll(s: seq<Session>, id: string, u: Session): (r: seq<Session>)
    ensures |r| == |s|
    ensures forall i :: 0 <= i < |s| ==> r[i] == if s[i].id == id then u else s[i]
  {
    Lists.MapWhere(s, SessionId, id, Replacer(u))
  }

  /** Replacing a second time with the same record changes nothing more, whatever its id. */
  lemma {:induction false} ReplaceAllIdempotent(s: seq<Session>, id: string, u: Session)
    ensures ReplaceAll(ReplaceAll(s, id, u), id, u) == ReplaceAll(s, id, u)
  {
    var once := ReplaceAll(s, id, u);
    var twice := ReplaceAll(once, id, u);
    forall i | 0 <= i < |s| ensures twice[i] == once[i] {
    }
  }

  /** The local part of the hook: `localSessions`, `loading` and `error`. */
  class Hook {
    var localSessions: seq<Session>
    var loading: bool
    var error: Option<string>

    /** Mounting: the lazy `useState` initializer loads the stored sessions once. */
    constructor (load: LoadReply)
      ensures !loading
      ensures load.Stored? ==> localSessions == load.sessions && error == None
      ensures load.LoadThrew? ==>
        localSessions == [] && error == Some(Js.MessageOr(load.thrown, "Failed to load sessions"))
    {
      localSessions, loading, error := [], true, None;
      new;
      InitLocalSessions(load);
    }

    /** `initLocalSessions`: a successful load replaces the list and keeps the error as it was; a
        failed one keeps the list and records the error. Loading ends either way. */
    method InitLocalSessions(load: LoadReply)
      modifies this
      ensures !loading
      ensures load.Stored? ==> localSessions == load.sessions && error == old(error)
      ensures load.LoadThrew? ==>
        localSessions == old(localSessions) && error == Some(Js.MessageOr(load.thrown, "Failed to load sessions"))
    {
      loading := true;
      match load {
        case Stored(stored) =>
          localSessions := stored;
        case LoadThrew(e) =>
          error := Some(Js.MessageOr(e, "Failed to load sessions"));
      }
      loading := false;
    }

    /** `fetchSessions`: a guest reloads from storage; a signed-in user's refetch is the query's. */
    method FetchSessions(user: Option<AuthUser>, load: LoadReply)
      modifies this
      ensures user.Some? ==>
        localSessions == old(localSessions) && loading == old(loading) && error == old(error)
      ensures user.None? && load.Stored? ==> localSessions == load.sessions && !loading && error == old(error)
      ensures user.None? && load.LoadThrew? ==>
        localSessions == old(localSessions) && !loading && error == Some(Js.MessageOr(load.thrown, "Failed to load sessions"))
    {
      if user.None? {
        InitLocalSessions(load);
      }
    }

    /** `startSession`. The error is cleared first. A signed-in user's session goes to
        `createSession` and comes back with the owner blanked out; a guest's goes to
        `addPomodoroSession` as a running session and is appended. A failure gives `null` and is
        recorded only for a guest. */
    method StartSession(user: Option<AuthUser>, table: Server.SessionsTable, link: Remote.Link,
                        kind: SessionKind, durationSecs: int, todoId: Option<string>, now: int, freshId: string,
                        add: NewLocalSession -> AddReply)
      returns (r: Option<Session>)
      modifies this, table
      ensures loading == old(loading)
      ensures user.Some? ==>
        var input := NewSessionInput(todoId, KindName(kind), TimeField.At(now), durationSecs);
        localSessions == old(localSessions) && error == None &&
        (r.Some? <==> link.Up? && ValidNewSession(input)) &&
        (r.Some? ==> r.value == RouterPomodoro.NewSession(input, user.value.sub, freshId, now).(userId := Some("")) &&
                     table.rows == old(table.rows) + [RouterPomodoro.NewSession(input, user.value.sub, freshId, now)]) &&
        (r.None? ==> table.rows == old(table.rows))
      ensures user.None? ==> table.rows == old(table.rows)
      ensures user.None? ==>
        match add(NewLocalSession(todoId, kind, now, durationSecs, None))
        case Added(s) => r == Some(s) && localSessions == old(localSessions) + [s] && error == None
        case AddThrew(e) =>
          r.None? && localSessions == old(localSessions) && error == Some(Js.MessageOr(e, "Failed to start session"))
    {
      error := None;
      if user.Some? {
        if link.Down? {
          return None;
        }
        var input := NewSessionInput(todoId, KindName(kind), TimeField.At(now), durationSecs);
        var out := RouterPomodoro.CreateSession(table, user.value.sub, input, freshId, now);
        var settled := Remote.Settle(out);
        r := if settled.Ok? then Some(settled.value.(userId := Some(""))) else None;
      } else {
        match add(NewLocalSession(todoId, kind, now, durationSecs, None))
        case Added(created) =>
          localSessions := localSessions + [created];
          r := Some(created);
        case AddThrew(e) =>
          error := Some(Js.MessageOr(e, "Failed to start session"));
          r := None;
      }
    }

    /** `completeSession`. The error is cleared first. A signed-in user's completion goes to
        `completeSession`; a guest's goes to `updatePomodoroSession` with the current time, and the
        record it returns replaces every entry with the id. A failure is recorded only for a guest. */
    method CompleteSession(user: Option<AuthUser>, table: Server.SessionsTable, link: Remote.Link,
                           sessionId: string, now: int, update: (string, int) -> UpdateReply)
      modifies this, table
      ensures loading == old(loading)
      ensures user.Some? ==> localSessions == old(localSessions) && error == None
      ensures user.Some? ==>
        var found := Server.FindOwnedSession(old(table.rows), sessionId, user.value.sub);
        if link.Up? && IsUuid(sessionId) && found >= 0
        then table.rows == Server.CompleteOwned(old(table.rows), sessionId, user.value.sub, now)
        else table.rows == old(table.rows)
      ensures user.None? ==> table.rows == old(table.rows)
      ensures user.None? ==>
        match update(sessionId, now)
        case UpdatedTo(Some(u)) => localSessions == ReplaceAll(old(localSessions), sessionId, u) && error == None
        case UpdatedTo(None) => localSessions == old(localSessions) && error == None
        case UpdateThrew(e) =>
          localSessions == old(localSessions) && error == Some(Js.MessageOr(e, "Failed to complete session"))
    {
      error := None;
      if user.Some? {
        if link.Up? {
          var _ := RouterPomodoro.CompleteSession(table, user.value.sub, sessionId, now);
        }
      } else {
        match update(sessionId, now)
        case UpdatedTo(updated) =>
          if updated.Some? {
            localSessions := ReplaceAll(localSessions, sessionId, updated.value);
          }
        case UpdateThrew(e) =>
          error := Some(Js.MessageOr(e, "Failed to complete session"));
      }
    }
  }
}
