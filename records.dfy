/** The two kinds of record the application keeps: todos and Pomodoro sessions, in the
    shape shared by the browser's local store and the `todos` and `pomodoro_sessions`
    tables. Timestamps, ISO strings or database timestamps in the source, are milliseconds. */
module Records {
  import opened Wrappers
  import opened Timer

  /** A todo. `userId` is absent for a guest's local todo and nullable in the table. */
  datatype Todo = Todo(id: string, userId: Option<string>, title: string, completed: bool, createdAt: int, updatedAt: int)

  /** `Partial<{ title, completed }>`: the fields a caller asks to change. */
  datatype TodoPatch = TodoPatch(title: Option<string>, completed: Option<bool>)

  /** `{ ...t, ...p }`: the present fields of the patch override, everything else is kept. */
  function ApplyPatch(t: Todo, p: TodoPatch): (r: Todo)
    ensures r.id == t.id && r.userId == t.userId && r.createdAt == t.createdAt && r.updatedAt == t.updatedAt
    ensures r.title == if p.title.Some? then p.title.value else t.title
    ensures r.completed == if p.completed.Some? then p.completed.value else t.completed
  {
    t.(title := if p.title.Some? then p.title.value else t.title,
       completed := if p.completed.Some? then p.completed.value else t.completed)
  }

  /** Applying the same patch twice is applying it once, and the empty patch changes nothing. */
  lemma PatchIdempotent(t: Todo, p: TodoPatch)
    ensures ApplyPatch(ApplyPatch(t, p), p) == ApplyPatch(t, p)
    ensures ApplyPatch(t, TodoPatch(None, None)) == t
  {
  }

  /** The patch as the updater handed to `map`. */
  function Patcher(p: TodoPatch): Todo -> Todo {
    t => ApplyPatch(t, p)
  }

  function TodoId(t: Todo): string { t.id }
  function TodoOwner(t: Todo): Option<string> { t.userId }
  function TodoCreatedAt(t: Todo): int { t.createdAt }

  /** The pair a `where id = ? and user_id = ?` clause compares. */
  function TodoKey(t: Todo): (string, Option<string>) { (t.id, t.userId) }

  /** A Pomodoro session. `todoId` and `completedAt` are nullable. */
  datatype Session = Session(
    id: string,
    userId: Option<string>,
    todoId: Option<string>,
    kind: SessionKind,
    startedAt: int,
    completedAt: Option<int>,
    durationSecs: int,
    createdAt: int)

  function SessionId(s: Session): string { s.id }
  function SessionOwner(s: Session): Option<string> { s.userId }
  function SessionStartedAt(s: Session): int { s.startedAt }
  function SessionKey(s: Session): (string, Option<string>) { (s.id, s.userId) }

  /** No two records share an id (the primary key of both tables). */
  predicate UniqueIds<T>(s: seq<T>, id: T -> string) {
    forall i, j :: 0 <= i < j < |s| ==> id(s[i]) != id(s[j])
  }

  /** The ids present in a list of records. */
  function Ids<T>(s: seq<T>, id: T -> string): (r: set<string>)
    ensures forall i :: 0 <= i < |s| ==> id(s[i]) in r
    ensures forall k :: k in r ==> exists i :: 0 <= i < |s| && id(s[i]) == k
  {
    if s == [] then {} else {id(s[0])} + Ids(s[1..], id)
  }

  /** Appending a record whose id is new keeps the ids unique. */
  lemma {:induction false} AppendFresh<T>(s: seq<T>, id: T -> string, x: T)
    requires UniqueIds(s, id) && id(x) !in Ids(s, id)
    ensures UniqueIds(s + [x], id)
  {
    forall i, j | 0 <= i < j < |s + [x]| ensures id((s + [x])[i]) != id((s + [x])[j]) {
      if j == |s| {
        assert id(s[i]) in Ids(s, id);
      }
    }
  }
}
