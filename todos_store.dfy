/** The guest's in-memory todo list (`src/core/store/todos.ts`): the zustand store behind the
    todo widget when nobody is signed in, persisted under `todos-storage`. */
module TodosStore {
  import opened Wrappers
  import opened Records
  import Js
  import Lists

  /** What `storage.getTodos()` gave `initFromStorage`: the list, or the value it threw. */
  datatype LoadOutcome = Loaded(todos: seq<Todo>) | LoadFailed(thrown: Js.Thrown)

  /** The fallback message when the thrown value carries none. */
  const LoadFailedMessage: string := "Failed to load todos"

  /** `localTodos.map(t => t.id === id ? { ...t, ...updates } : t)`. */
  function PatchAll(s: seq<Todo>, id: string, p: TodoPatch): (r: seq<Todo>)
    ensures |r| == |s|
    ensures forall i :: 0 <= i < |s| ==> r[i] == if s[i].id == id then ApplyPatch(s[i], p) else s[i]
  {
    Lists.MapWhere(s, TodoId, id, Patcher(p))
  }

  /** Patching every entry with an id keeps the ids, and doing it twice is doing it once. */
  lemma {:induction false} PatchAllIdempotent(s: seq<Todo>, id: string, p: TodoPatch)
    ensures forall i :: 0 <= i < |s| ==> PatchAll(s, id, p)[i].id == s[i].id
    ensures PatchAll(PatchAll(s, id, p), id, p) == PatchAll(s, id, p)
  {
    var once := PatchAll(s, id, p);
    var twice := PatchAll(once, id, p);
    forall i | 0 <= i < |s| ensures twice[i] == once[i] {
      if s[i].id == id {
        PatchIdempotent(s[i], p);
      }
    }
  }

  /** `useTodosStore`. Only `localTodos` is persisted. */
  class Store {
    var localTodos: seq<Todo>
    var loading: bool
    var error: Option<string>

    /** The store as `create` leaves it. `persist` reads `todos-storage` from local storage, which
        answers at once, so the list `persisted` saved by an earlier visit (the empty list when
        the key is missing or does not parse) is merged over the initial state before anything
        renders: the todos come back, but loading is still on and there is no error. */
    constructor (persisted: seq<Todo>)
      ensures localTodos == persisted && loading && error == None
    {
      localTodos, loading, error := persisted, true, None;
    }

    /** `partialize`: what survives a reload. */
    function Persisted(): (r: seq<Todo>)
      reads this
      ensures r == localTodos
    {
      localTodos
    }

    method SetLocalTodos(todos: seq<Todo>)
      modifies this
      ensures localTodos == todos && loading == old(loading) && error == old(error)
    {
      localTodos := todos;
    }

    /** `addLocalTodo`: appends at the end. */
    method AddLocalTodo(t: Todo)
      modifies this
      ensures localTodos == old(localTodos) + [t] && loading == old(loading) && error == old(error)
    {
      localTodos := localTodos + [t];
    }

    /** `updateLocalTodo`: merges the patch into every entry with the id. */
    method UpdateLocalTodo(id: string, updates: TodoPatch)
      modifies this
      ensures localTodos == PatchAll(old(localTodos), id, updates)
      ensures loading == old(loading) && error == old(error)
    {
      localTodos := PatchAll(localTodos, id, updates);
    }

    /** `removeLocalTodo`: drops every entry with the id, keeping the others in order. */
    method RemoveLocalTodo(id: string)
      modifies this
      ensures localTodos == Lists.Without(old(localTodos), TodoId, id)
      ensures loading == old(loading) && error == old(error)
    {
      localTodos := Lists.Without(localTodos, TodoId, id);
    }

    method SetLoading(value: bool)
      modifies this
      ensures loading == value && localTodos == old(localTodos) && error == old(error)
    {
      loading := value;
    }

    method SetError(value: Option<string>)
      modifies this
      ensures error == value && localTodos == old(localTodos) && loading == old(loading)
    {
      error := value;
    }

    /** `clearLocalTodos`: empties the list and touches nothing else. */
    method ClearLocalTodos()
      modifies this
      ensures localTodos == [] && loading == old(loading) && error == old(error)
    {
      localTodos := [];
    }

    /** `initFromStorage`: on success the stored list replaces the local one and the error is
        cleared; on failure the list is kept and the error recorded. Loading ends either way. */
    method InitFromStorage(outcome: LoadOutcome)
      modifies this
      ensures !loading
      ensures outcome.Loaded? ==> localTodos == outcome.todos && error == None
      ensures outcome.LoadFailed? ==>
        localTodos == old(localTodos) && error == Some(Js.MessageOr(outcome.thrown, LoadFailedMessage))
    {
      match outcome
      case Loaded(stored) =>
        localTodos, loading, error := stored, false, None;
      case LoadFailed(e) =>
        error, loading := Some(Js.MessageOr(e, LoadFailedMessage)), false;
    }
  }
}
