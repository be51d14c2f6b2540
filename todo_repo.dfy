/** The todo repositories (`src/core/repo/todo.repo.ts`): one over the REST API for a
    signed-in user, one over the local storage slot for a guest, and the factory choosing. */
module TodoRepo {
  import opened Wrappers
  import opened Records
  import opened Schemas
  import opened Storage
  import opened AuthStore
  import Remote
  import Js
  import Lists

  datatype RepoKind = ApiRepository | LocalRepository

  /** `createTodoRepo`: the API repository exactly when a user is signed in. */
  function CreateTodoRepo(user: Option<AuthUser>): (r: RepoKind)
    ensures r == ApiRepository <==> user.Some?
    ensures r == LocalRepository <==> user.None?
  {
    if user.Some? then ApiRepository else LocalRepository
  }

  /** What the fetch wrapper answers when the request never got a response. */
  function NetworkFailure<T>(): (r: ApiResponse<T>)
    ensures r.Failure? && r.error.message == "Network error occurred"
  {
    Failure(ApiError("NETWORK_ERROR", "Network error occurred"))
  }

  /** `getAll`, `add` and `update` of the API repository: the data of a successful response,
      otherwise an `Error` carrying the response's message. */
  function Unwrap<T>(response: ApiResponse<T>): (r: Remote.Settled<T>)
    ensures r.Ok? <==> response.Success?
    ensures r.Ok? ==> r.value == response.data
    ensures r.Failed? ==> r.thrown == Js.ErrorObject(response.error.message)
  {
    match response
    case Success(data) => Remote.Ok(data)
    case Failure(e) => Remote.Failed(Js.ErrorObject(e.message))
  }

  /** `delete` of the API repository: `true` on success and a thrown error otherwise. */
  function ApiDelete(response: ApiResponse<string>): (r: Remote.Settled<bool>)
    ensures r.Ok? <==> response.Success?
    ensures r.Failed? ==> r.thrown == Js.ErrorObject(response.error.message)
  {
    match response
    case Success(_) => Remote.Ok(true)
    case Failure(e) => Remote.Failed(Js.ErrorObject(e.message))
  }

  /** The API repository's delete never settles to `false`: a failure is always thrown. */
  lemma ApiDeleteNeverFalse(response: ApiResponse<string>)
    ensures ApiDelete(response) != Remote.Ok(false)
    ensures Unwrap(NetworkFailure<string>()) == Remote.Failed(Js.ErrorObject("Network error occurred"))
  {
  }

  /** `getAll` of the local repository. */
  method LocalGetAll(st: TodoStorage) returns (todos: seq<Todo>)
    ensures todos == st.GetTodos()
  {
    todos := st.GetTodos();
  }

  /** `add` of the local repository: the storage record, always not completed. */
  method LocalAdd(st: TodoStorage, title: string, freshId: string, now: int) returns (added: Option<Todo>)
    modifies st
    ensures added == Some(NewRecord(title, false, freshId, now)) && !added.value.completed
    ensures st.slot == Saved(old(st.GetTodos()) + [added.value])
  {
    var t := st.AddTodo(title, false, freshId, now);
    added := Some(t);
  }

  /** `update` of the local repository: storage's answer, `null` for an unknown id. */
  method LocalUpdate(st: TodoStorage, id: string, updates: TodoPatch, now: int) returns (r: Option<Todo>)
    modifies st
    ensures r.None? <==> id !in Ids(old(st.GetTodos()), TodoId)
    ensures r.None? ==> st.slot == old(st.slot)
    ensures r.Some? ==> st.slot == Saved(Updated(old(st.GetTodos()), id, updates, now).value)
  {
    r := st.UpdateTodo(id, updates, now);
  }

  /** `delete` of the local repository: storage's answer, `false` for an unknown id. */
  method LocalDelete(st: TodoStorage, id: string) returns (deleted: bool)
    modifies st
    ensures deleted <==> id in Ids(old(st.GetTodos()), TodoId)
    ensures !deleted ==> st.slot == old(st.slot)
    ensures deleted ==> st.slot == Saved(Lists.Without(old(st.GetTodos()), TodoId, id))
  {
    deleted := st.DeleteTodo(id);
  }

  /** `clear`: empties the local slot for the local repository; the API repository's `clear` is
      empty, so no record anywhere is touched. */
  method Clear(kind: RepoKind, st: TodoStorage)
    modifies st
    ensures kind == LocalRepository ==> st.slot == Absent
    ensures kind == ApiRepository ==> st.slot == old(st.slot)
  {
    if kind == LocalRepository {
      st.ClearTodos();
    }
  }
}
