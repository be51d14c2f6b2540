/** The `useTodos` hook (`src/hooks/useTodos.ts`): the todo list a component sees, read from the
    server for a signed-in user and from the guest store otherwise, and the operations that change
    it. A remote call is the matching tRPC procedure on the `todos` table, for the caller `user.sub`,
    reached over a link that may lose the request. */
module UseTodos {
  import opened Wrappers
  import opened Records
  import opened Schemas
  import opened Storage
  import opened AuthStore
  import Server
  import RouterTodos
  import TodosStore
  import Remote
  import Js
  import Lists

  /** What the `getAll` query holds for a signed-in user: its data, its error message, and
      whether it is still loading. */
  datatype Query = Query(data: Option<seq<Todo>>, errorMessage: Option<string>, isLoading: bool)

  /** What the hook hands to components. */
  datatype TodosView = TodosView(todos: seq<Todo>, loading: bool, error: Option<string>)

  /** `todos`, `error` and `loading`: the query's for a signed-in user (no data yet reads as the
      empty list, an empty message as no error), the guest store's otherwise. */
  function View(user: Option<AuthUser>, q: Query, localTodos: seq<Todo>, localLoading: bool, localError: Option<string>)
    : (v: TodosView)
    ensures user.None? ==> v == TodosView(localTodos, localLoading, localError)
    ensures user.Some? ==> v.todos == (if q.data.Some? then q.data.value else []) && v.loading == q.isLoading
    ensures user.Some? ==> (v.error.Some? <==> q.errorMessage.Some? && q.errorMessage.value != "")
    ensures user.Some? && v.error.Some? ==> v.error == q.errorMessage
  {
    if user.Some? then
      TodosView(if q.data.Some? then q.data.value else [],
                q.isLoading,
                if q.errorMessage.Some? && q.errorMessage.value != "" then q.errorMessage else None)
    else
      TodosView(localTodos, localLoading, localError)
  }

  /** A signed-in user's view does not depend on the guest store at all. */
  lemma SignedInIgnoresGuestStore(user: Option<AuthUser>, q: Query,
                                  a: seq<Todo>, la: bool, ea: Option<string>,
                                  b: seq<Todo>, lb: bool, eb: Option<string>)
    requires user.Some?
    ensures View(user, q, a, la, ea) == View(user, q, b, lb, eb)
  {
  }

  /** `initLocalTodos`: loading starts, then the store takes over what storage holds. Reading the
      slot never throws, so the load always succeeds. */
  method InitLocalTodos(store: TodosStore.Store, st: TodoStorage)
    modifies store
    ensures store.localTodos == st.GetTodos() && !store.loading && store.error == None
  {
    store.SetLoading(true);
    store.InitFromStorage(TodosStore.Loaded(st.GetTodos()));
  }

  /** The check made on every render: a guest whose store is empty and still loading reads storage. */
  method OnRender(user: Option<AuthUser>, store: TodosStore.Store, st: TodoStorage)
    modifies store
    ensures user.None? && |old(store.localTodos)| == 0 && old(store.loading) ==>
      store.localTodos == st.GetTodos() && !store.loading && store.error == None
    ensures !(user.None? && |old(store.localTodos)| == 0 && old(store.loading)) ==>
      store.localTodos == old(store.localTodos) && store.loading == old(store.loading) && store.error == old(store.error)
  {
    if user.None? && |store.localTodos| == 0 && store.loading {
      InitLocalTodos(store, st);
    }
  }

  /** A guest's first render as written: the store comes back from `todos-storage` and the
      check runs. A first visit loads from storage; a returning guest's saved list is not
      empty, so the check never fires and the list stays loading, which `TodoList` shows as
      "Loading..." until something calls `refetch`. */
  method MountAsWritten(persisted: seq<Todo>, st: TodoStorage) returns (store: TodosStore.Store)
    ensures persisted == [] ==> store.localTodos == st.GetTodos() && !store.loading && store.error == None
    ensures persisted != [] ==> store.localTodos == persisted && store.loading && store.error == None
    ensures persisted != [] ==> View(None, Query(None, None, false), store.localTodos, store.loading, store.error).loading
  {
    store := new TodosStore.Store(persisted);
    OnRender(None, store, st);
  }

  /** The check as evidently meant: a guest's store that is still loading reads storage,
      whatever the reload put in it. */
  method OnRenderLoadsOnce(user: Option<AuthUser>, store: TodosStore.Store, st: TodoStorage)
    modifies store
    ensures user.None? && old(store.loading) ==>
      store.localTodos == st.GetTodos() && !store.loading && store.error == None
    ensures !(user.None? && old(store.loading)) ==>
      store.localTodos == old(store.localTodos) && store.loading == old(store.loading) && store.error == old(store.error)
  {
    if user.None? && store.loading {
      InitLocalTodos(store, st);
    }
  }

  /** A guest's first render with that check: loading always ends, with what storage holds,
      whether or not an earlier visit left a list in `todos-storage`. */
  method Mount(persisted: seq<Todo>, st: TodoStorage) returns (store: TodosStore.Store)
    ensures store.localTodos == st.GetTodos() && !store.loading && store.error == None
    ensures !View(None, Query(None, None, false), store.localTodos, store.loading, store.error).loading
  {
    store := new TodosStore.Store(persisted);
    OnRenderLoadsOnce(None, store, st);
  }

  /** `addTodo`. A guest's title goes to storage as a new, not completed record and is appended to
      the store; a signed-in user's goes to `create`. A failure gives `null`. The guest branch
      cannot fail and the signed-in branch never records an error, so the store's error is
      never touched. */
  method AddTodo(user: Option<AuthUser>, store: TodosStore.Store, st: TodoStorage, table: Server.TodosTable,
                 link: Remote.Link, title: string, freshId: string, now: int)
    returns (r: Option<Todo>)
    modifies store, st, table
    ensures store.error == old(store.error) && store.loading == old(store.loading)
    ensures user.None? ==>
      r == Some(NewRecord(title, false, freshId, now)) &&
      st.slot == Saved(old(st.GetTodos()) + [r.value]) &&
      store.localTodos == old(store.localTodos) + [r.value] &&
      table.rows == old(table.rows)
    ensures user.Some? ==> st.slot == old(st.slot) && store.localTodos == old(store.localTodos)
    ensures user.Some? ==>
      (r.Some? <==> link.Up? && ValidNewTodo(title)) &&
      (r.Some? ==> r.value == Todo(freshId, Some(user.value.sub), title, false, now, now) &&
                   table.rows == old(table.rows) + [r.value]) &&
      (r.None? ==> table.rows == old(table.rows))
  {
    if user.Some? {
      if link.Down? {
        return None;
      }
      var out := RouterTodos.Create(table, user.value.sub, title, freshId, now);
      var settled := Remote.Settle(out);
      r := if settled.Ok? then Some(settled.value) else None;
    } else {
      var added := st.AddTodo(title, false, freshId, now);
      store.AddLocalTodo(added);
      r := Some(added);
    }
  }

  /** `updateTodo`. A guest's update goes to storage and, when storage found the id, the same
      fields are merged into the store; a signed-in user's goes to `update`. A failure gives
      `null` and records nothing. */
  method UpdateTodo(user: Option<AuthUser>, store: TodosStore.Store, st: TodoStorage, table: Server.TodosTable,
                    link: Remote.Link, id: string, updates: TodoPatch, now: int)
    returns (r: Option<Todo>)
    modifies store, st, table
    ensures store.error == old(store.error) && store.loading == old(store.loading)
    ensures user.None? ==> table.rows == old(table.rows)
    ensures user.None? ==> (r.Some? <==> id in Ids(old(st.GetTodos()), TodoId))
    ensures user.None? && r.None? ==> st.slot == old(st.slot) && store.localTodos == old(store.localTodos)
    ensures user.None? && r.Some? ==>
      st.slot == Saved(Updated(old(st.GetTodos()), id, updates, now).value) &&
      store.localTodos == TodosStore.PatchAll(old(store.localTodos), id, updates)
    ensures user.Some? ==> st.slot == old(st.slot) && store.localTodos == old(store.localTodos)
    ensures user.Some? ==>
      var caller := user.value.sub;
      var found := Server.FindOwnedTodo(old(table.rows), id, caller);
      (r.Some? <==> link.Up? && IsUuid(id) && found >= 0) &&
      (r.Some? ==> r.value == ApplyPatch(old(table.rows)[found], updates) &&
                   table.rows == Server.PatchOwned(old(table.rows), id, caller, updates)) &&
      (r.None? ==> table.rows == old(table.rows))
  {
    if user.Some? {
      if link.Down? {
        return None;
      }
      var out := RouterTodos.Update(table, user.value.sub, UpdateTodoInput(id, updates.title, updates.completed));
      var settled := Remote.Settle(out);
      r := if settled.Ok? then Some(settled.value) else None;
    } else {
      var updated := st.UpdateTodo(id, updates, now);
      if updated.Some? {
        store.UpdateLocalTodo(id, updates);
      }
      r := updated;
    }
  }

  /** After a guest's update the stored record carries the new `updatedAt`, but the store's copy
      keeps the old one: only the sent fields are merged into it. */
  lemma GuestCopyKeepsOldStamp(s: seq<Todo>, id: string, p: TodoPatch, now: int)
    requires id in Ids(s, TodoId)
    ensures var i := Lists.FindIndex(s, TodoId, id);
      0 <= i < |s| &&
      Updated(s, id, p, now).value[i].updatedAt == now &&
      TodosStore.PatchAll(s, id, p)[i].updatedAt == s[i].updatedAt
  {
    UpdatedChangesFirstMatch(s, id, p, now);
  }

  /** `deleteTodo`. A guest's delete goes to storage and, when it removed something, to the store;
      a signed-in user's goes to `delete` and answers `true` whenever it settles. A failure gives
      `false` and records nothing. */
  method DeleteTodo(user: Option<AuthUser>, store: TodosStore.Store, st: TodoStorage, table: Server.TodosTable,
                    link: Remote.Link, id: string)
    returns (deleted: bool)
    modifies store, st, table
    ensures store.error == old(store.error) && store.loading == old(store.loading)
    ensures user.None? ==> table.rows == old(table.rows)
    ensures user.None? ==> (deleted <==> id in Ids(old(st.GetTodos()), TodoId))
    ensures user.None? && !deleted ==> st.slot == old(st.slot) && store.localTodos == old(store.localTodos)
    ensures user.None? && deleted ==>
      st.slot == Saved(Lists.Without(old(st.GetTodos()), TodoId, id)) &&
      store.localTodos == Lists.Without(old(store.localTodos), TodoId, id)
    ensures user.Some? ==> st.slot == old(st.slot) && store.localTodos == old(store.localTodos)
    ensures user.Some? ==>
      var caller := user.value.sub;
      (deleted <==> link.Up? && IsUuid(id) && Server.FindOwnedTodo(old(table.rows), id, caller) >= 0) &&
      (deleted ==> table.rows == Server.DeleteOwned(old(table.rows), id, caller)) &&
      (!deleted ==> table.rows == old(table.rows))
  {
    if user.Some? {
      if link.Down? {
        return false;
      }
      var out := RouterTodos.Delete(table, user.value.sub, id);
      var settled := Remote.Settle(out);
      deleted := settled.Ok?;
    } else {
      deleted := st.DeleteTodo(id);
      if deleted {
        store.RemoveLocalTodo(id);
      }
    }
  }

  /** Whether the `k`-th migration request gets through and is accepted. */
  predicate Accepted(snapshot: seq<Todo>, links: nat -> Remote.Link, k: nat)
    requires k < |snapshot|
  {
    links(k).Up? && ValidNewTodo(snapshot[k].title)
  }

  /** The index of the first migration request that fails, from `k` on; `|snapshot|` when none does. */
  function StopFrom(snapshot: seq<Todo>, links: nat -> Remote.Link, k: nat): (r: nat)
    requires k <= |snapshot|
    ensures k <= r <= |snapshot|
    ensures forall j :: k <= j < r ==> Accepted(snapshot, links, j)
    ensures r < |snapshot| ==> !Accepted(snapshot, links, r)
    decreases |snapshot| - k
  {
    if k == |snapshot| then k
    else if !Accepted(snapshot, links, k) then k
    else StopFrom(snapshot, links, k + 1)
  }

  /** The first failing request is the only index both preceded by accepted requests and failing. */
  lemma StopIsFirstFailure(snapshot: seq<Todo>, links: nat -> Remote.Link, i: nat)
    requires i <= |snapshot|
    requires forall j :: 0 <= j < i ==> Accepted(snapshot, links, j)
    requires i < |snapshot| ==> !Accepted(snapshot, links, i)
    ensures StopFrom(snapshot, links, 0) == i
  {
  }

  /** The row `create` stores for a migrated todo: only the title travels. */
  function MigratedRow(t: Todo, caller: string, freshId: string, now: int): (r: Todo)
    ensures r.title == t.title && !r.completed && r.userId == Some(caller) && r.id == freshId
  {
    Todo(freshId, Some(caller), t.title, false, now, now)
  }

  /** The rows the first `n` migration requests create, in order. */
  function Created(snapshot: seq<Todo>, caller: string, ids: nat -> string, clock: nat -> int, n: nat)
    : (r: seq<Todo>)
    requires n <= |snapshot|
    ensures |r| == n
    ensures forall k :: 0 <= k < n ==> r[k] == MigratedRow(snapshot[k], caller, ids(k), clock(k))
  {
    if n == 0 then [] else Created(snapshot, caller, ids, clock, n - 1) + [MigratedRow(snapshot[n - 1], caller, ids(n - 1), clock(n - 1))]
  }

  /** The message recorded when the migration stops at request `k`: the lost request's, or the
      schema's refusal. */
  function MigrationError(snapshot: seq<Todo>, links: nat -> Remote.Link, k: nat): (m: string)
    requires k < |snapshot| && !Accepted(snapshot, links, k)
    ensures links(k).Down? ==> m == links(k).message
    ensures links(k).Up? ==> m == Remote.SchemaRejection
  {
    if links(k).Down? then links(k).message else Remote.SchemaRejection
  }

  /** `migrateToApi`: nothing for a guest. Otherwise each title of the snapshot is sent to `create`
      in order, stopping at the first failure. Only when every one was created are storage and the
      store emptied; otherwise both are kept, the rows already created stay, and the error is set. */
  method MigrateToApi(user: Option<AuthUser>, store: TodosStore.Store, st: TodoStorage, table: Server.TodosTable,
                      snapshot: seq<Todo>, links: nat -> Remote.Link, ids: nat -> string, clock: nat -> int)
    returns (ok: bool)
    modifies store, st, table
    ensures user.None? ==>
      !ok && table.rows == old(table.rows) && st.slot == old(st.slot) &&
      store.localTodos == old(store.localTodos) && store.error == old(store.error)
    ensures ok <==> user.Some? && StopFrom(snapshot, links, 0) == |snapshot|
    ensures user.Some? ==>
      table.rows == old(table.rows) + Created(snapshot, user.value.sub, ids, clock, StopFrom(snapshot, links, 0))
    ensures ok ==> st.slot == Absent && store.localTodos == [] && store.error == old(store.error)
    ensures user.Some? && !ok ==>
      st.slot == old(st.slot) && store.localTodos == old(store.localTodos) &&
      store.error == Some(MigrationError(snapshot, links, StopFrom(snapshot, links, 0)))
    ensures store.loading == old(store.loading)
  {
    if user.None? {
      return false;
    }
    var failure, sent := CreateInOrder(table, user.value.sub, snapshot, links, ids, clock);
    if failure.None? {
      st.ClearTodos();
      store.ClearLocalTodos();
      ok := true;
    } else {
      store.SetError(Some(Js.MessageOr(failure.value, "Failed to migrate todos")));
      ok := false;
    }
  }

  /** The loop of `migrateToApi`: each title goes to `create` in order until one fails. */
  method CreateInOrder(table: Server.TodosTable, caller: string, snapshot: seq<Todo>, links: nat -> Remote.Link,
                       ids: nat -> string, clock: nat -> int)
    returns (failure: Option<Js.Thrown>, sent: nat)
    modifies table
    ensures sent == StopFrom(snapshot, links, 0)
    ensures failure.None? <==> sent == |snapshot|
    ensures failure.Some? ==>
      sent < |snapshot| && !Accepted(snapshot, links, sent) &&
      failure.value == Js.ErrorObject(MigrationError(snapshot, links, sent))
    ensures table.rows == old(table.rows) + Created(snapshot, caller, ids, clock, sent)
  {
    failure := None;
    sent := 0;
    while failure.None? && sent < |snapshot|
      invariant 0 <= sent <= |snapshot|
      invariant forall j :: 0 <= j < sent ==> Accepted(snapshot, links, j)
      invariant failure.Some? ==>
        sent < |snapshot| && !Accepted(snapshot, links, sent) &&
        failure.value == Js.ErrorObject(MigrationError(snapshot, links, sent))
      invariant table.rows == old(table.rows) + Created(snapshot, caller, ids, clock, sent)
      decreases |snapshot| - sent, if failure.None? then 1 else 0
    {
      if links(sent).Down? {
        failure := Some(Js.ErrorObject(links(sent).message));
      } else {
        var out := RouterTodos.Create(table, caller, snapshot[sent].title, ids(sent), clock(sent));
        var settled := Remote.Settle(out);
        if settled.Failed? {
          assert !Accepted(snapshot, links, sent);
          failure := Some(settled.thrown);
        } else {
          assert Accepted(snapshot, links, sent);
          assert Created(snapshot, caller, ids, clock, sent + 1) ==
            Created(snapshot, caller, ids, clock, sent) + [MigratedRow(snapshot[sent], caller, ids(sent), clock(sent))];
          sent := sent + 1;
        }
      }
    }
    StopIsFirstFailure(snapshot, links, sent);
  }

  /** Every migrated row belongs to the caller and starts not completed, whatever the local todo
      was: a completed guest todo arrives on the server as open. */
  lemma {:induction false} MigrationDropsCompletion(snapshot: seq<Todo>, caller: string, ids: nat -> string,
                                                    clock: nat -> int, n: nat)
    requires n <= |snapshot|
    ensures forall t :: t in Created(snapshot, caller, ids, clock, n) ==> !t.completed && t.userId == Some(caller)
    ensures Server.OwnedTodos(Created(snapshot, caller, ids, clock, n), caller) == Created(snapshot, caller, ids, clock, n)
  {
    var c := Created(snapshot, caller, ids, clock, n);
    forall t | t in c ensures !t.completed && t.userId == Some(caller) {
      var k :| 0 <= k < |c| && c[k] == t;
    }
    Lists.OnlyAll(c, TodoOwner, Some(caller));
  }

  /** `refetch`: a guest's store is reloaded from storage; a signed-in user's refetch is the
      query's, which leaves the guest store alone. */
  method Refetch(user: Option<AuthUser>, store: TodosStore.Store, st: TodoStorage)
    modifies store
    ensures user.None? ==> store.localTodos == st.GetTodos() && !store.loading && store.error == None
    ensures user.Some? ==>
      store.localTodos == old(store.localTodos) && store.loading == old(store.loading) && store.error == old(store.error)
  {
    if user.None? {
      InitLocalTodos(store, st);
    }
  }
}
