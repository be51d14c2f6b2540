/** The dialog offering a freshly signed-in user to move the guest's todos to the server
    (`src/components/dialogs/MigrateDialog.tsx`). Closing it is the top-level component's
    `handleMigrateClose`. */
module MigrateDialog {
  import opened Wrappers
  import opened Records
  import opened AuthStore
  import opened Storage
  import Server
  import TodosStore
  import UseTodos
  import Remote
  import App

  class Dialog {
    /** The snapshot of storage taken when the dialog mounted; it is what gets migrated. */
    var localTodos: seq<Todo>
    var migrating: bool

    /** Mounting, with the effect that reads storage once. */
    constructor (st: TodoStorage)
      ensures localTodos == st.GetTodos() && !migrating
    {
      localTodos, migrating := st.GetTodos(), false;
    }

    /** The number shown in "You have N todo(s) stored locally". */
    function Count(): (n: nat)
      reads this
      ensures n == |localTodos|
    {
      |localTodos|
    }

    /** The migrate and skip buttons are disabled while a migration runs; the close button never is. */
    function ButtonsEnabled(): (enabled: bool)
      reads this
      ensures enabled <==> !migrating
    {
      !migrating
    }

    function MigrateLabel(): (text: string)
      reads this
      ensures migrating ==> text == "Migrating..."
      ensures !migrating ==> text == "Migrate"
    {
      if migrating then "Migrating..." else "Migrate"
    }

    /** `handleMigrate`: migrates the snapshot; the dialog closes only when every todo was created.
        Either way the migrating flag is down again at the end. */
    method HandleMigrate(app: App.AppState, user: Option<AuthUser>, store: TodosStore.Store, st: TodoStorage,
                         table: Server.TodosTable, links: nat -> Remote.Link, ids: nat -> string, clock: nat -> int)
      returns (closed: bool)
      modifies this, app, store, st, table
      ensures !migrating && localTodos == old(localTodos)
      ensures closed <==> user.Some? && UseTodos.StopFrom(localTodos, links, 0) == |localTodos|
      ensures closed ==> !app.showMigrateDialog && st.slot == Absent && store.localTodos == []
      ensures !closed ==> app.showMigrateDialog == old(app.showMigrateDialog) && st.slot == old(st.slot) &&
                          store.localTodos == old(store.localTodos)
      ensures app.wasGuest == old(app.wasGuest)
      ensures user.Some? ==>
        table.rows == old(table.rows) + UseTodos.Created(localTodos, user.value.sub, ids, clock, UseTodos.StopFrom(localTodos, links, 0))
      ensures user.None? ==> table.rows == old(table.rows)
    {
      migrating := true;
      var success := UseTodos.MigrateToApi(user, store, st, table, localTodos, links, ids, clock);
      if success {
        app.HandleMigrateClose(user, store, st);
      }
      migrating := false;
      closed := success;
    }

    /** `handleSkip`: empties storage and closes. For a signed-in user the in-memory guest store,
        persisted under its own key, is left as it was, so its todos are still there for the next
        guest session. */
    method HandleSkip(app: App.AppState, user: Option<AuthUser>, store: TodosStore.Store, st: TodoStorage)
      modifies app, store, st
      ensures st.slot == Absent && !app.showMigrateDialog && app.wasGuest == old(app.wasGuest)
      ensures user.Some? ==> store.localTodos == old(store.localTodos) && store.error == old(store.error)
      ensures user.None? ==> store.localTodos == [] && store.error == None
    {
      st.ClearTodos();
      app.HandleMigrateClose(user, store, st);
    }

    /** The close button: closes without migrating or clearing anything. */
    method HandleClose(app: App.AppState, user: Option<AuthUser>, store: TodosStore.Store, st: TodoStorage)
      modifies app, store
      ensures st.slot == old(st.slot) && !app.showMigrateDialog && app.wasGuest == old(app.wasGuest)
      ensures user.Some? ==> store.localTodos == old(store.localTodos)
    {
      app.HandleMigrateClose(user, store, st);
    }
  }
}
