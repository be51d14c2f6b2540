/** The REST handlers for todos (`functions/api/todos.ts`), each acting for the signed-in
    caller `caller` (the `sub` of the session token) on the `todos` table. */
module ApiTodos {
  import opened Wrappers
  import opened Records
  import opened Schemas
  import opened Server
  import Lists
  import Text

  /** The rows `GET /api/todos` returns: exactly the caller's, oldest `createdAt` first. */
  function ListFor(rows: seq<Todo>, caller: string): (r: seq<Todo>)
    ensures forall t :: t in r <==> t in rows && t.userId == Some(caller)
    ensures multiset(r) == multiset(OwnedTodos(rows, caller))
    ensures Lists.SortedBy(r, TodoCreatedAt)
  {
    var owned := OwnedTodos(rows, caller);
    var r := Lists.SortBy(owned, TodoCreatedAt);
    assert forall t :: t in r <==> t in multiset(owned);
    r
  }

  /** A title `POST` refuses: missing, empty, or nothing but white space. */
  predicate BlankTitle(title: Option<string>) {
    title.None? || Text.AllSpace(title.value)
  }

  /** The title as stored: trimmed. */
  function CleanTitle(title: string): (r: string)
    requires !Text.AllSpace(title)
    ensures r != "" && !Text.IsSpace(r[0]) && !Text.IsSpace(r[|r| - 1])
    ensures Text.Trim(r) == r
  {
    Text.TrimEmptyIff(title);
    Text.TrimIdempotent(title);
    Text.Trim(title)
  }

  /** `GET /api/todos`. */
  method Get(table: TodosTable, caller: string) returns (reply: Reply<seq<Todo>>)
    ensures reply == Reply(200, Success(ListFor(table.rows, caller)))
  {
    var userTodos := ListFor(table.rows, caller);
    reply := Reply(200, Success(userTodos));
  }

  /** `POST /api/todos`: 400 for a blank title, otherwise a new row owned by the caller with the
      trimmed title, not completed, stamped `now`. The id comes from the database default. */
  method Post(table: TodosTable, caller: string, title: Option<string>, freshId: string, now: int)
    returns (reply: Reply<Todo>)
    modifies table
    ensures BlankTitle(title) ==> reply == InvalidInput("Title is required") && table.rows == old(table.rows)
    ensures !BlankTitle(title) ==>
      var t := Todo(freshId, Some(caller), CleanTitle(title.value), false, now, now);
      reply == Reply(200, Success(t)) && table.rows == old(table.rows) + [t]
  {
    if title.None? || title.value == "" || Text.Trim(title.value) == "" {
      if title.Some? {
        Text.TrimEmptyIff(title.value);
      }
      return InvalidInput("Title is required");
    }
    Text.TrimEmptyIff(title.value);
    var created := Todo(freshId, Some(caller), Text.Trim(title.value), false, now, now);
    table.rows := table.rows + [created];
    reply := Reply(200, Success(created));
  }

  /** The patch `PATCH` applies: the trimmed title if one was sent, and the completion flag. */
  function PatchFor(title: Option<string>, completed: Option<bool>): (p: TodoPatch)
    requires title.Some? ==> !Text.AllSpace(title.value)
    ensures p.completed == completed
    ensures p.title.Some? <==> title.Some?
    ensures p.title.Some? ==> p.title.value == CleanTitle(title.value)
  {
    TodoPatch(if title.Some? then Some(CleanTitle(title.value)) else None, completed)
  }

  /** `PATCH /api/todos/:id`: 400 for a blank title before anything is looked up, 404 unless the
      caller owns a row with the id, otherwise only the fields sent change. `updatedAt` is not
      refreshed. */
  method Patch(table: TodosTable, caller: string, id: string, title: Option<string>, completed: Option<bool>)
    returns (reply: Reply<Todo>)
    modifies table
    ensures title.Some? && Text.AllSpace(title.value) ==>
      reply == InvalidInput("Title cannot be empty") && table.rows == old(table.rows)
    ensures !(title.Some? && Text.AllSpace(title.value)) && FindOwnedTodo(old(table.rows), id, caller) == -1 ==>
      reply == NotFound("Todo not found") && table.rows == old(table.rows)
    ensures !(title.Some? && Text.AllSpace(title.value)) && FindOwnedTodo(old(table.rows), id, caller) >= 0 ==>
      var p := PatchFor(title, completed);
      var i := FindOwnedTodo(old(table.rows), id, caller);
      table.rows == PatchOwned(old(table.rows), id, caller, p) &&
      reply == Reply(200, Success(ApplyPatch(old(table.rows)[i], p)))
  {
    if title.Some? && Text.Trim(title.value) == "" {
      Text.TrimEmptyIff(title.value);
      return InvalidInput("Title cannot be empty");
    }
    if title.Some? {
      Text.TrimEmptyIff(title.value);
    }
    var existing := FindOwnedTodo(table.rows, id, caller);
    if existing == -1 {
      return NotFound("Todo not found");
    }
    var updateData := PatchFor(title, completed);
    table.rows := PatchOwned(table.rows, id, caller, updateData);
    reply := Reply(200, Success(table.rows[existing]));
  }

  /** `DELETE /api/todos/:id`: 404 unless the caller owns a row with the id, otherwise the row
      goes and its id is returned. */
  method Delete(table: TodosTable, caller: string, id: string) returns (reply: Reply<string>)
    modifies table
    ensures FindOwnedTodo(old(table.rows), id, caller) == -1 ==>
      reply == NotFound("Todo not found") && table.rows == old(table.rows)
    ensures FindOwnedTodo(old(table.rows), id, caller) >= 0 ==>
      reply == Reply(200, Success(id)) && table.rows == DeleteOwned(old(table.rows), id, caller)
  {
    var existing := FindOwnedTodo(table.rows, id, caller);
    if existing == -1 {
      return NotFound("Todo not found");
    }
    table.rows := DeleteOwned(table.rows, id, caller);
    reply := Reply(200, Success(id));
  }

  /** After a delete the caller owns no row with the id, so repeating it answers 404. */
  lemma DeleteThenNotFound(rows: seq<Todo>, id: string, caller: string)
    ensures FindOwnedTodo(DeleteOwned(rows, id, caller), id, caller) == -1
  {
    var r := DeleteOwned(rows, id, caller);
    forall j | 0 <= j < |r| ensures !(r[j].id == id && r[j].userId == Some(caller)) {
      assert r[j] in r;
    }
  }

  /** A created todo is listed for its owner, and for nobody else. */
  lemma PostedIsListed(rows: seq<Todo>, caller: string, t: Todo, other: string)
    requires t.userId == Some(caller) && other != caller
    ensures t in ListFor(rows + [t], caller)
    ensures ListFor(rows + [t], other) == ListFor(rows, other)
  {
    Lists.WithoutConcat(rows, [t], TodoOwner, Some(other));
    OnlyAppendOther(rows, t, Some(other));
  }

  /** Appending a row of another owner leaves a filtered list as it was. */
  lemma {:induction false} OnlyAppendOther(rows: seq<Todo>, t: Todo, owner: Option<string>)
    requires t.userId != owner
    ensures Lists.Only(rows + [t], TodoOwner, owner) == Lists.Only(rows, TodoOwner, owner)
  {
    if rows == [] {
      assert rows + [t] == [t];
      assert [t][1..] == [];
    } else {
      assert (rows + [t])[0] == rows[0];
      assert (rows + [t])[1..] == rows[1..] + [t];
      OnlyAppendOther(rows[1..], t, owner);
    }
  }
}
