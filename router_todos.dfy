/** The tRPC todo procedures (`src/app/routers/todos.ts`), each acting for the signed-in
    caller on the `todos` table after its input passed the schema. */
module RouterTodos {
  import opened Wrappers
  import opened Records
  import opened Schemas
  import opened Server
  import Text
  import ApiTodos

  /** `getAll`: exactly the caller's rows, in table order. */
  method GetAll(table: TodosTable, caller: string) returns (out: Outcome<seq<Todo>>)
    ensures out == Returned(OwnedTodos(table.rows, caller))
  {
    out := Returned(OwnedTodos(table.rows, caller));
  }

  /** `getAll` as written: the filter is a JavaScript function, which the query builder calls
      once with the column objects, so `t.userId === user.sub` is `false` and no `WHERE` clause
      is emitted. Every row of the table is listed, whoever owns it. */
  function ListedAsWritten(rows: seq<Todo>, caller: string): (r: seq<Todo>)
    ensures multiset(r) == multiset(rows)
  {
    rows
  }

  /** As written, a row of another owner is listed to the caller; the owner filter of `GetAll`
      withholds it. */
  lemma ListingLeaksAsWritten(rows: seq<Todo>, caller: string, t: Todo)
    requires t in rows && t.userId != Some(caller)
    ensures t in ListedAsWritten(rows, caller) && t !in OwnedTodos(rows, caller)
  {
    assert multiset(ListedAsWritten(rows, caller))[t] == multiset(rows)[t];
  }

  /** As written, the existence check of `update` and `delete` passes on any table that has a
      row, even when the caller owns no row with the id, where `FindOwnedTodo` finds none. */
  lemma LookupPassesAsWritten(rows: seq<Todo>, id: string, caller: string)
    requires rows != [] && FindOwnedTodo(rows, id, caller) == -1
    ensures AnyRow(rows).Some? && AnyRow(rows).value in rows
    ensures forall j :: 0 <= j < |rows| ==> !(rows[j].id == id && rows[j].userId == Some(caller))
  {
  }

  /** The two listings hold the same rows; only the REST one orders them by `createdAt`. */
  lemma ListingsHoldSameRows(rows: seq<Todo>, caller: string)
    ensures multiset(ApiTodos.ListFor(rows, caller)) == multiset(OwnedTodos(rows, caller))
  {
  }

  /** `create`: a title of at least one character is stored as given (no trimming), not
      completed, owned by the caller; anything shorter is refused by `newTodoSchema`. */
  method Create(table: TodosTable, caller: string, title: string, freshId: string, now: int)
    returns (out: Outcome<Todo>)
    modifies table
    ensures !ValidNewTodo(title) ==> out == Rejected && table.rows == old(table.rows)
    ensures ValidNewTodo(title) ==>
      var t := Todo(freshId, Some(caller), title, false, now, now);
      out == Returned(t) && table.rows == old(table.rows) + [t]
  {
    if !ValidNewTodo(title) {
      return Rejected;
    }
    var created := Todo(freshId, Some(caller), title, false, now, now);
    table.rows := table.rows + [created];
    out := Returned(created);
  }

  /** Where the two servers part ways on a new title: white space alone is refused by the REST
      handler but stored by the procedure, and surrounding white space is trimmed only by the
      REST handler. */
  lemma CreateDiffersFromRest()
    ensures ValidNewTodo(" ") && ApiTodos.BlankTitle(Some(" "))
    ensures !ApiTodos.BlankTitle(Some(" a")) && ApiTodos.CleanTitle(" a") == "a"
  {
    var t := " a";
    assert t[1] == 'a' && !Text.IsSpace(t[1]);
    assert t[1..] == "a";
    assert Text.TrimStart("a") == "a";
    assert Text.TrimStart(t) == "a";
    assert Text.TrimEnd("a") == "a";
  }

  /** `update`: refused without a uuid id; throws unless the caller owns a row with the id;
      otherwise only the fields given change, a given title exactly as sent. */
  method Update(table: TodosTable, caller: string, input: UpdateTodoInput) returns (out: Outcome<Todo>)
    modifies table
    ensures !ValidUpdateTodo(input) ==> out == Rejected && table.rows == old(table.rows)
    ensures ValidUpdateTodo(input) && FindOwnedTodo(old(table.rows), input.id, caller) == -1 ==>
      out == Threw("Todo not found") && table.rows == old(table.rows)
    ensures ValidUpdateTodo(input) && FindOwnedTodo(old(table.rows), input.id, caller) >= 0 ==>
      var p := TodoPatch(input.title, input.completed);
      table.rows == PatchOwned(old(table.rows), input.id, caller, p) &&
      out == Returned(ApplyPatch(old(table.rows)[FindOwnedTodo(old(table.rows), input.id, caller)], p))
  {
    if !ValidUpdateTodo(input) {
      return Rejected;
    }
    var existing := FindOwnedTodo(table.rows, input.id, caller);
    if existing == -1 {
      return Threw("Todo not found");
    }
    var updateData := TodoPatch(input.title, input.completed);
    table.rows := PatchOwned(table.rows, input.id, caller, updateData);
    out := Returned(table.rows[existing]);
  }

  /** `delete`: refused without a uuid id; throws unless the caller owns a row with the id;
      otherwise removes it and returns `{ id }`. */
  method Delete(table: TodosTable, caller: string, id: string) returns (out: Outcome<string>)
    modifies table
    ensures !IsUuid(id) ==> out == Rejected && table.rows == old(table.rows)
    ensures IsUuid(id) && FindOwnedTodo(old(table.rows), id, caller) == -1 ==>
      out == Threw("Todo not found") && table.rows == old(table.rows)
    ensures IsUuid(id) && FindOwnedTodo(old(table.rows), id, caller) >= 0 ==>
      out == Returned(id) && table.rows == DeleteOwned(old(table.rows), id, caller)
  {
    if !IsUuid(id) {
      return Rejected;
    }
    var existing := FindOwnedTodo(table.rows, id, caller);
    if existing == -1 {
      return Threw("Todo not found");
    }
    table.rows := DeleteOwned(table.rows, id, caller);
    out := Returned(id);
  }
}
