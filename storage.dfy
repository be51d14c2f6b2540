/** The guest's todo list in the browser's local storage (`src/lib/storage.ts`): one slot,
    `pomdo_todos`, holding the JSON of the whole list. Every write replaces the whole slot. */
module Storage {
  import opened Wrappers
  import opened Records
  import Lists

  /** What the slot holds: nothing, text that does not parse, or a saved list. */
  datatype Slot = Absent | Unparsable | Saved(todos: seq<Todo>)

  /** `getTodos`: the saved list, and an empty list when the slot is empty or unreadable. */
  function Read(slot: Slot): (r: seq<Todo>)
    ensures slot.Saved? ==> r == slot.todos
    ensures !slot.Saved? ==> r == []
  {
    match slot
    case Saved(todos) => todos
    case _ => []
  }

  /** The record `addTodo` creates: a fresh id, the given fields, both timestamps `now`. */
  function NewRecord(title: string, completed: bool, freshId: string, now: int): (t: Todo)
    ensures t.id == freshId && t.title == title && t.completed == completed
    ensures t.createdAt == t.updatedAt == now && t.userId.None?
  {
    Todo(freshId, None, title, completed, now, now)
  }

  /** The list `updateTodo` writes back: the FIRST record with the id gets the patch and a new
      `updatedAt`; nothing is written when no record has the id. */
  function Updated(s: seq<Todo>, id: string, p: TodoPatch, now: int): (r: Option<seq<Todo>>)
    ensures r.None? <==> id !in Ids(s, TodoId)
    ensures r.Some? ==> |r.value| == |s|
  {
    var i := Lists.FindIndex(s, TodoId, id);
    if i == -1 then
      assert forall k :: k in Ids(s, TodoId) ==> k != id;
      None
    else
      assert id in Ids(s, TodoId);
      Some(s[i := ApplyPatch(s[i], p).(updatedAt := now)])
  }

  /** An update changes one record, the first with the id, and leaves every other in place. */
  lemma UpdatedChangesFirstMatch(s: seq<Todo>, id: string, p: TodoPatch, now: int)
    requires Updated(s, id, p, now).Some?
    ensures var r := Updated(s, id, p, now).value; var i := Lists.FindIndex(s, TodoId, id);
      0 <= i < |s| && s[i].id == id &&
      (forall j :: 0 <= j < i ==> s[j].id != id) &&
      r[i] == ApplyPatch(s[i], p).(updatedAt := now) &&
      (forall j :: 0 <= j < |s| && j != i ==> r[j] == s[j])
  {
  }

  /** Updates keep every id where it was, so unique ids stay unique. */
  lemma {:induction false} UpdatedKeepsIds(s: seq<Todo>, id: string, p: TodoPatch, now: int)
    requires Updated(s, id, p, now).Some?
    ensures forall j :: 0 <= j < |s| ==> Updated(s, id, p, now).value[j].id == s[j].id
    ensures UniqueIds(s, TodoId) ==> UniqueIds(Updated(s, id, p, now).value, TodoId)
  {
    var r := Updated(s, id, p, now).value;
    assert forall j :: 0 <= j < |s| ==> TodoId(r[j]) == TodoId(s[j]);
  }

  /** Deleting what was just added gives back the list from before. */
  lemma {:induction false} DeleteUndoesAdd(s: seq<Todo>, t: Todo)
    requires t.id !in Ids(s, TodoId)
    ensures Lists.Without(s + [t], TodoId, t.id) == s
  {
    Lists.WithoutConcat(s, [t], TodoId, t.id);
    assert forall i :: 0 <= i < |s| ==> TodoId(s[i]) != t.id;
    Lists.WithoutLength(s, TodoId, t.id);
    Lists.WithoutCons(t, [], TodoId, t.id);
    assert [t] + [] == [t];
  }

  /** After a delete no record has the id, so a second delete finds nothing and writes nothing. */
  lemma DeleteTwiceFinds(s: seq<Todo>, id: string)
    ensures id !in Ids(Lists.Without(s, TodoId, id), TodoId)
    ensures Lists.Without(Lists.Without(s, TodoId, id), TodoId, id) == Lists.Without(s, TodoId, id)
  {
    var w := Lists.Without(s, TodoId, id);
    Lists.WithoutMembers(s, TodoId, id);
    assert forall i :: 0 <= i < |w| ==> TodoId(w[i]) != id by {
      forall i | 0 <= i < |w| ensures TodoId(w[i]) != id {
        assert w[i] in w;
      }
    }
    Lists.WithoutLength(w, TodoId, id);
  }

  /** The `pomdo_todos` slot with `storage`'s operations on it. */
  class TodoStorage {
    var slot: Slot

    constructor (initial: Slot)
      ensures slot == initial
    {
      slot := initial;
    }

    /** `getTodos`: what the slot holds, and nothing when it holds no saved list. */
    function GetTodos(): (r: seq<Todo>)
      reads this
      ensures slot.Saved? ==> r == slot.todos
      ensures !slot.Saved? ==> r == []
    {
      Read(slot)
    }

    /** `addTodo`: appends one new record after the ones already saved. */
    method AddTodo(title: string, completed: bool, freshId: string, now: int) returns (t: Todo)
      modifies this
      ensures t == NewRecord(title, completed, freshId, now)
      ensures slot == Saved(old(GetTodos()) + [t])
    {
      var todos := GetTodos();
      t := Todo(freshId, None, title, completed, now, now);
      var updated := todos + [t];
      slot := Saved(updated);
    }

    /** `updateTodo`: `null` and no write for an unknown id, otherwise the patched record. */
    method UpdateTodo(id: string, updates: TodoPatch, now: int) returns (r: Option<Todo>)
      modifies this
      ensures Updated(old(GetTodos()), id, updates, now).None? ==> r.None? && slot == old(slot)
      ensures Updated(old(GetTodos()), id, updates, now).Some? ==>
        slot == Saved(Updated(old(GetTodos()), id, updates, now).value) &&
        r == Some(GetTodos()[Lists.FindIndex(old(GetTodos()), TodoId, id)])
    {
      var todos := GetTodos();
      var index := Lists.FindIndex(todos, TodoId, id);
      if index == -1 {
        return None;
      }
      var updated := todos;
      updated := updated[index := ApplyPatch(updated[index], updates).(updatedAt := now)];
      slot := Saved(updated);
      r := Some(updated[index]);
    }

    /** `deleteTodo`: removes every record with the id; `false` and no write when there is none. */
    method DeleteTodo(id: string) returns (deleted: bool)
      modifies this
      ensures deleted <==> id in Ids(old(GetTodos()), TodoId)
      ensures !deleted ==> slot == old(slot)
      ensures deleted ==> slot == Saved(Lists.Without(old(GetTodos()), TodoId, id))
    {
      var todos := GetTodos();
      var filtered := Lists.Without(todos, TodoId, id);
      Lists.WithoutLength(todos, TodoId, id);
      if |filtered| == |todos| {
        assert forall k :: k in Ids(todos, TodoId) ==> k != id;
        return false;
      }
      slot := Saved(filtered);
      deleted := true;
    }

    /** `clearTodos`: removes the slot, so reading gives the empty list. */
    method ClearTodos()
      modifies this
      ensures slot == Absent && GetTodos() == []
    {
      slot := Absent;
    }
  }
}
