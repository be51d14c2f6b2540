/** The input schemas the server procedures validate against and the response envelope
    (`src/app/routers/_shared.ts`). */
module Schemas {
  import opened Wrappers
  import opened Timer

  predicate IsHex(c: char) {
    '0' <= c <= '9' || 'a' <= c <= 'f' || 'A' <= c <= 'F'
  }

  /** `z.string().uuid()`: five groups of 8, 4, 4, 4 and 12 hexadecimal digits, joined by '-'. */
  predicate IsUuid(s: string) {
    |s| == 36 &&
    forall i :: 0 <= i < 36 ==> if i == 8 || i == 13 || i == 18 || i == 23 then s[i] == '-' else IsHex(s[i])
  }

  /** A uuid is never the empty string, so `todoId || null` keeps every valid todo id. */
  lemma UuidNonEmpty(s: string)
    requires IsUuid(s)
    ensures s != "" && s[8] == '-'
  {
  }

  /** A timestamp field of a request: absent, present but not a date (`Date.parse` gives NaN,
      or zod's `datetime()` refuses it), or a valid instant in milliseconds. */
  datatype TimeField = Missing | Unparsable | At(ms: int)

  /** `newTodoSchema`: any title of at least one character, so a title of spaces passes. */
  predicate ValidNewTodo(title: string) {
    |title| >= 1
  }

  /** Any title that is not empty passes, spaces included: the schema does not trim. */
  lemma SpacesPassNewTodo()
    ensures ValidNewTodo(" ") && !ValidNewTodo("")
    ensures forall title :: ValidNewTodo(title) <==> title != []
  {
  }

  /** The input of `todos.update`: an id, and optionally a title and a completion flag. */
  datatype UpdateTodoInput = UpdateTodoInput(id: string, title: Option<string>, completed: Option<bool>)

  /** `updateTodoSchema`: only the id is constrained; title and completed may be left out and a
      given title may be empty. */
  predicate ValidUpdateTodo(input: UpdateTodoInput) {
    IsUuid(input.id)
  }

  /** The wire names of the session kinds. */
  function KindName(k: SessionKind): (name: string)
    ensures |name| >= 4
  {
    match k
    case Work => "work"
    case ShortBreak => "short_break"
    case LongBreak => "long_break"
  }

  /** `z.enum(['work', 'short_break', 'long_break'])`: exactly one of the three names. */
  function ParseKind(name: string): (r: Option<SessionKind>)
    ensures r.Some? ==> KindName(r.value) == name
    ensures r.None? ==> forall k: SessionKind :: KindName(k) != name
  {
    if name == "work" then Some(Work)
    else if name == "short_break" then Some(ShortBreak)
    else if name == "long_break" then Some(LongBreak)
    else None
  }

  /** Every kind survives being written out and read back. */
  lemma KindRoundTrip(k: SessionKind)
    ensures ParseKind(KindName(k)) == Some(k)
  {
  }

  /** The input of `pomodoro.createSession`, before validation. */
  datatype NewSessionInput = NewSessionInput(todoId: Option<string>, kind: string, startedAt: TimeField, durationSecs: int)

  /** `newPomodoroSessionSchema`: an optional uuid todo id, a known kind, a valid start time and
      a positive whole number of seconds. */
  predicate ValidNewSession(input: NewSessionInput) {
    (input.todoId.None? || IsUuid(input.todoId.value)) &&
    ParseKind(input.kind).Some? &&
    input.startedAt.At? &&
    input.durationSecs > 0
  }

  /** `errorSchema`. */
  datatype ApiError = ApiError(code: string, message: string)

  /** `ApiResponse<T>`: success with data, or failure with an error, never both. */
  datatype ApiResponse<T> = Success(data: T) | Failure(error: ApiError)
}
