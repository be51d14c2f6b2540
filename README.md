# pomdo, modelled in Dafny

pomdo is a browser Pomodoro timer with a todo list. A visitor works as a guest, whose todos live
in the browser's local storage, or signs in, after which todos and Pomodoro sessions live in two
database tables behind a small REST API and a tRPC router, both authenticated by an HS256 JSON Web
Token. This project models the parts of pomdo that decide what is stored, shown and sent, and
proves what they promise.

The model is one Dafny module per source file, plus a few shared ones:

- `Wrappers`, `Js`, `Text`, `Lists`, `Records`: optional values, the bits of JavaScript number and
  exception semantics the source relies on (`Math.floor`, `%`, `e instanceof Error ? e.message : …`),
  the string operations it uses (`trim`, `padStart`, `split`, `String(n)`, `replace`), the array
  operations it uses on lists of records (find by key, filter by key, map on matching keys, sort by
  a numeric column, `limit`, `reverse`), and the todo and session records.
- `Timer`, `UseTimer`, `TimerDisplay`: the timer store with its three session kinds, its fixed
  durations and eight-slot rotation, the once-a-second countdown of the `useTimer` effect, and the
  clock face with its zero-padded minutes and seconds.
- `Storage`, `TodosStore`, `UiStore`, `AuthStore`: the guest's todo slot in local storage, the
  in-memory guest store, the toast list and the signed-in user. Each is a class whose fields the
  source's actions update in place.
- `TodoRepo`, `UseTodos`, `UsePomodoro`, `App`, `MigrateDialog`, `TodoInput`, `Header`, `Bgm`: the
  repositories and hooks that route every operation to the server for a signed-in user and to local
  storage for a guest, the sign-in effect that offers to migrate a guest's todos, the dialog that
  does it, the new-todo field, the header's focus time, and the background-music player.
- `Server`, `Remote`, `Schemas`, `RouterTodos`, `RouterPomodoro`, `ApiTodos`, `ApiPomodoro`: the two
  tables as sequences of rows, the input schemas, the tRPC procedures and the REST handlers. The REST
  handlers scope every row operation to the caller, and lemmas prove that no operation reads or
  changes a row of another owner. The tRPC procedures hand the query builder JavaScript functions
  where it expects SQL conditions, so as written they filter nothing (see "## Findings"); the
  model gives them the owner-scoped behaviour of the REST handlers. A remote call either reaches
  the server or is lost on the way.
- `Base64Url`, `Hmac`, `Jwt`: base64url encoding and decoding (section 5 of RFC 4648, padding
  dropped), HMAC-SHA-256 signing and verification of strings, and signing and verifying tokens.

Timestamps are whole milliseconds. The clock, fresh ids, cryptography, UTF-8 encoding and JSON are
parameters. The result of each remote call and each storage helper outside this model is also a
parameter.

Where the project's own description and the code disagree, the model follows the code. The
description promises a long break after every fourth work session. The timer store looks up the
next kind by its first position in the rotation, so the rotation as coded alternates work and short
breaks and never reaches the long break (`Timer.NextKind`, `Timer.SkipsAlternate`). The sign-in effect
in `src/App.tsx` flips `wasGuest` on every run while nobody is signed in, and that re-runs the
effect. The model keeps that behaviour, and `App.GuestNeverSettles` and `App.SignInOpensDialog` state
what follows from it: the dialog opens on sign-in only after an even number of guest runs.

## Model

| member | source | states |
|---|---|---|
| Text.TrimStart | functions/api/todos.ts:41 | the first half of `trim()`: the result is a suffix of the string, everything dropped is white space, and it does not start with white space |
| Text.TrimEnd | functions/api/todos.ts:41 | the second half of `trim()`: the result is a prefix of the string, everything dropped is white space, and it does not end with white space |
| Text.Trim | functions/api/todos.ts:41-53 | `trim()` leaves an infix of the string with only white space around it, and none at either of its own ends |
| Text.TrimmedInfix | functions/api/todos.ts:53 | trimming the start and then the end leaves such an infix |
| Text.TrimStartEmptyIff | src/components/todos/TodoInput.tsx:13 | dropping leading white space leaves nothing exactly when the string was all white space |
| Text.TrimEmptyIff | functions/api/todos.ts:41 | `s.trim() === ''` exactly when every character of `s` is white space |
| Text.TrimIdempotent | src/components/todos/TodoInput.tsx:14 | trimming twice is trimming once |
| Text.Digit | src/components/timer/TimerDisplay.tsx:56 | a digit value is written as a decimal digit character |
| Text.NatToString | src/components/timer/TimerDisplay.tsx:56 | `String(n)` of a non-negative integer is a numeral of at least one digit, with one digit exactly when `n < 10` and no leading zero otherwise |
| Text.IntToString | src/components/timer/TimerDisplay.tsx:56 | `String(i)` of a negative integer is a minus sign before the digits of its magnitude |
| Text.DecimalRoundTrip | src/components/timer/TimerDisplay.tsx:56 | reading back the numeral `String(n)` gives `n` |
| Text.DecimalLeadingZeros | src/components/timer/TimerDisplay.tsx:56 | leading zeros do not change the value of a numeral |
| Text.ZerosValue | src/components/timer/TimerDisplay.tsx:56 | a string of zeros reads as 0 |
| Text.Repeat | src/components/timer/TimerDisplay.tsx:56 | `k` copies of one character |
| Text.PadStart | src/components/timer/TimerDisplay.tsx:56 | `padStart` never truncates: the result has the larger of the two lengths, ends with the string and is filled on the left with the pad character |
| Text.JoinedAt | functions/lib/jwt.ts:43 | two pieces without the separator, joined by it, hold it exactly once, between them |
| Text.PadEnd | functions/lib/jwt.ts:32 | `padEnd` never truncates: the result has the larger of the two lengths, starts with the string and is filled on the right with the pad character |
| Text.ReplaceChar | functions/lib/jwt.ts:26-32 | a global one-character `replace` keeps the length and swaps exactly the matching characters |
| Text.ReplaceCharConcat | functions/lib/jwt.ts:26-27 | replacing characters distributes over concatenation |
| Text.Split | functions/lib/jwt.ts:52 | `split` on one character gives one more piece than there are separators, and no piece holds the separator |
| Text.SplitJoin | functions/lib/jwt.ts:52 | joining the pieces of a split with the separator gives back the string |
| Text.SplitPrefix | functions/lib/jwt.ts:52 | a separator-free piece followed by the separator splits off as the first piece |
| Text.SplitNone | functions/lib/jwt.ts:52 | a separator-free string splits into itself alone |
| Text.SplitThree | functions/lib/jwt.ts:48-52 | three separator-free pieces joined by dots split back into exactly those three |
| Lists.FindIndex | src/lib/storage.ts:49 | `findIndex` gives -1 exactly when no element has the key, and otherwise the first position whose element has it |
| Lists.IndexOf | src/core/store/timer.ts:72 | `indexOf` gives -1 exactly when the value is absent, and otherwise the first position holding it |
| Lists.IndexOfAt | src/core/store/timer.ts:72 | a position holding the value with no earlier occurrence is the one `indexOf` returns |
| Lists.Without | src/lib/storage.ts:64 | `filter` by a different key never lengthens the list |
| Lists.WithoutMembers | src/lib/storage.ts:64 | `filter` keeps exactly the elements whose key differs |
| Lists.WithoutLength | src/lib/storage.ts:64-65 | the filtered list is as long as the original exactly when no element has the key, and is then the original list |
| Lists.WithoutCons | src/core/store/todos.ts:48-50 | filtering a list with a known head drops the head exactly when its key matches and filters the rest |
| Lists.WithoutConcat | src/core/store/todos.ts:48-50 | filtering works piecewise over a concatenation, so kept elements keep their order |
| Lists.Only | functions/api/todos.ts:25 | the `where` filter keeps exactly the elements with the key, and never lengthens the list; how often and in what order is stated in `Lists.OnlyCount` and `Lists.OnlyConcat` |
| Lists.OnlyCons | functions/api/todos.ts:25 | the filter of a list with a known head keeps the head exactly when it has the key, in front of the filtered rest |
| Lists.OnlyCount | functions/api/todos.ts:25 | every element with the key is kept as often as the list holds it, and no other element at all |
| Lists.OnlyConcat | functions/api/todos.ts:25 | the filter works piecewise over a concatenation, so the kept elements stay in the list's order |
| Lists.OnlyAll | functions/api/todos.ts:25 | when every element has the key, the filter keeps the whole list |
| Lists.MapWhere | src/core/store/todos.ts:46 | `map` with a key test keeps length and order, applies the update to matching elements and leaves the others |
| Lists.Insert | functions/api/todos.ts:26 | inserting one element lengthens the list by one |
| Lists.SortedTail | functions/api/todos.ts:26 | the tail of an ordered list is ordered and no smaller than its head |
| Lists.InsertSorted | functions/api/todos.ts:26 | inserting into an ordered list keeps it ordered, and nothing in the result is below both the element and the old head |
| Lists.InsertPermutes | functions/api/todos.ts:26 | inserting adds exactly that element to the multiset |
| Lists.SortedCons | functions/api/todos.ts:26 | an element no greater than everything in an ordered list can go in front |
| Lists.SortBy | functions/api/todos.ts:26 | `ORDER BY` ascending gives an ordered permutation of the rows |
| Lists.Take | functions/api/pomodoro.ts:25 | `LIMIT n` gives the first `n` rows, or all of them when there are fewer, each no more often than the input holds it |
| Lists.Reverse | src/app/routers/pomodoro.ts:16 | `reverse()` keeps the length and the multiset of elements and puts the element at `i` at `\|s\| - 1 - i` |
| Lists.NewestFirst | functions/api/pomodoro.ts:24-25 | `ORDER BY key DESC LIMIT n` gives at most `n` rows, each no more often than the input holds it and all of them when there are no more than `n`, newest first, and nothing left out is newer than anything kept |
| Lists.OldestReversed | src/app/routers/pomodoro.ts:13-16 | `ORDER BY key LIMIT n` then `reverse()` gives at most `n` rows, each no more often than the input holds it and all of them when there are no more than `n`, newest first, and nothing left out is older than anything kept |
| Lists.SmallListsAgree | src/app/routers/pomodoro.ts:13-16 | with no more than `n` rows both orderings give the same sequence |
| Timer.Duration | src/core/store/timer.ts:7-11 | each kind's duration is a positive whole number of minutes: 1500 s for work, 300 s for a short break, 900 s for a long break, and only that kind has that value |
| Timer.NextKind | src/core/store/timer.ts:89-93 | the kind after the first `SESSION_ORDER` slot holding the current one: short break after work, work after either break, never the long break |
| Timer.FirstSlot | src/core/store/timer.ts:13-22 | the slot chosen for each kind lies in `SESSION_ORDER` and holds that kind |
| Timer.FirstSlotIsIndexOf | src/core/store/timer.ts:72 | that slot is exactly what `indexOf` returns: the first occurrence of the kind in `SESSION_ORDER` |
| Timer.TotalSecs | src/core/store/timer.ts:108 | `getSessionTotalSecs` is the session's duration |
| Timer.Partialize | src/core/store/timer.ts:97-102 | the persisted snapshot, read back at load, rebuilds the state exactly except that `isActive` is false |
| Timer.InitialState | src/core/store/timer.ts:45-61 | the timer is never active on load; with a snapshot the kind, seconds and count come from it, without one it is a full 1500 s work session with count 0, which is in range |
| Timer.Apply | src/core/store/timer.ts:67-88 | per action: only `incrementPomodoroCount` changes the count (by one); `start` runs the timer; `pause`, `reset`, `skip` and `changeSessionType` stop it; the setters and the increment leave it running or stopped; `reset`, `skip` and `changeSessionType` refill the countdown to the resulting kind's full duration |
| Timer.StartPauseOnlyActive | src/core/store/timer.ts:67-68 | `start` and `pause` change only `isActive`, and applying either twice is the same as once |
| Timer.RestartingActions | src/core/store/timer.ts:69-85 | `reset` keeps the kind, `skip` moves to the next kind, `changeSessionType` moves to the given kind; each leaves a stopped timer at that kind's full duration with the count unchanged |
| Timer.ControlsKeepInRange | src/core/store/timer.ts:67-88 | starting from a countdown within its kind's duration, every action except the two raw setters keeps it within that duration |
| Timer.SettersBreakRange | src/core/store/timer.ts:86-87 | `setSessionType` to a kind shorter than the countdown leaves it out of range, and `setRemainingSecs` is in range exactly for values from zero to the current kind's duration, so a negative value breaks it |
| Timer.Skips | src/core/store/timer.ts:70-80 | any number of skips leaves the completed-session count unchanged |
| Timer.SkipsAlternate | src/core/store/timer.ts:70-80 | after one or more skips the timer is stopped at a full duration and the kind is never the long break: an odd number of skips from work lands on a short break, otherwise the kinds alternate back to work |
| Timer.TimerStore.constructor | src/core/store/timer.ts:45-66 | the store starts from `getInitialState` for the saved snapshot |
| Timer.TimerStore.Start | src/core/store/timer.ts:67 | the new state is `Apply(start)` of the old one |
| Timer.TimerStore.Pause | src/core/store/timer.ts:68 | the new state is `Apply(pause)` of the old one |
| Timer.TimerStore.Reset | src/core/store/timer.ts:69 | the new state is `Apply(reset)` of the old one |
| Timer.TimerStore.Skip | src/core/store/timer.ts:70-80 | the new state is `Apply(skip)` of the old one, with the next kind looked up in `SESSION_ORDER` |
| Timer.TimerStore.ChangeSessionType | src/core/store/timer.ts:81-85 | the new state is `Apply(changeSessionType(k))` of the old one |
| Timer.TimerStore.SetSessionType | src/core/store/timer.ts:86 | the new state is `Apply(setSessionType(k))`: only the kind changes |
| Timer.TimerStore.SetRemainingSecs | src/core/store/timer.ts:87 | the new state is `Apply(setRemainingSecs(v))`: only the seconds change |
| Timer.TimerStore.UpdateRemainingSecs | src/core/store/timer.ts:87 | with an updater function, the seconds become the updater applied to the old seconds, and nothing else changes |
| Timer.TimerStore.IncrementPomodoroCount | src/core/store/timer.ts:88 | the new state is `Apply(incrementPomodoroCount)`: the count goes up by one |
| UseTimer.TickStep | src/hooks/useTimer.ts:74-95 | one run of the interval effect: a stopped timer is untouched; a running timer with time left loses exactly one second and reports nothing; a completion is reported exactly when a running timer is at zero, with the finished kind and its full duration, and leaves the timer stopped at the full duration of the next kind; the count rises by one exactly when a work session completes and is otherwise unchanged |
| UseTimer.Tick | src/hooks/useTimer.ts:77-95 | the effect's calls on the store, in the source's order, produce exactly that step's state and completion |
| UseTimer.TotalOf | src/hooks/useTimer.ts:47 | `totalSecs` is the duration of the current kind |
| UseTimer.TickKeepsInRange | src/hooks/useTimer.ts:77-95 | from a countdown within its kind's duration, a step keeps it there, so it never goes below zero |
| UseTimer.CompletionRestartsFull | src/hooks/useTimer.ts:81-94 | after a completion the countdown equals `totalSecs` of the new kind, and that kind is never the long break |
| UseTimer.Run | src/hooks/useTimer.ts:74-102 | `n` runs of the effect: a stopped timer neither changes nor reports anything, at most one completion is reported, and after one the timer is stopped |
| UseTimer.CountsDown | src/hooks/useTimer.ts:77-80 | while time is left, `n` runs of the effect take exactly `n` off the countdown and report nothing |
| UseTimer.CompletesExactlyOnce | src/hooks/useTimer.ts:77-94 | a running session with `r` seconds left reports its completion exactly once (kind and full duration) within `r + 1` or more runs of the effect, and ends stopped at the full duration of the next kind, with the count up by one only if it was work |
| UseTimer.CountsDownThen | src/hooks/useTimer.ts:77-80 | running the effect past the countdown is the same as running it from zero for the runs that are left |
| UseTimer.CompletesThenStops | src/hooks/useTimer.ts:81-94 | from zero, a running timer completes on the next run of the effect and then stays stopped at the next kind's full duration |
| UseTimer.RunSplit | src/hooks/useTimer.ts:74-102 | running `a + b` seconds is running `a` and then `b`, with the reported completions concatenated in order |
| UseTimer.Second | src/hooks/useTimer.ts:74-95 | one second of wall-clock time: a stopped or finished timer is untouched; above one second left the countdown loses one second; a completion is reported exactly in the last second, with the kind and its full duration, and leaves the timer stopped at the next kind's full duration |
| UseTimer.Seconds | src/hooks/useTimer.ts:74-102 | `n` seconds of a stopped timer change and report nothing |
| UseTimer.SecondsAreRuns | src/hooks/useTimer.ts:74-102 | a running countdown's seconds are the effect's runs, except that the last second holds two runs: the one that reaches zero and the one that completes |
| UseTimer.CompletesOnTime | src/hooks/useTimer.ts:74-95 | a running session with `r >= 1` seconds left reports its completion, once, after exactly `r` seconds, and stays stopped at the next kind's full duration however long after |
| UseTimer.NothingBeforeTime | src/hooks/useTimer.ts:77-80 | before its last second a running session only counts down, one second per second, and reports nothing |
| UseTimer.FirstPomodoro | src/hooks/useTimer.test.ts:148-161 | a fresh timer, started, reports one finished work session of 25 minutes after exactly 25 minutes and then rests at a full five-minute short break with the count at one |
| TodosStore.PatchAll | src/core/store/todos.ts:45-47 | the list keeps its length and order; every entry with the id has the patch merged in, every other entry is unchanged |
| TodosStore.PatchAllIdempotent | src/core/store/todos.ts:45-47 | patching keeps every entry's id, and patching twice with the same patch is patching once |
| TodosStore.Store.constructor | src/core/store/todos.ts:37-66 | the store starts with the list `persist` reads back from `todos-storage` (empty on a first visit), loading and with no error; the reload does not end loading |
| TodosStore.Store.Persisted | src/core/store/todos.ts:65 | only the todo list is persisted; the loading flag and the error are not |
| TodosStore.Store.SetLocalTodos | src/core/store/todos.ts:43 | the list is replaced and nothing else changes |
| TodosStore.Store.AddLocalTodo | src/core/store/todos.ts:44 | the todo is appended at the end and nothing else changes |
| TodosStore.Store.UpdateLocalTodo | src/core/store/todos.ts:45-47 | the list becomes `PatchAll` of the old one and nothing else changes |
| TodosStore.Store.RemoveLocalTodo | src/core/store/todos.ts:48-50 | every entry with the id is dropped, the rest keep their order, and nothing else changes |
| TodosStore.Store.SetLoading | src/core/store/todos.ts:51 | only the loading flag changes |
| TodosStore.Store.SetError | src/core/store/todos.ts:52 | only the error changes |
| TodosStore.Store.ClearLocalTodos | src/core/store/todos.ts:53 | the list is emptied and nothing else changes |
| TodosStore.Store.InitFromStorage | src/core/store/todos.ts:54-61 | loading always ends; a successful read replaces the list and clears the error; a failed read keeps the list and records the thrown message, or "Failed to load todos" when the thrown value is not an `Error` |
| Storage.Read | src/lib/storage.ts:24-31 | `getTodos` gives the saved list, and the empty list when the slot is missing, empty or does not parse |
| Storage.NewRecord | src/lib/storage.ts:33-41 | the new record has the fresh id, the given title and completion, no owner, and both timestamps equal to now |
| Storage.Updated | src/lib/storage.ts:47-58 | nothing is written exactly when no saved record has the id; otherwise the written list has the same length |
| Storage.UpdatedChangesFirstMatch | src/lib/storage.ts:49-57 | the update changes the first record with the id (the patch merged in, `updatedAt` set to now) and leaves every other record in place |
| Storage.UpdatedKeepsIds | src/lib/storage.ts:52-57 | an update keeps every record's id in its position, so unique ids stay unique |
| Storage.DeleteUndoesAdd | src/lib/storage.ts:42-64 | deleting the record just appended, when its id was new, gives back the list from before |
| Storage.DeleteTwiceFinds | src/lib/storage.ts:62-68 | after a delete no record has the id, so a second delete removes nothing and reports `false` |
| Storage.TodoStorage.constructor | src/lib/storage.ts:1 | the store wraps the given contents of the `pomdo_todos` slot |
| Storage.TodoStorage.GetTodos | src/lib/storage.ts:24-31 | `getTodos` gives the saved list, and the empty list when the slot is absent or does not parse |
| Storage.TodoStorage.AddTodo | src/lib/storage.ts:33-45 | returns `NewRecord` and saves the old list with it appended |
| Storage.TodoStorage.UpdateTodo | src/lib/storage.ts:47-60 | an unknown id returns `null` and writes nothing; otherwise the list from `Updated` is saved and the returned record is the one saved at the first match |
| Storage.TodoStorage.DeleteTodo | src/lib/storage.ts:62-69 | returns `true` exactly when some saved record has the id; then every record with it is removed and the rest saved in order; otherwise nothing is written |
| Storage.TodoStorage.ClearTodos | src/lib/storage.ts:71-73 | the slot is removed, so reading it gives the empty list |
| Records.ApplyPatch | src/core/store/todos.ts:46 | the object spread `{ ...t, ...updates }`: a field present in the patch replaces the todo's, every other field (id, owner, timestamps) is kept |
| Records.PatchIdempotent | src/core/store/todos.ts:46 | merging the same patch twice is merging it once, and the empty patch changes nothing |
| Records.Ids | functions/api/todos.ts:51-57 | the set of ids holds exactly the ids of the listed records |
| Records.AppendFresh | functions/api/todos.ts:51-57 | appending a record with a new id keeps the table's primary key unique |
| Js.Rem | src/core/store/timer.ts:73 | JavaScript's `%` for a positive divisor: the mathematical remainder on non-negative operands; on negative ones the negated remainder of the magnitude, between `-n` and 0 |
| Js.FloorDiv | src/components/layout/Header.tsx:9 | `Math.floor(a / n)` is the quotient `q` with `q * n <= a < q * n + n` |
| Js.MessageOr | src/hooks/useTodos.ts:79 | a caught `Error` gives its message; any other thrown value gives the fallback text |
| UseTodos.View | src/hooks/useTodos.ts:61-63 | a guest sees the store's list, loading flag and error; a signed-in user sees the query's data (the empty list before any arrives), its loading flag, and its error message exactly when there is a non-empty one |
| UseTodos.SignedInIgnoresGuestStore | src/hooks/useTodos.ts:61-63 | for a signed-in user the view is the same whatever the guest store holds |
| UseTodos.InitLocalTodos | src/hooks/useTodos.ts:51-54 | afterwards the store holds what storage holds, loading has ended and there is no error |
| UseTodos.OnRender | src/hooks/useTodos.ts:57-59 | a guest whose store is empty and still loading gets the list from storage; in every other case the store is untouched |
| UseTodos.MountAsWritten | src/hooks/useTodos.ts:57-59 | on a guest's first render a first visit loads from storage, but a returning guest's reloaded list keeps the store loading, and the view reports loading |
| UseTodos.OnRenderLoadsOnce | src/hooks/useTodos.ts:57-59 | the check without the empty-list condition: a guest store that is still loading takes storage's list and stops loading; otherwise nothing changes |
| UseTodos.Mount | src/hooks/useTodos.ts:57-59 | with that check a guest's first render always ends loading with storage's list, whatever `todos-storage` held |
| UseTodos.AddTodo | src/hooks/useTodos.ts:65-85 | a guest's title becomes a new open record appended both to storage and to the store, and the server is untouched; a signed-in user's todo is created exactly when the request gets through and the title passes the schema, as an open row owned by the caller appended to the table, and storage and the store are untouched; failures give `null`; neither branch can set the store's error |
| UseTodos.UpdateTodo | src/hooks/useTodos.ts:87-107 | a guest's update succeeds exactly when storage has the id; then storage saves `Updated` and the store merges the same fields, otherwise neither changes; a signed-in update succeeds exactly when the request gets through, the id is a UUID and the caller owns a row with it, and returns that row with the patch merged while the table changes only there; failures give `null` and change nothing |
| UseTodos.GuestCopyKeepsOldStamp | src/hooks/useTodos.ts:94-96 | after a guest's update the stored record has the new `updatedAt` but the store's copy keeps the old one |
| UseTodos.DeleteTodo | src/hooks/useTodos.ts:109-129 | a guest's delete reports `true` exactly when storage had the id, and then removes every record with it from both storage and the store; a signed-in delete reports `true` exactly when the request gets through, the id is a UUID and the caller owns a row with it, which is then the only row removed; a failure gives `false` and changes nothing |
| UseTodos.StopFrom | src/hooks/useTodos.ts:136-138 | the first request from `k` on that fails: every request before it was accepted and it was not, or the end of the list when none fails |
| UseTodos.StopIsFirstFailure | src/hooks/useTodos.ts:136-138 | any index preceded only by accepted requests and either failing or at the end is the stopping point |
| UseTodos.MigratedRow | src/hooks/useTodos.ts:137 | only the title travels: the row is owned by the caller, has a fresh id and is not completed |
| UseTodos.Created | src/hooks/useTodos.ts:136-138 | the first `n` requests create exactly `n` rows, one per local todo, in order |
| UseTodos.MigrationError | src/hooks/useTodos.ts:143-145 | the recorded message is the lost request's, or the schema's refusal when the request got through |
| UseTodos.MigrateToApi | src/hooks/useTodos.ts:131-150 | a guest gets `false` and nothing changes; otherwise the result is `true` exactly when every title was created; the table gains the rows created before the first failure, in order; on success storage and the store are emptied, on failure both are kept and the error is set |
| UseTodos.CreateInOrder | src/hooks/useTodos.ts:136-138 | the loop sends titles in order and stops at the first failure, which it reports with its message; it appends exactly the rows for the requests before that point |
| UseTodos.MigrationDropsCompletion | src/hooks/useTodos.ts:137 | every migrated row belongs to the caller and is open, even when the guest's todo was completed |
| UseTodos.Refetch | src/hooks/useTodos.ts:159-165 | a guest's store is reloaded from storage; a signed-in user's refetch leaves the guest store alone |
| Schemas.UuidNonEmpty | src/app/routers/_shared.ts:40 | a valid uuid is never empty and has its first dash in place, so `todoId \|\| null` keeps every valid todo id |
| Schemas.SpacesPassNewTodo | src/app/routers/_shared.ts:13-15 | `newTodoSchema` passes exactly the non-empty titles: a title of one space passes and the empty title does not |
| Schemas.KindName | src/app/routers/_shared.ts:41 | each kind's wire name is one of the enum's three names |
| Schemas.ParseKind | src/app/routers/_shared.ts:41 | a name is accepted exactly when it is the wire name of some kind, and then gives that kind |
| Schemas.KindRoundTrip | src/app/routers/_shared.ts:41 | every kind survives being written as its name and parsed back |
| Server.TodosTable.constructor | functions/api/todos.ts:22-26 | the `todos` table starts with the given rows |
| Server.SessionsTable.constructor | functions/api/pomodoro.ts:20-25 | the `pomodoro_sessions` table starts with the given rows |
| Server.InvalidInput | functions/api/todos.ts:43-48 | the refusal is a 400 failure with code `INVALID_INPUT` |
| Server.NotFound | functions/api/todos.ts:91-96 | the refusal is a 404 failure with code `NOT_FOUND` |
| Server.OwnedTodos | functions/api/todos.ts:22-25 | each of the caller's rows is listed as often as the table holds it, and no other row |
| Server.OwnedSessions | functions/api/pomodoro.ts:20-23 | each of the caller's sessions is listed as often as the table holds it, and no other session |
| Server.OwnedTodosInTableOrder | functions/api/todos.ts:25 | the caller's rows come in table order: listing a table made of two parts lists the first part's rows, then the second's |
| Server.OwnedSessionsInTableOrder | functions/api/pomodoro.ts:23 | the caller's sessions come in table order: listing a table made of two parts lists the first part's sessions, then the second's |
| Server.FindOwnedTodo | functions/api/todos.ts:84-89 | the lookup finds a row with the id owned by the caller, and fails exactly when there is none |
| Server.FindOwnedSession | functions/api/pomodoro.ts:96-101 | the lookup finds a session with the id owned by the caller, and fails exactly when there is none |
| Server.AnyRow | src/app/routers/todos.ts:39-47 | the tRPC lookup as written finds a row exactly when the table has one, whoever owns it and whatever its id |
| Server.PatchOwned | functions/api/todos.ts:107-111 | the table keeps its length and order; the caller's rows with the id get the patch merged, every other row is unchanged |
| Server.DeleteOwned | functions/api/todos.ts:141-143 | a row survives exactly when it is not the caller's row with the id |
| Server.Completed | functions/api/pomodoro.ts:111-115 | the session gets the completion time and every other field is unchanged |
| Server.CompleteOwned | functions/api/pomodoro.ts:111-115 | the table keeps its length and order; the caller's sessions with the id are completed at now, every other session is unchanged |
| Server.InsertKeepsKeys | src/app/routers/todos.ts:22-29 | inserting a row with a fresh id keeps the primary key unique |
| Server.PatchOwnedIsolated | functions/api/todos.ts:107-111 | an update by one caller leaves every other owner's rows exactly as they were |
| Server.DeleteOwnedIsolated | functions/api/todos.ts:141-143 | a delete by one caller leaves every other owner's rows exactly as they were |
| Server.CompleteOwnedIsolated | functions/api/pomodoro.ts:111-115 | completing a session leaves every other owner's sessions exactly as they were |
| Server.CompleteOverwrites | functions/api/pomodoro.ts:111-115 | completing twice is completing once at the later time: nothing prevents a second completion |
| Remote.Settle | src/hooks/useTodos.ts:69 | `mutateAsync` resolves exactly when the procedure returned, with its value; otherwise it rejects with an `Error`, carrying the thrown message or the schema's refusal |
| RouterTodos.GetAll | src/app/routers/todos.ts:6-15 | returns `OwnedTodos` of the table: each of the caller's rows as often as the table holds it, in table order by `Server.OwnedTodosInTableOrder` |
| RouterTodos.ListedAsWritten | src/app/routers/todos.ts:9-12 | `getAll` as written lists every row of the table, each as often as the table holds it, whoever owns it |
| RouterTodos.ListingLeaksAsWritten | src/app/routers/todos.ts:9-12 | as written a row of another owner is listed to the caller, where the owner filter withholds it |
| RouterTodos.LookupPassesAsWritten | src/app/routers/todos.ts:39-47 | as written the existence check of `update` and `delete` passes on any non-empty table, also when the caller owns no row with the id |
| RouterTodos.ListingsHoldSameRows | src/app/routers/todos.ts:9-14 | the tRPC listing and the REST listing hold the same rows; only their order may differ |
| RouterTodos.Create | src/app/routers/todos.ts:17-32 | an empty title is refused and nothing is stored; any other title is stored exactly as sent, open, owned by the caller, appended to the table and returned |
| RouterTodos.CreateDiffersFromRest | src/app/routers/todos.ts:17-29 | a title of spaces is stored by the procedure but refused by the REST handler, and only the REST handler trims surrounding spaces |
| RouterTodos.Update | src/app/routers/todos.ts:34-64 | a non-uuid id is refused; when the caller owns no row with the id it throws "Todo not found" and changes nothing; otherwise only the given fields of the caller's row change and that row is returned |
| RouterTodos.Delete | src/app/routers/todos.ts:66-86 | a non-uuid id is refused; when the caller owns no row with the id it throws "Todo not found" and changes nothing; otherwise the caller's row is removed and `{ id }` returned |
| ApiTodos.ListFor | functions/api/todos.ts:22-26 | a row is listed exactly when it is the caller's, each as often as in the table, ordered by `createdAt`, oldest first |
| ApiTodos.CleanTitle | functions/api/todos.ts:53 | the trimmed title is non-empty, starts and ends with a non-space, and trimming it again changes nothing |
| ApiTodos.Get | functions/api/todos.ts:18-32 | answers 200 with the caller's rows, oldest first |
| ApiTodos.Post | functions/api/todos.ts:35-63 | a missing, empty or all-space title gets 400 "Title is required" and nothing is stored; any other title is stored trimmed, open, owned by the caller, appended to the table and returned with 200 |
| ApiTodos.PatchFor | functions/api/todos.ts:99-105 | the patch carries the trimmed title exactly when one was sent, and the completion flag as sent |
| ApiTodos.Patch | functions/api/todos.ts:66-117 | an all-space title gets 400 "Title cannot be empty" before any lookup; when the caller owns no row with the id the answer is 404 and nothing changes; otherwise only the sent fields of the caller's row change and the updated row is returned with 200 |
| ApiTodos.Delete | functions/api/todos.ts:120-149 | 404 and no change when the caller owns no row with the id; otherwise the caller's row is removed and its id returned with 200 |
| ApiTodos.DeleteThenNotFound | functions/api/todos.ts:126-143 | after a delete the caller owns no row with the id, so repeating the delete answers 404 |
| ApiTodos.PostedIsListed | functions/api/todos.ts:22-57 | a created todo is listed for its owner, and no other user's listing changes |
| ApiTodos.OnlyAppendOther | functions/api/todos.ts:25 | appending another owner's row leaves a user's filtered rows as they were |
| ApiPomodoro.RecentFor | functions/api/pomodoro.ts:20-25 | at most 30 sessions, exactly 30 when the caller has that many and all of them, with their repeats, otherwise; only the caller's and none more often than the table holds it; newest `startedAt` first; none of the caller's sessions left out started later than one returned |
| ApiPomodoro.NothingNewerLeftOut | functions/api/pomodoro.ts:24-25 | the sessions cut by the limit are never newer than the ones kept |
| ApiPomodoro.GetSessions | functions/api/pomodoro.ts:16-31 | answers 200 with `RecentFor` of the table |
| ApiPomodoro.TodoIdOrNull | functions/api/pomodoro.ts:76 | the todo id is kept exactly when it is present and non-empty, and becomes null otherwise |
| ApiPomodoro.Refusal | functions/api/pomodoro.ts:44-72 | the checks run in order: an unknown or missing kind is refused first, then an unparsable or missing start time, then a missing or non-positive duration; a body passes exactly when all three hold |
| ApiPomodoro.PostSession | functions/api/pomodoro.ts:33-89 | a refused body gets 400 with that check's message and nothing is stored; otherwise a running session (no `completedAt`) of the caller with the sent kind, start time and duration, and the todo id or null, is appended and returned with 200 |
| ApiPomodoro.CompleteSession | functions/api/pomodoro.ts:91-121 | 404 "Session not found" and no change unless the caller owns a session with the id; otherwise only the caller's session gets `completedAt` = now, whatever it held before, and is returned with 200 |
| RouterPomodoro.OldestFor | src/app/routers/pomodoro.ts:9-16 | at most 30 sessions, exactly 30 when the caller has that many and all of them, with their repeats, otherwise; only the caller's and none more often than the table holds it; latest `startedAt` first; with more than 30 none left out started earlier than one returned, so these are the 30 oldest |
| RouterPomodoro.NothingOlderLeftOut | src/app/routers/pomodoro.ts:13-16 | the sessions cut by the limit are never older than the ones kept |
| RouterPomodoro.ListingsAgreeWhenFew | src/app/routers/pomodoro.ts:9-16 | with at most 30 sessions the procedure and the REST handler list the same sequence |
| RouterPomodoro.GetSessions | src/app/routers/pomodoro.ts:6-17 | returns `OldestFor` of the table |
| RouterPomodoro.OldestAsWritten | src/app/routers/pomodoro.ts:9-16 | `getSessions` as written gives the 30 oldest sessions of every owner, latest first, none more often than the table holds it and all of them when there are no more than 30; nothing left out is older than one returned |
| RouterPomodoro.SessionLeaksAsWritten | src/app/routers/pomodoro.ts:9-16 | as written a session of another owner is listed to the caller, where the owner filter withholds it |
| RouterPomodoro.NewSession | src/app/routers/pomodoro.ts:24-33 | the stored session is owned by the caller, has the fresh id, the sent kind, todo id, start time and positive duration, no `completedAt`, and `createdAt` = now |
| RouterPomodoro.UuidTodoIdKept | src/app/routers/pomodoro.ts:28 | a todo id that passed the schema is a uuid, so `\|\| null` never drops it |
| RouterPomodoro.CreateSession | src/app/routers/pomodoro.ts:19-37 | an input the schema refuses stores nothing; otherwise `NewSession` is appended and returned |
| RouterPomodoro.CompleteSession | src/app/routers/pomodoro.ts:39-61 | a non-uuid id is refused; when the caller owns no session with the id it throws "Session not found" and changes nothing; otherwise only the caller's session gets `completedAt` = now, overwriting any earlier value, and is returned |
| RouterPomodoro.CompleteLookupPassesAsWritten | src/app/routers/pomodoro.ts:44-52 | as written the existence check of `completeSession` passes on any non-empty table, also when the caller owns no session with the id |
| Base64Url.StdChar | functions/lib/jwt.ts:25 | each six-bit value has a character of the standard alphabet that reads back as that value; it is never `=`, `-`, `_` or `.` |
| Base64Url.StdValue | functions/lib/jwt.ts:33 | only standard-alphabet characters have a value, which is below 64, and `=`, `-`, `_` and `.` have none |
| Base64Url.JoinSplit | functions/lib/jwt.ts:25-33 | splitting three bytes into four six-bit values and joining them again gives each byte back |
| Base64Url.EncodeGroup | functions/lib/jwt.ts:25 | a group of one to three bytes takes one more character than it has bytes, all in the standard alphabet |
| Base64Url.EncodeCore | functions/lib/jwt.ts:25 | the unpadded encoding has four characters per full group of three bytes plus two or three for a final group of one or two, all in the standard alphabet |
| Base64Url.DecodeGroup | functions/lib/jwt.ts:33 | a group of two to four characters decodes exactly when all are in the standard alphabet, to one byte fewer than it has characters |
| Base64Url.DecodeCore | functions/lib/jwt.ts:33 | unpadded text decodes exactly when every character is in the standard alphabet and its length is not one more than a multiple of four; then every four characters give three bytes and a final two or three characters one or two |
| Base64Url.AllStdSplit | functions/lib/jwt.ts:33 | a text is in the standard alphabet exactly when both of its parts are |
| Base64Url.Padding | functions/lib/jwt.ts:25 | `btoa` pads with two `=` after a final single byte, one after a final pair, none otherwise |
| Base64Url.Btoa | functions/lib/jwt.ts:25 | the padded encoding's length is a multiple of four |
| Base64Url.Atob | functions/lib/jwt.ts:33 | text whose length is not a multiple of four decodes as it is; a successful decode has `=` only among the last two characters of a multiple of four |
| Base64Url.ToUrl | functions/lib/jwt.ts:26-27 | the length is kept, `+` becomes `-`, `/` becomes `_`, and every other character stays |
| Base64Url.FromUrl | functions/lib/jwt.ts:32 | the length is kept, `-` becomes `+`, `_` becomes `/`, and every other character stays |
| Base64Url.StripTrailing | functions/lib/jwt.ts:28 | the result is a prefix that does not end in `=`, and everything removed was `=` |
| Base64Url.Encode | functions/lib/jwt.ts:24-29 | `base64urlEncode` is the unpadded standard encoding in the url alphabet: four characters per three bytes plus two or three for a final partial group, never one more than a multiple of four, no `+`, `/`, `=` or `.`, and `base64urlDecode` turns it back into the bytes |
| Base64Url.PadCount | functions/lib/jwt.ts:32 | `(4 - (length % 4)) % 4` is the fewest characters, under four, that bring the length to a multiple of four |
| Base64Url.Padded | functions/lib/jwt.ts:32 | the string handed to `atob` is the standard-alphabet text followed by `=` up to a multiple of four |
| Base64Url.Decode | functions/lib/jwt.ts:31-34 | a text one character longer than a multiple of four gets three `=` and is rejected; the round trip from `base64urlEncode` is stated on `Base64Url.Encode` |
| Base64Url.GroupRoundTrip | functions/lib/jwt.ts:24-34 | every group of one to three bytes decodes back from its characters |
| Base64Url.OneRoundTrip | functions/lib/jwt.ts:24-34 | a single byte decodes back from its two characters |
| Base64Url.TwoRoundTrip | functions/lib/jwt.ts:24-34 | two bytes decode back from their three characters |
| Base64Url.ThreeRoundTrip | functions/lib/jwt.ts:24-34 | three bytes decode back from their four characters |
| Base64Url.CoreRoundTrip | functions/lib/jwt.ts:24-34 | decoding the unpadded encoding gives back the bytes |
| Base64Url.CoreLengthMod | functions/lib/jwt.ts:32 | the re-padding added on decode is exactly as long as the padding removed on encode |
| Base64Url.UrlRoundTrip | functions/lib/jwt.ts:26-32 | the url alphabet converts back cleanly on standard-alphabet text |
| Base64Url.StripPadding | functions/lib/jwt.ts:28 | removing the trailing `=` from text that does not end in `=` leaves exactly that text |
| Base64Url.UrlAlphabet | functions/lib/jwt.ts:26-28 | standard-alphabet text written in the url alphabet contains no `+`, `/`, `=` or `.` |
| Base64Url.PaddedUrlCore | functions/lib/jwt.ts:32 | re-padding the url encoding gives exactly what `btoa` produced |
| Base64Url.AtobBtoa | functions/lib/jwt.ts:33 | `atob` drops exactly the padding `btoa` added |
| Base64Url.UrlPaddingStripped | functions/lib/jwt.ts:24-29 | stripping the trailing `=` from the url-alphabet `btoa` output leaves exactly the unpadded encoding |
| Base64Url.UrlCoreRoundTrip | functions/lib/jwt.ts:31-34 | `base64urlDecode` of the unpadded url encoding gives back the bytes |
| Hmac.SignHmac | functions/lib/hmac.ts:26-31 | the signature decodes back to the tag over the data under the secret, and uses only url-safe characters with no dot |
| Hmac.VerifyHmac | functions/lib/hmac.ts:33-37 | throws exactly when the signature does not decode; otherwise the answer is `true` exactly when the decoded signature equals the tag over the data |
| Hmac.SignThenVerify | functions/lib/hmac.ts:26-37 | what is signed verifies, for the same data under the same secret |
| Hmac.OtherTagRefused | functions/lib/hmac.ts:26-37 | a signature made for other data, or under another secret, is refused whenever the tags differ |
| Jwt.NowSecs | functions/lib/jwt.ts:37 | `Math.floor(Date.now() / 1000)` is the whole second containing the current instant |
| Jwt.FullPayload | functions/lib/jwt.ts:36-38 | the payload carries the claims unchanged, `iat` = now in seconds, and `exp` = `iat` plus the lifetime, a week (604800 s) by default |
| Jwt.SigningInput | functions/lib/jwt.ts:41-43 | the signing input is the encoded header, one dot, then the encoded payload, with no other dot |
| Jwt.SignJwt | functions/lib/jwt.ts:36-49 | the token is header and payload in base64url, joined by a dot, then a dot and the HMAC signature over those two parts |
| Jwt.SignedTokenParts | functions/lib/jwt.ts:41-48 | a signed token splits on its dots into exactly three parts: the header, the payload and the signature |
| Jwt.VerifyJwt | functions/lib/jwt.ts:51-71 | a token without exactly three parts is refused; an accepted token has three parts, a signature that decodes and matches the tag over its first two parts, and a payload whose `exp` is not yet past |
| Jwt.VerifyWellFormed | functions/lib/jwt.ts:59-70 | for a token whose parts decode, whose signature matches and whose payload parses, the verdict is that payload while `exp` has not passed, and `null` after |
| Jwt.SignThenVerify | functions/lib/jwt.ts:36-71 | a token signed under a secret verifies under it and gives back the signed payload up to and including the second it expires, and `null` after, provided JSON and UTF-8 undo each other on the payload |
| Jwt.SignedPartsDecode | functions/lib/jwt.ts:41-48 | the payload part of a signed token decodes to the bytes of the payload's serialisation, and the signature part to the HMAC tag over the first two parts joined by a dot |
| TimerDisplay.MinutesSeconds | src/components/timer/TimerDisplay.tsx:14-15 | for a non-negative countdown, whole minutes and seconds below 60 that add back up to it |
| TimerDisplay.TwoDigits | src/components/timer/TimerDisplay.tsx:56 | at least two characters; exactly two, with no colon, below 100; the plain numeral, untruncated, from 100 on |
| TimerDisplay.Clock | src/components/timer/TimerDisplay.tsx:56 | under 100 minutes the clock is exactly five characters; where the colon sits and what the fields read as is stated by `TimerDisplay.ClockReadsBack` and `TimerDisplay.LongClock` |
| TimerDisplay.FieldRanges | src/components/timer/TimerDisplay.tsx:14-15 | for a countdown that is not negative the seconds are below 60, and under 6000 seconds the minutes are below 100 |
| TimerDisplay.Fields | src/components/timer/TimerDisplay.tsx:56 | in `a:b` the colon sits right after the first field, which comes before it unchanged, and the second field follows it unchanged |
| TimerDisplay.Caption | src/components/timer/TimerDisplay.tsx:59 | the caption is "Focus" exactly for work, "Rest" exactly for a short break and "Break" exactly for a long break |
| TimerDisplay.TabText | src/components/timer/TimerDisplay.tsx:21-50 | the tab reads "Focus" exactly for work, "Short Break" exactly for a short break and "Long Break" exactly for a long break |
| TimerDisplay.Highlighted | src/components/timer/TimerDisplay.tsx:21-50 | a highlighted tab is the only tab of the current kind, so no other tab is highlighted with it |
| TimerDisplay.OneTabPerKind | src/components/timer/TimerDisplay.tsx:21-50 | every kind has a tab, and exactly one tab is highlighted |
| TimerDisplay.NumeralLength | src/components/timer/TimerDisplay.tsx:56 | a numeral has at most two digits below 100 and at least three from 100 on |
| TimerDisplay.PaddedValue | src/components/timer/TimerDisplay.tsx:56 | the zero-padded field is all digits and reads back as the number |
| TimerDisplay.ZerosBefore | src/components/timer/TimerDisplay.tsx:56 | the two-digit field is the numeral with zeros in front of it |
| TimerDisplay.ClockReadsBack | src/components/timer/TimerDisplay.tsx:14-15 | under 100 minutes the clock is exactly `MM:SS`, and the two fields read back as the minutes and seconds of the countdown |
| TimerDisplay.LongClock | src/components/timer/TimerDisplay.tsx:14-15 | from 100 minutes on the minutes field has three or more digits and still reads back whole |
| TimerDisplay.LongFields | src/components/timer/TimerDisplay.tsx:14-15 | from 6000 seconds on the minutes are at least 100 and the clock is the two fields around the colon |
| TimerDisplay.LongMinutes | src/components/timer/TimerDisplay.tsx:56 | from 100 on the padded minutes field is the plain numeral of three or more digits, reading back as the number |
| Header.FormatFocusTime | src/components/layout/Header.tsx:7-12 | the text ends in `h` exactly for a positive whole number of hours and in `m` otherwise |
| Header.ReadAmount | src/components/layout/Header.tsx:8-11 | a reading succeeds only on text of at least two characters ending in the unit |
| Header.ReadNumeral | src/components/layout/Header.tsx:8-11 | a numeral followed by its unit reads back as the number under that unit and under no other, and holds no space |
| Header.FocusTimeReadsBack | src/components/layout/Header.tsx:7-12 | every non-negative number of minutes reads back from its formatted text: the format loses nothing |
| Header.MinutesReadBack | src/components/layout/Header.tsx:8 | under an hour, `<m>m` reads back as the minutes |
| Header.HoursReadBack | src/components/layout/Header.tsx:9-11 | a whole number of hours, `<h>h`, reads back as the minutes |
| Header.HoursMinutesReadBack | src/components/layout/Header.tsx:9-11 | hours with leftover minutes, `<h>h <m>m`, reads back as the minutes |
| Header.FocusSlot | src/components/layout/Header.tsx:14-48 | a dash exactly when the focus minutes (0 when the prop is left out) are not positive; otherwise a text that reads back as the minutes |
| Header.ButtonTitle | src/components/layout/Header.tsx:55 | "Login with Google" exactly for a guest; for a user, "Logout (" then the email then ")" |
| Bgm.NextIndex | src/hooks/useBgm.ts:107-109 | from a track of the playlist, `next` lands on a different track of the playlist, the following one with wrap-around |
| Bgm.PrevIndex | src/hooks/useBgm.ts:112 | from a track of the playlist, `prev` lands on a different track of the playlist |
| Bgm.NextPrevInverse | src/hooks/useBgm.ts:107-113 | `next` then `prev`, or `prev` then `next`, returns to the same track |
| Bgm.Clamp | src/hooks/useBgm.ts:116 | the volume is clamped into [0, 1]: a value inside is kept, below becomes 0, above becomes 1 |
| Bgm.ClampIdempotent | src/hooks/useBgm.ts:115-121 | setting an already clamped volume again keeps it |
| Bgm.Toggle | src/hooks/useBgm.ts:86-95 | a paused element is asked to play, a playing one to pause |
| Bgm.Player.constructor | src/hooks/useBgm.ts:30-33 | the player starts on the first track, not playing, at volume 0.5, with no error |
| Bgm.Player.CurrentTrack | src/hooks/useBgm.ts:125 | the current track exists exactly when the index is on the playlist, and is the track at that index |
| Bgm.Player.Next | src/hooks/useBgm.ts:107-109 | the index moves to `NextIndex` and nothing else changes |
| Bgm.Player.Prev | src/hooks/useBgm.ts:111-113 | the index moves to `PrevIndex` and nothing else changes |
| Bgm.Player.OnEnded | src/hooks/useBgm.ts:42-44 | a finished track moves on exactly like `next` |
| Bgm.Player.OnError | src/hooks/useBgm.ts:45-48 | an audio error sets the error flag and stops playback, and keeps track and volume |
| Bgm.Player.OnPlaying | src/hooks/useBgm.ts:49-50 | the element's `play` and `pause` events set the playing flag, and nothing else changes |
| Bgm.Player.TogglePlayback | src/hooks/useBgm.ts:82-96 | asks the element to play when paused and to pause otherwise; a refused play clears the playing flag; nothing else changes |
| Bgm.Player.SelectTrack | src/hooks/useBgm.ts:98-105 | selecting the current track toggles playback and keeps the index; any other index, even one off the playlist, becomes current with playback unchanged |
| Bgm.Player.SetVolume | src/hooks/useBgm.ts:115-121 | the volume becomes the clamped value and nothing else changes |
| Bgm.Player.OnIndexChange | src/hooks/useBgm.ts:67-80 | after a change of track the error flag is cleared; the track loads exactly when the index is on the playlist; playback is resumed exactly when it loaded and was playing, and a refused resume stops it |
| Bgm.WalkLandsOnNet | src/hooks/useBgm.ts:107-113 | any sequence of `next` and `prev` presses stays on the playlist and ends at the start index plus the net number of forward presses, wrapping around |
| UiStore.RemoveUndoesAdd | src/core/store/ui.ts:25-30 | removing a toast just added under an id no other toast has restores the list from before |
| UiStore.Store.constructor | src/core/store/ui.ts:24 | there are no toasts at first |
| UiStore.Store.AddToast | src/core/store/ui.ts:25-27 | one toast with the fresh id, the message and the variant is appended |
| UiStore.Store.RemoveToast | src/core/store/ui.ts:28-30 | every toast with the id is dropped and the rest keep their order; an unknown id changes nothing |
| UiStore.Store.ClearToasts | src/core/store/ui.ts:31 | no toasts remain |
| AuthStore.Store.constructor | src/core/store/auth.ts:26-27 | nobody is signed in yet and the session is being looked up |
| AuthStore.Store.SetUser | src/core/store/auth.ts:28 | the user (or nobody) is set, and loading always ends |
| AuthStore.Store.SetLoading | src/core/store/auth.ts:29 | only the loading flag changes |
| AuthStore.Store.ClearUser | src/core/store/auth.ts:30 | nobody is signed in and loading has ended |
| TodoInput.Submission | src/components/todos/TodoInput.tsx:13-14 | nothing reaches `onAdd` exactly when the title is all white space; otherwise exactly the trimmed title does |
| TodoInput.CollapsesOnBlur | src/components/todos/TodoInput.tsx:21 | leaving the field folds it exactly when the title is all white space, which is exactly when a submission would add nothing |
| TodoInput.SubmissionClean | src/components/todos/TodoInput.tsx:13-14 | what reaches `onAdd` is non-empty, starts and ends with a non-space, and submitting it again hands over the same title |
| TodoInput.Input.constructor | src/components/todos/TodoInput.tsx:8-9 | the field starts folded with an empty title |
| TodoInput.Input.Expand | src/components/todos/TodoInput.tsx:29 | clicking the folded button unfolds the field and keeps the title |
| TodoInput.Input.Change | src/components/todos/TodoInput.tsx:43 | typing sets the title and keeps the field as it was |
| TodoInput.Input.Submit | src/components/todos/TodoInput.tsx:11-18 | hands `Submission` of the title to `onAdd`; when something was added the title is emptied and the field folds, otherwise nothing changes |
| TodoInput.Input.KeyDown | src/components/todos/TodoInput.tsx:45 | Enter submits; any other key adds nothing and changes nothing |
| TodoInput.Input.Blur | src/components/todos/TodoInput.tsx:20-24 | the title is kept, and the field folds exactly when the title is all white space |
| TodoRepo.CreateTodoRepo | src/core/repo/todo.repo.ts:84-86 | the API repository exactly when a user is signed in, the local one exactly for a guest |
| TodoRepo.NetworkFailure | src/lib/api.ts:36-39 | a request with no response answers a failure with the message "Network error occurred" |
| TodoRepo.Unwrap | src/core/repo/todo.repo.ts:21-43 | resolves exactly on a successful response, with its data; otherwise throws an `Error` with the response's message |
| TodoRepo.ApiDelete | src/core/repo/todo.repo.ts:45-51 | resolves exactly on a successful response; otherwise throws an `Error` with the response's message |
| TodoRepo.ApiDeleteNeverFalse | src/core/repo/todo.repo.ts:45-51 | the API delete never resolves to `false`, and a lost request throws "Network error occurred" |
| TodoRepo.LocalGetAll | src/core/repo/todo.repo.ts:61-63 | gives what storage holds |
| TodoRepo.LocalAdd | src/core/repo/todo.repo.ts:65-68 | the record storage creates, never completed, appended to the saved list |
| TodoRepo.LocalUpdate | src/core/repo/todo.repo.ts:70-72 | `null` with no write exactly for an unknown id; otherwise storage saves `Updated` |
| TodoRepo.LocalDelete | src/core/repo/todo.repo.ts:74-76 | `true` exactly when storage had the id, and then the slot holds the old list without every record with that id; otherwise nothing is written |
| TodoRepo.Clear | src/core/repo/todo.repo.ts:53-80 | the local repository removes the storage slot; the API repository's `clear` touches nothing |
| App.EffectStep | src/App.tsx:45-58 | one run of the sign-in effect: signed in keeps `wasGuest`, signed out flips it and keeps the dialog flag; the dialog flag only ever turns on, and it does so exactly when a user is signed in, was not marked a guest and local storage holds at least one todo; signed in after being marked a guest changes nothing |
| App.GuestNeverSettles | src/App.tsx:52-57 | while signed out every run flips `wasGuest`, so two runs give back the original flags and the effect never reaches a fixed point |
| App.SignedInSettles | src/App.tsx:46-51 | while signed in a second run of the effect changes nothing |
| App.GuestRuns | src/App.tsx:52-57 | any number of signed-out runs leave the dialog flag as it was |
| App.GuestRunsParity | src/App.tsx:52-57 | after `n` signed-out runs `wasGuest` is the starting value when `n` is even and its negation when `n` is odd |
| App.SignInOpensDialog | src/App.tsx:45-51 | starting from the initial flags, signing in after `n` signed-out runs opens the dialog exactly when `n` is even and local storage holds at least one todo |
| App.AppState.constructor | src/App.tsx:41-42 | the dialog is hidden and the user is not marked a guest |
| App.AppState.DialogRendered | src/App.tsx:102-104 | the migrate dialog is rendered exactly when its flag is on |
| App.AppState.Effect | src/App.tsx:45-59 | the new flags are one effect step from the old ones, for the current user and the number of todos in local storage |
| App.AppState.HandleMigrateClose | src/App.tsx:62-65 | hides the dialog, keeps `wasGuest` and refetches: a guest's list reloads from local storage with no error and not loading, a signed-in user's list is left alone |
| MigrateDialog.Dialog.constructor | src/components/dialogs/MigrateDialog.tsx:12-17 | the dialog takes a snapshot of the todos in local storage and is not migrating |
| MigrateDialog.Dialog.Count | src/components/dialogs/MigrateDialog.tsx:47 | the count shown is the number of todos in the snapshot |
| MigrateDialog.Dialog.ButtonsEnabled | src/components/dialogs/MigrateDialog.tsx:71-79 | both buttons are enabled exactly when no migration is in progress |
| MigrateDialog.Dialog.MigrateLabel | src/components/dialogs/MigrateDialog.tsx:75 | the migrate button reads "Migrating..." during a migration and "Migrate" otherwise |
| MigrateDialog.Dialog.HandleMigrate | src/components/dialogs/MigrateDialog.tsx:19-26 | the dialog closes exactly when a user is signed in and every snapshot todo was created on the server; then local storage is cleared, the local list is empty and the dialog hidden, otherwise all three are kept; the server table gains the created rows in order; the dialog ends not migrating with its snapshot kept |
| MigrateDialog.Dialog.HandleSkip | src/components/dialogs/MigrateDialog.tsx:28-31 | local storage is cleared and the dialog hidden; a signed-in user's list is kept, a guest's list reloads as empty with no error |
| MigrateDialog.Dialog.HandleClose | src/components/dialogs/MigrateDialog.tsx:38-42 | the dialog is hidden and local storage is left as it was |
| UsePomodoro.Anonymized | src/hooks/usePomodoro.ts:78 | one output per session, each with the owner blanked to the empty string and every other field kept |
| UsePomodoro.View | src/hooks/usePomodoro.ts:77-81 | a guest sees the local list, loading flag and error; a signed-in user sees the query's sessions with their owners blanked and ids kept, in order (none while it has no data), the query's loading flag, and the query's own error message exactly when it is non-empty |
| UsePomodoro.AnonymizedIdempotent | src/hooks/usePomodoro.ts:78 | blanking the owner twice is blanking it once, and ids and start times survive it |
| UsePomodoro.ReplaceAll | src/hooks/usePomodoro.ts:139-141 | same length; every entry with the completed id becomes the updated record and every other entry is kept |
| UsePomodoro.ReplaceAllIdempotent | src/hooks/usePomodoro.ts:139-141 | applying the same replacement a second time changes nothing |
| UsePomodoro.Hook.constructor | src/hooks/usePomodoro.ts:55-57 | mounting loads the stored sessions once; loading has ended, and either the stored list is in place with no error or the list is empty and the error is the thrown message or "Failed to load sessions" |
| UsePomodoro.Hook.InitLocalSessions | src/hooks/usePomodoro.ts:60-70 | loading ends either way; a successful load replaces the list and keeps the error, a failed one keeps the list and records the thrown message or "Failed to load sessions" |
| UsePomodoro.Hook.FetchSessions | src/hooks/usePomodoro.ts:83-89 | a signed-in user's local state is untouched; a guest's is reloaded from storage as in the initial load |
| UsePomodoro.Hook.StartSession | src/hooks/usePomodoro.ts:91-126 | clears the error; signed in: a session is returned, owner blanked, exactly when the server is reachable and the input is valid, and the server table gains that session as its last row, otherwise nothing changes and no error is recorded; guest: the stored running session is appended and returned, or on a throw nothing is returned and the thrown message or "Failed to start session" is recorded |
| UsePomodoro.Hook.CompleteSession | src/hooks/usePomodoro.ts:128-150 | clears the error; signed in: the server completes the session exactly when it is reachable, the id is a UUID and the user owns such a session, and the local state is untouched; guest: the record storage returns replaces every entry with that id, `null` changes nothing, and a throw records the thrown message or "Failed to complete session" |

## Left out

- Rendering: the markup, styles, icons and layout of every component. Only the values they show and the handlers they call are modelled.
- Concurrency and asynchrony: every `await` completes before the next action. Interleaved handlers, React's batching of state updates and stale closures are not modelled.
- The browser: `localStorage` quota errors, which `saveTodos` logs and swallows; the audio element itself, including `toggle` reloading the track's `src` before playing; `setInterval`. Their observable effects are parameters or methods.
- The clock, `crypto.randomUUID()`, `Date.now()` and `new Date().toISOString()`: each is a parameter. Timestamps are integers of milliseconds, not ISO strings or database timestamps.
- JSON: `JSON.parse` of the todo slot is three cases (absent, unparsable, a saved list). A slot holding valid JSON that is not a list, such as `null`, is not modelled, so `getTodos` always gives a list here.
- The session storage helpers `getPomodoroSessions`, `addPomodoroSession` and `updatePomodoroSession` are not part of this model. What each answers or throws is a parameter of `UsePomodoro`.
- `src/core/store/todos.ts`: what `getTodos` gives `initFromStorage` is a parameter. That parameter includes a throw, which the `catch` handles, although `getTodos` as written catches its own errors and never throws.
- TodosStore.Store.constructor: what `persist` reads back from the `todos-storage` key is a parameter, the saved list or the empty list when the key is missing or does not parse; its JSON handling is not modelled.
- `src/hooks/useBgm.ts`: `selectTrack` with an index outside the playlist makes the track-change effect throw, and that is not modelled. The clamp of the volume is over reals, so `NaN` is not modelled.
- `src/components/layout/Header.tsx`: `formatFocusTime` is modelled on whole minutes. Its output for fractional minutes, the avatar, and the sign-in button's action are not modelled.
- Header.ReadFocusTime: this is not code of the program but the reference reading of a focus time against which `Header.FormatFocusTime` is proved in `Header.FocusTimeReadsBack`; it carries no contract of its own.
- Database: foreign keys, column types and the SQL text. The tables are sequences of rows and the queries are the owner-scoped operations in `Server`, which the REST handlers state as SQL conditions; the tRPC procedures as written are the subject of "## Findings". When two rows have the same sort key, the order of the returned rows is not modelled; the lemmas speak of keys only. A query without `ORDER BY` has no order guaranteed by PostgreSQL; the model returns rows in table order.
- ApiTodos.Patch: the `:id` path parameter is not validated. An id that is not a UUID makes PostgreSQL reject the comparison with the `uuid` column, so the handler fails with a server error; the model compares ids as text and answers 404 Not Found.
- ApiTodos.Delete: as for `ApiTodos.Patch`, an id that is not a UUID fails in the database with a server error, where the model answers 404 Not Found.
- ApiPomodoro.CompleteSession: the `:id` path parameter is not validated (functions/api/pomodoro.ts:94-99). An id that is not a UUID fails in the database with a server error, where the model compares ids as text and answers 404 "Session not found".
- ApiPomodoro.PostSession: the duration check `!body.durationSecs || body.durationSecs <= 0` (functions/api/pomodoro.ts:64) lets through a fraction such as `1.5` and a non-numeric string such as `"abc"`, and a `todoId` that is not a UUID is stored as sent (pomodoro.ts:76); each fails on its integer or `uuid` column with a server error. The model's body holds an integer duration and its todo id is text, so it excludes the first two by type and answers 200 for the third.
- tRPC transport: a call whose request is lost never reaches the server. A response lost after the server acted is not modelled separately.
- Remote.Settle: the message of a schema rejection is the fixed text "Invalid input", standing in for the error text the validation library produces.
- Base64Url.Decode: `atob` skips ASCII white space inside its input, and the model does not. A token part containing white space decodes here to `None`, where the browser would decode it.
- Jwt.SignThenVerify: the round trip holds under the assumption that parsing the payload's own serialisation gives the payload back. JSON is a parameter, so that is a precondition, not a proof.
- Hmac: the HMAC function, the digest and UTF-8 encoding are parameters. Verification is defined as WebCrypto defines it for HMAC: recompute the tag and compare. The HMAC function is total here, but WebCrypto's `importKey` refuses a zero-length raw key, so `signHmac` and `verifyHmac` throw on an empty secret (functions/lib/hmac.ts:3-12); that rejection is not modelled.
- Hmac.TagMatches: `crypto.subtle.verify` is a foreign call. It is defined here, as WebCrypto defines HMAC verification, by recomputing the tag and comparing, and carries no contract of its own.
- RouterTodos.GetAll: states the owner filter the procedure evidently intends. As written it lists every owner's rows (`RouterTodos.ListedAsWritten`, see "## Findings").
- RouterTodos.ListingsHoldSameRows: compares the REST listing with the intended tRPC listing. As written the tRPC listing holds every owner's rows.
- RouterTodos.Update: states the intended owner-and-id lookup and update. As written "Todo not found" is thrown only on an empty table (`RouterTodos.LookupPassesAsWritten`), and the update's condition is a JavaScript function; what the database driver does with a function where an SQL condition belongs is not modelled. An update with neither `title` nor `completed` makes the query builder refuse the empty `set`, so the mutation fails; the model returns the row unchanged.
- RouterTodos.Delete: as for `RouterTodos.Update`, the lookup as written passes on any non-empty table, and the delete's function condition is not modelled; the model deletes the caller's row with the id.
- RouterPomodoro.OldestFor: states the owner filter the procedure evidently intends. As written these are the 30 oldest sessions of every owner (`RouterPomodoro.OldestAsWritten`).
- RouterPomodoro.NothingOlderLeftOut: stated for the caller's sessions; as written the cut is over every owner's sessions, and `RouterPomodoro.OldestAsWritten` states it there.
- RouterPomodoro.ListingsAgreeWhenFew: compares the REST listing with the intended tRPC listing. As written the tRPC listing spans every owner.
- RouterPomodoro.GetSessions: returns the intended `OldestFor` of the caller, not `OldestAsWritten` of the whole table.
- RouterPomodoro.CompleteSession: states the intended owner-and-id lookup and update. As written "Session not found" is thrown only on an empty table (`RouterPomodoro.CompleteLookupPassesAsWritten`), and the update's function condition is not modelled.
- ApiTodos.Patch: a body with neither `title` nor `completed` leaves the update empty, and the query builder refuses an empty `set`, so the handler fails with a server error. The model answers 200 with the row unchanged.
- Jwt.VerifyJwt: `JSON.parse` of the payload checks no field. A signed payload whose `exp` is missing or not a number is never refused as expired, because the comparison with the current time is false. The payload parser here is a parameter that yields payloads with an integer `exp`, so that case is not modelled.
- TimerDisplay.Clock: its own contract states only the length under 100 minutes. The colon's place and the values the two fields read as are proved in `TimerDisplay.ClockReadsBack` and `TimerDisplay.LongClock`.
- Lists.Only: its own contract states membership and length only. Multiplicity is proved in `Lists.OnlyCount` and order in `Lists.OnlyConcat`.
- Lists.Without: its own contract states only that the result is no longer than the input. Membership, order and length are proved in `Lists.WithoutMembers`, `Lists.WithoutLength` and `Lists.WithoutConcat`.
- Lists.Insert: its own contract states only the length. Sortedness and contents are proved in `Lists.InsertSorted` and the lemmas of `Lists.SortBy`.
- MigrateDialog.Dialog.HandleSkip: a guest cannot open the dialog, so only the signed-in case is meaningful. There the in-memory guest store is kept.

## Findings

| source | as written | input that shows it | evidently intended | confidence | as-written member | corrected member |
|---|---|---|---|---|---|---|
| src/app/routers/todos.ts:9-12 | the `where` argument is a JavaScript function; the query builder calls it once with the column objects, gets `false`, and emits no `WHERE` clause, so `getAll` lists every row | rows A owned by u1 and B owned by u2, caller u1: A and B are listed | only the caller's rows, as the REST handler's `eq(todos.userId, user.sub)` (functions/api/todos.ts:25) | medium, not executed: rests on how the query builder treats a function argument | `RouterTodos.ListingLeaksAsWritten` | `RouterTodos.GetAll` |
| src/app/routers/pomodoro.ts:9-16 | the same unfiltered query with a working `ORDER BY started_at`, so `getSessions` gives the 30 oldest sessions of every owner | sessions a owned by u1 and b owned by u2, caller u1: a and b are listed | the caller's sessions only, as `eq(pomodoroSessions.userId, user.sub)` (functions/api/pomodoro.ts:23) | medium, not executed: rests on how the query builder treats a function argument | `RouterPomodoro.SessionLeaksAsWritten` | `RouterPomodoro.OldestFor` |
| src/app/routers/todos.ts:39-47 | the existence check has no `WHERE` clause either, so `limit(1)` finds a row whenever the table has one and "Todo not found" is thrown only on an empty table | table holding only B owned by u2, caller u1 asks to update B's id: no "Todo not found" | a row with the id owned by the caller, as `and(eq(todos.id, id), eq(todos.userId, user.sub))` (functions/api/todos.ts:87) | medium, not executed: rests on how the query builder treats a function argument | `RouterTodos.LookupPassesAsWritten` | `Server.FindOwnedTodo` |
| src/hooks/useTodos.ts:57 | the initial load runs only while the guest store is empty, but `persist` has already put back the list saved in `todos-storage` and left loading on, so a returning guest's store never loads | a guest who saved one todo on an earlier visit opens the page: `TodoList` shows "Loading..." until `refetch` is called | load whenever the guest store is still loading | medium, not executed: rests on `persist` rehydrating synchronously from local storage | `UseTodos.MountAsWritten` | `UseTodos.Mount` |
| src/app/routers/pomodoro.ts:44-52 | the same unfiltered existence check: "Session not found" only on an empty table | table holding only a session of u2, caller u1 completes its id: no "Session not found" | a session with the id owned by the caller (functions/api/pomodoro.ts:99) | medium, not executed: rests on how the query builder treats a function argument | `RouterPomodoro.CompleteLookupPassesAsWritten` | `Server.FindOwnedSession` |
