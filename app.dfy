/** The top-level component's own state (`src/App.tsx`): whether the visitor was last seen as a
    guest, and whether the migrate dialog is shown. Its effect runs again whenever `user` or
    `wasGuest` changed, which is what the run functions below count. */
module App {
  import opened Wrappers
  import opened AuthStore
  import opened Storage
  import TodosStore
  import UseTodos

  /** `wasGuest` and `showMigrateDialog` after one run of the effect. */
  datatype Flags = Flags(wasGuest: bool, showMigrateDialog: bool)

  /** One run of the effect. A signed-in user not flagged as a former guest gets the dialog when
      storage holds todos; a guest flagged as one is unflagged; any other guest is flagged. */
  function EffectStep(f: Flags, signedIn: bool, localCount: nat): (r: Flags)
    ensures signedIn ==> r.wasGuest == f.wasGuest
    ensures !signedIn ==> r.wasGuest == !f.wasGuest && r.showMigrateDialog == f.showMigrateDialog
    ensures r.showMigrateDialog != f.showMigrateDialog ==>
      r.showMigrateDialog && signedIn && !f.wasGuest && localCount > 0
    ensures signedIn && !f.wasGuest && localCount > 0 ==> r.showMigrateDialog
    ensures signedIn && f.wasGuest ==> r == f
  {
    if !f.wasGuest && signedIn then
      if localCount > 0 then f.(showMigrateDialog := true) else f
    else if f.wasGuest && !signedIn then
      f.(wasGuest := false)
    else if !signedIn then
      f.(wasGuest := true)
    else
      f
  }

  /** For a guest the effect never settles: each run flips `wasGuest`, which schedules another. */
  lemma GuestNeverSettles(f: Flags, localCount: nat)
    ensures EffectStep(f, false, localCount).wasGuest != f.wasGuest
    ensures EffectStep(EffectStep(f, false, localCount), false, localCount) == f
  {
  }

  /** For a signed-in user one run is all it takes: a second changes nothing. */
  lemma SignedInSettles(f: Flags, localCount: nat)
    ensures EffectStep(EffectStep(f, true, localCount), true, localCount) == EffectStep(f, true, localCount)
  {
  }

  /** `n` runs of the effect for a guest. */
  function GuestRuns(f: Flags, n: nat): (r: Flags)
    ensures r.showMigrateDialog == f.showMigrateDialog
  {
    if n == 0 then f else EffectStep(GuestRuns(f, n - 1), false, 0)
  }

  /** After `n` guest runs `wasGuest` is its first value flipped `n` times. */
  lemma {:induction false} GuestRunsParity(f: Flags, n: nat)
    ensures GuestRuns(f, n).wasGuest == if n % 2 == 0 then f.wasGuest else !f.wasGuest
  {
    if n > 0 {
      GuestRunsParity(f, n - 1);
    }
  }

  /** Whether signing in opens the dialog depends on how many times the guest effect ran before:
      from the mounted state, only after an even number of runs, and only with stored todos. */
  lemma SignInOpensDialog(n: nat, localCount: nat)
    ensures EffectStep(GuestRuns(Flags(false, false), n), true, localCount).showMigrateDialog
      <==> n % 2 == 0 && localCount > 0
  {
    GuestRunsParity(Flags(false, false), n);
  }

  class AppState {
    var wasGuest: bool
    var showMigrateDialog: bool

    /** Mounting: neither flag is set. */
    constructor ()
      ensures !wasGuest && !showMigrateDialog
    {
      wasGuest, showMigrateDialog := false, false;
    }

    function Current(): Flags
      reads this
    {
      Flags(wasGuest, showMigrateDialog)
    }

    /** The dialog is rendered exactly when the flag says so. */
    function DialogRendered(): (shown: bool)
      reads this
      ensures shown <==> Current().showMigrateDialog
    {
      showMigrateDialog
    }

    /** One run of the effect, reading the stored todos only for a user who just signed in. */
    method Effect(user: Option<AuthUser>, st: TodoStorage)
      modifies this
      ensures Current() == EffectStep(old(Current()), user.Some?, |st.GetTodos()|)
    {
      if !wasGuest && user.Some? {
        var localTodos := st.GetTodos();
        if |localTodos| > 0 {
          showMigrateDialog := true;
        }
      } else if wasGuest && user.None? {
        wasGuest := false;
      } else if user.None? {
        wasGuest := true;
      }
    }

    /** `handleMigrateClose`: hides the dialog and refetches the todos. */
    method HandleMigrateClose(user: Option<AuthUser>, store: TodosStore.Store, st: TodoStorage)
      modifies this, store
      ensures !showMigrateDialog && wasGuest == old(wasGuest)
      ensures user.None? ==> store.localTodos == st.GetTodos() && !store.loading && store.error == None
      ensures user.Some? ==>
        store.localTodos == old(store.localTodos) && store.loading == old(store.loading) && store.error == old(store.error)
    {
      showMigrateDialog := false;
      UseTodos.Refetch(user, store, st);
    }
  }
}
