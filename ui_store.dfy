/** The toast notifications (`src/core/store/ui.ts`). */
module UiStore {
  import Lists

  datatype ToastVariant = Success | Error | Info | Warning

  datatype Toast = Toast(id: string, message: string, variant: ToastVariant)

  function ToastId(t: Toast): string { t.id }

  /** Removing a toast that was just added, under an id no other toast has, restores the list. */
  lemma {:induction false} RemoveUndoesAdd(s: seq<Toast>, t: Toast)
    requires forall i :: 0 <= i < |s| ==> s[i].id != t.id
    ensures Lists.Without(s + [t], ToastId, t.id) == s
  {
    Lists.WithoutConcat(s, [t], ToastId, t.id);
    assert forall i :: 0 <= i < |s| ==> ToastId(s[i]) != t.id;
    Lists.WithoutLength(s, ToastId, t.id);
    Lists.WithoutCons(t, [], ToastId, t.id);
    assert [t] + [] == [t];
  }

  /** `useUiStore`. */
  class Store {
    var toasts: seq<Toast>

    constructor ()
      ensures toasts == []
    {
      toasts := [];
    }

    /** `addToast`: appends one toast under a fresh id (`crypto.randomUUID()`, a parameter here). */
    method AddToast(message: string, variant: ToastVariant, freshId: string)
      modifies this
      ensures toasts == old(toasts) + [Toast(freshId, message, variant)]
    {
      toasts := toasts + [Toast(freshId, message, variant)];
    }

    /** `removeToast`: drops every toast with the id, keeping the rest in order. */
    method RemoveToast(id: string)
      modifies this
      ensures toasts == Lists.Without(old(toasts), ToastId, id)
      ensures (forall i :: 0 <= i < |old(toasts)| ==> old(toasts)[i].id != id) ==> toasts == old(toasts)
    {
      Lists.WithoutLength(toasts, ToastId, id);
      toasts := Lists.Without(toasts, ToastId, id);
    }

    method ClearToasts()
      modifies this
      ensures toasts == []
    {
      toasts := [];
    }
  }
}
