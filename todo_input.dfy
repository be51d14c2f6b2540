/** The new-todo field (`src/components/todos/TodoInput.tsx`): a collapsed button that expands
    into a text input. Submitting hands the trimmed title to `onAdd`, which is returned here
    instead of being called. */
module TodoInput {
  import opened Wrappers
  import Text

  /** What a submission of `title` passes to `onAdd`: the trimmed title, unless nothing is left. */
  function Submission(title: string): (added: Option<string>)
    ensures added.None? <==> Text.AllSpace(title)
    ensures added.Some? ==> added.value == Text.Trim(title)
  {
    Text.TrimEmptyIff(title);
    var trimmed := Text.Trim(title);
    if trimmed != [] then Some(trimmed) else None
  }

  /** Whether leaving the field folds it back: only when nothing but blanks was typed. */
  function CollapsesOnBlur(title: string): (collapses: bool)
    ensures collapses <==> Text.AllSpace(title)
    ensures collapses <==> Submission(title).None?
  {
    Text.TrimEmptyIff(title);
    Text.Trim(title) == []
  }

  class Input {
    var isExpanded: bool
    var title: string

    /** Mounting: collapsed, with an empty title. */
    constructor ()
      ensures !isExpanded && title == ""
    {
      isExpanded, title := false, "";
    }

    /** Clicking the collapsed button. */
    method Expand()
      modifies this
      ensures isExpanded && title == old(title)
    {
      isExpanded := true;
    }

    /** Typing: the field's value becomes the title. */
    method Change(value: string)
      modifies this
      ensures title == value && isExpanded == old(isExpanded)
    {
      title := value;
    }

    /** `handleSubmit`: a title with something besides blanks goes to `onAdd` trimmed, and the
        field empties and folds; otherwise nothing happens. */
    method Submit() returns (added: Option<string>)
      modifies this
      ensures added == Submission(old(title))
      ensures added.Some? ==> title == "" && !isExpanded
      ensures added.None? ==> title == old(title) && isExpanded == old(isExpanded)
    {
      added := Submission(title);
      if added.Some? {
        title := "";
        isExpanded := false;
      }
    }

    /** A key press in the field: Enter submits, any other key does nothing here. */
    method KeyDown(key: string) returns (added: Option<string>)
      modifies this
      ensures key == "Enter" ==> added == Submission(old(title))
      ensures key != "Enter" ==> added.None? && title == old(title) && isExpanded == old(isExpanded)
      ensures added.Some? ==> title == "" && !isExpanded
      ensures added.None? ==> title == old(title) && isExpanded == old(isExpanded)
    {
      if key == "Enter" {
        added := Submit();
      } else {
        added := None;
      }
    }

    /** `handleBlur`: folds the field when nothing but blanks was typed; the title is kept. */
    method Blur()
      modifies this
      ensures title == old(title)
      ensures isExpanded == (old(isExpanded) && !CollapsesOnBlur(old(title)))
    {
      if CollapsesOnBlur(title) {
        isExpanded := false;
      }
    }
  }

  /** What reaches `onAdd` is never empty and is already trimmed: it starts and ends with something
      other than a blank, and submitting it again hands over the same title. */
  lemma SubmissionClean(title: string)
    requires Submission(title).Some?
    ensures var t := Submission(title).value;
      t != [] && !Text.IsSpace(t[0]) && !Text.IsSpace(t[|t| - 1]) && Submission(t) == Submission(title)
  {
    Text.TrimIdempotent(title);
    Text.TrimEmptyIff(Text.Trim(title));
  }
}
