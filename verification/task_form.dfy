/** The new-task form: a text field and a submit guard. */
module TaskForm {
  import opened Options
  import opened Text

  /** The field after a submit, and the title handed to `onAdd`, if any. */
  datatype Submission = Submission(field: string, added: Option<string>)

  /** `submit`: a whitespace-only field is not submitted and keeps its text; any other text
      goes to `onAdd` exactly as typed, untrimmed, once, and the field is cleared. The call
      is not awaited, so the field is cleared whatever becomes of the request. */
  function Submit(field: string): (r: Submission)
    ensures r.added.Some? <==> !AllWhitespace(field)
    ensures r.added.Some? ==> r.added.value == field && r.field == ""
    ensures r.added.None? ==> r.field == field
  {
    if IsBlank(field) then Submission(field, None) else Submission("", Some(field))
  }

  /** Submitting twice in a row adds at most one task: the field left by a submit is never
      submitted again, and a second submit leaves it as it is. */
  lemma NoDoubleSubmit(field: string)
    ensures Submit(Submit(field).field).added.None?
    ensures Submit(Submit(field).field).field == Submit(field).field
  {
  }
}
