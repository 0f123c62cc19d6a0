/**
  One rendered task row: a `viewing ⇄ editing` machine with an edit buffer and a `loading`
  flag. Each event is taken as a whole; when it makes an update call, the call's outcome is an
  input, and the row is reported both while the call is awaited and after it settles.
 */
module TaskRow {
  import opened Options
  import opened Tasks
  import opened Text

  datatype Row = Row(editing: bool, buffer: string, loading: bool)

  datatype Event =
    | DoubleClickTitle
    | ClickEdit
    | Input(value: string)
    | Blur
    | KeyDown(key: string)

  /** The call to the page's `onUpdate`, if any. */
  datatype Effect = NoCall | CallUpdate(id: ObjectId, title: string)

  /** The row while the call is awaited (when one is made), the call, and the settled row. */
  datatype Transition = Transition(pending: Option<Row>, effect: Effect, after: Row)

  /** A freshly mounted row: viewing, the buffer holding the title, not loading. */
  function Mount(task: Task): (r: Row)
    ensures !r.editing && !r.loading && r.buffer == task.title
  {
    Row(false, task.title, false)
  }

  /** The edit button is rendered only while viewing. */
  predicate ShowsEditButton(row: Row) {
    !row.editing
  }

  /** The text input exists only while editing, and a disabled input takes no typing,
      key presses or focus changes. */
  predicate AcceptsInput(row: Row) {
    row.editing && !row.loading
  }

  /** `handleUpdate`. A blank buffer, or one equal to the title as typed, cancels the edit
      without a call. Otherwise the trimmed buffer is sent with `loading` raised; success
      leaves editing, failure restores the title into the buffer and stays in editing; either
      way `loading` drops again. */
  function HandleUpdate(row: Row, task: Task, succeeded: bool): (t: Transition)
    ensures t.effect.NoCall? <==> AllWhitespace(row.buffer) || row.buffer == task.title
    ensures t.effect.NoCall? ==> t.pending.None? && t.after == Row(false, task.title, row.loading)
    ensures t.effect.CallUpdate? ==>
      && t.effect.id == task.id
      && t.effect.title == Trim(row.buffer) && t.effect.title != []
      && t.pending == Some(row.(loading := true))
      && !t.after.loading
      && (t.after.editing <==> row.editing && !succeeded)
      && t.after.buffer == (if succeeded then row.buffer else task.title)
  {
    if IsBlank(row.buffer) || row.buffer == task.title then
      Transition(None, NoCall, row.(editing := false, buffer := task.title))
    else
      var pending := row.(loading := true);
      var after :=
        if succeeded then pending.(editing := false, loading := false)
        else pending.(buffer := task.title, loading := false);
      Transition(Some(pending), CallUpdate(task.id, Trim(row.buffer)), after)
  }

  function Idle(row: Row): Transition {
    Transition(None, NoCall, row)
  }

  /** The row's response to one event. */
  function Handle(row: Row, task: Task, ev: Event, succeeded: bool): (t: Transition)
    ensures (ev.DoubleClickTitle? || ev.ClickEdit?) && ShowsEditButton(row) ==>
      t == Transition(None, NoCall, row.(editing := true))
    ensures (ev.DoubleClickTitle? || ev.ClickEdit?) && row.editing ==> t == Transition(None, NoCall, row)
    ensures (ev.Blur? || ev == KeyDown("Enter")) && AcceptsInput(row) ==> t == HandleUpdate(row, task, succeeded)
    ensures ev.Input? && AcceptsInput(row) ==> t == Transition(None, NoCall, row.(buffer := ev.value))
    ensures ev == KeyDown("Escape") && AcceptsInput(row) ==>
      t == Transition(None, NoCall, row.(editing := false, buffer := task.title))
    ensures ev.KeyDown? && ev.key != "Enter" && ev.key != "Escape" ==> t == Transition(None, NoCall, row)
    ensures !row.editing && !ev.DoubleClickTitle? && !ev.ClickEdit? ==> t == Transition(None, NoCall, row)
    ensures row.editing && row.loading ==> t == Transition(None, NoCall, row)
    ensures t.effect.CallUpdate? ==> AcceptsInput(row) && (ev.Blur? || ev == KeyDown("Enter"))
  {
    match ev
    case DoubleClickTitle | ClickEdit =>
      if ShowsEditButton(row) then Idle(row.(editing := true)) else Idle(row)
    case Input(value) =>
      if AcceptsInput(row) then Idle(row.(buffer := value)) else Idle(row)
    case Blur =>
      if AcceptsInput(row) then HandleUpdate(row, task, succeeded) else Idle(row)
    case KeyDown(key) =>
      if !AcceptsInput(row) then Idle(row)
      else if key == "Enter" then HandleUpdate(row, task, succeeded)
      else if key == "Escape" then Idle(row.(editing := false, buffer := task.title))
      else Idle(row)
  }

  /** The row is `loading` exactly while a call is awaited: a settled row stays settled after
      every event, and a row that makes a call is loading while it waits. */
  lemma LoadingOnlyWhileAwaiting(row: Row, task: Task, ev: Event, succeeded: bool)
    requires !row.loading
    ensures !Handle(row, task, ev, succeeded).after.loading
    ensures Handle(row, task, ev, succeeded).pending.Some? <==> Handle(row, task, ev, succeeded).effect.CallUpdate?
    ensures Handle(row, task, ev, succeeded).pending.Some? ==> Handle(row, task, ev, succeeded).pending.value.loading
  {
  }

  /** While its update call is awaited, the row's disabled input ignores every event:
      no typing, key press, focus change or edit trigger changes it or makes a call. */
  lemma AwaitingRowIgnoresEvents(row: Row, task: Task, succeeded: bool, ev: Event, later: bool)
    requires AcceptsInput(row)
    ensures var pending := HandleUpdate(row, task, succeeded).pending;
      pending.Some? ==> Handle(pending.value, task, ev, later) == Transition(None, NoCall, pending.value)
  {
  }

  /** Starting an edit on a freshly mounted row, by either trigger, and pressing Escape
      makes no call and returns the row to its mounted state, whatever was typed between. */
  lemma EditThenEscapeRestoresMount(task: Task, start: Event, typed: string)
    requires start.DoubleClickTitle? || start.ClickEdit?
    ensures var editing := Handle(Mount(task), task, start, true).after;
      var changed := Handle(editing, task, Input(typed), true).after;
      var t := Handle(changed, task, KeyDown("Escape"), true);
      t.effect == NoCall && t.after == Mount(task)
  {
  }

  /** Enter confirms the edit exactly as leaving the field does. */
  lemma EnterActsAsBlur(row: Row, task: Task, succeeded: bool)
    ensures Handle(row, task, KeyDown("Enter"), succeeded) == Handle(row, task, Blur, succeeded)
  {
  }

  /** A title the row sends is never blank and never starts or ends with whitespace. */
  lemma SentTitleIsTrimmed(row: Row, task: Task, ev: Event, succeeded: bool)
    ensures var e := Handle(row, task, ev, succeeded).effect;
      e.CallUpdate? ==> e.title != [] && !IsWhitespace(e.title[0]) && !IsWhitespace(e.title[|e.title| - 1])
  {
  }
}
