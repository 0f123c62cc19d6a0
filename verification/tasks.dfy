/** The records the task API and the browser exchange. */
module Tasks {
  import opened Options

  /** Identifiers the document store generates; users and tasks are both keyed by one.
      Only equality is ever asked of them. */
  type ObjectId = string

  /** A stored task as its JSON view shows it: `_id`, `title`, `completed`, the owning
      user and the creation time the store's timestamps assign. */
  datatype Task = Task(id: ObjectId, title: string, completed: bool, owner: ObjectId, createdAt: int)

  /** A JSON body field as JavaScript reads it: absent, explicitly `null`, or a value. */
  datatype Field<T> = Undefined | Null | Present(value: T)

  /** The body of an update request: `title` as any JSON field, `completed` absent or a boolean. */
  datatype Patch = Patch(title: Field<string>, completed: Option<bool>)
}
