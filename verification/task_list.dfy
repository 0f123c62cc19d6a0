/**
  The home page's task list: the state transitions that follow each call to the task API,
  the status filter and the two counters. Each transition takes the outcome of its awaited
  call as an input; a rejected call throws before the list is set, so the list stays as it was.
 */
module TaskList {
  import opened Options
  import opened Tasks
  import opened Seqs

  /** The outcome of one awaited request: the response data, or a rejection that carries
      the HTTP status when a response arrived at all. */
  datatype Call<T> = Ok(data: T) | Rejected(status: Option<int>)

  /** The request the page sends. */
  datatype Request = Get | Post(title: string) | Put(id: ObjectId, patch: Patch) | Delete(id: ObjectId)

  /** The list after a user action, and the request it sent, if any. */
  datatype ListChange = ListChange(tasks: seq<Task>, request: Option<Request>)

  /** A GET response body: an array of tasks or some other JSON value. */
  datatype Payload = TaskArray(items: seq<Task>) | OtherJson

  /** The page state `fetchTasks` leaves behind, and whether it logged the user out. */
  datatype Fetched = Fetched(tasks: seq<Task>, loading: bool, logout: bool)

  const AllFilter := "all"
  const ActiveFilter := "active"
  const CompletedFilter := "completed"

  /** `fetchTasks`: an array response becomes the list, any other body or an error empties it;
      only a 401 response logs out; loading ends either way. */
  function FetchTasks(reply: Call<Payload>): (r: Fetched)
    ensures !r.loading
    ensures r.logout <==> reply == Rejected(Some(401))
    ensures reply.Ok? && reply.data.TaskArray? ==> r.tasks == reply.data.items
    ensures !(reply.Ok? && reply.data.TaskArray?) ==> r.tasks == []
  {
    match reply
    case Ok(TaskArray(items)) => Fetched(items, false, false)
    case Ok(OtherJson) => Fetched([], false, false)
    case Rejected(status) => Fetched([], false, status == Some(401))
  }

  /** `addTask`: the created record goes in front of the list. */
  function AddTask(tasks: seq<Task>, title: string, reply: Call<Task>): (r: ListChange)
    ensures r.request == Some(Post(title))
    ensures reply.Ok? ==> |r.tasks| == |tasks| + 1 && r.tasks[0] == reply.data && r.tasks[1..] == tasks
    ensures reply.Rejected? ==> r.tasks == tasks
  {
    match reply
    case Ok(data) => ListChange([data] + tasks, Some(Post(title)))
    case Rejected(_) => ListChange(tasks, Some(Post(title)))
  }

  /** `tasks.map(t => t._id === id ? data : t)`. */
  function ReplaceById(tasks: seq<Task>, id: ObjectId, data: Task): (r: seq<Task>)
    ensures |r| == |tasks|
    ensures forall i :: 0 <= i < |tasks| ==> r[i] == (if tasks[i].id == id then data else tasks[i])
  {
    if |tasks| == 0 then []
    else [if tasks[0].id == id then data else tasks[0]] + ReplaceById(tasks[1..], id, data)
  }

  /** The body `toggleTask` sends: the negation of the flag the row shows, and no title. */
  function TogglePatch(task: Task): (p: Patch)
    ensures p.title.Undefined? && p.completed == Some(!task.completed)
  {
    Patch(Undefined, Some(!task.completed))
  }

  /** `toggleTask`: the returned record replaces every entry with the task's id. */
  function ToggleTask(tasks: seq<Task>, task: Task, reply: Call<Task>): (r: ListChange)
    ensures r.request == Some(Put(task.id, TogglePatch(task)))
    ensures reply.Ok? ==> |r.tasks| == |tasks|
    ensures reply.Ok? ==> forall i :: 0 <= i < |tasks| ==>
      r.tasks[i] == (if tasks[i].id == task.id then reply.data else tasks[i])
    ensures reply.Rejected? ==> r.tasks == tasks
  {
    var request := Some(Put(task.id, TogglePatch(task)));
    match reply
    case Ok(data) => ListChange(ReplaceById(tasks, task.id, data), request)
    case Rejected(_) => ListChange(tasks, request)
  }

  /** `updateTask`: sends only the new title; the returned record replaces every entry with that id. */
  function UpdateTask(tasks: seq<Task>, id: ObjectId, title: string, reply: Call<Task>): (r: ListChange)
    ensures r.request == Some(Put(id, Patch(Present(title), None)))
    ensures reply.Ok? ==> |r.tasks| == |tasks|
    ensures reply.Ok? ==> forall i :: 0 <= i < |tasks| ==>
      r.tasks[i] == (if tasks[i].id == id then reply.data else tasks[i])
    ensures reply.Rejected? ==> r.tasks == tasks
  {
    var request := Some(Put(id, Patch(Present(title), None)));
    match reply
    case Ok(data) => ListChange(ReplaceById(tasks, id, data), request)
    case Rejected(_) => ListChange(tasks, request)
  }

  function IdIsNot(id: ObjectId): Task -> bool {
    (t: Task) => t.id != id
  }

  /** `tasks.filter(t => t._id !== id)`: drops exactly the entries with that id and keeps the
      order of the rest. */
  function RemoveById(tasks: seq<Task>, id: ObjectId): (r: seq<Task>)
    ensures SubsequenceOf(r, tasks)
    ensures forall t :: t in r <==> t in tasks && t.id != id
    ensures forall t :: multiset(r)[t] == if t.id != id then multiset(tasks)[t] else 0
  {
    FilterIsSubsequence(tasks, IdIsNot(id));
    Filter(tasks, IdIsNot(id))
  }

  /** `deleteTask`: nothing happens unless the user confirms; a confirmed delete that
      succeeds removes the task's entries. */
  function DeleteTask(tasks: seq<Task>, task: Task, confirmed: bool, reply: Call<()>): (r: ListChange)
    ensures !confirmed ==> r == ListChange(tasks, None)
    ensures confirmed ==> r.request == Some(Delete(task.id))
    ensures confirmed && reply.Ok? ==> SubsequenceOf(r.tasks, tasks)
    ensures confirmed && reply.Ok? ==> forall t :: t in r.tasks <==> t in tasks && t.id != task.id
    ensures confirmed && reply.Ok? ==> forall t ::
      multiset(r.tasks)[t] == if t.id != task.id then multiset(tasks)[t] else 0
    ensures confirmed && reply.Rejected? ==> r.tasks == tasks
  {
    if !confirmed then ListChange(tasks, None)
    else if reply.Ok? then ListChange(RemoveById(tasks, task.id), Some(Delete(task.id)))
    else ListChange(tasks, Some(Delete(task.id)))
  }

  /** The selection the status filter applies. */
  function KeepFor(filter: string): Task -> bool {
    (t: Task) => if filter == ActiveFilter then !t.completed
                 else if filter == CompletedFilter then t.completed
                 else true
  }

  /** `filteredTasks`: "active" keeps exactly the open tasks, "completed" exactly the done
      ones, both in list order; any other value shows the whole list. */
  function FilteredTasks(tasks: seq<Task>, filter: string): (r: seq<Task>)
    ensures SubsequenceOf(r, tasks)
    ensures filter == ActiveFilter ==> forall t :: t in r <==> t in tasks && !t.completed
    ensures filter == CompletedFilter ==> forall t :: t in r <==> t in tasks && t.completed
    ensures filter == ActiveFilter ==> forall t ::
      multiset(r)[t] == if !t.completed then multiset(tasks)[t] else 0
    ensures filter == CompletedFilter ==> forall t ::
      multiset(r)[t] == if t.completed then multiset(tasks)[t] else 0
    ensures filter != ActiveFilter && filter != CompletedFilter ==> r == tasks
  {
    FilterIsSubsequence(tasks, KeepFor(filter));
    if filter != ActiveFilter && filter != CompletedFilter then
      FilterKeepsAll(tasks, KeepFor(filter));
      Filter(tasks, KeepFor(filter))
    else
      Filter(tasks, KeepFor(filter))
  }

  function IsCompleted(t: Task): bool {
    t.completed
  }

  /** `completedCount`: as many as the "completed" filter shows. */
  function CompletedCount(tasks: seq<Task>): (n: nat)
    ensures n <= |tasks|
    ensures n == |FilteredTasks(tasks, CompletedFilter)|
  {
    FilterExtensional(tasks, IsCompleted, KeepFor(CompletedFilter));
    |Filter(tasks, IsCompleted)|
  }

  /** `activeCount = tasks.length - completedCount`: as many as the "active" filter shows,
      so the two counters partition the list. */
  function ActiveCount(tasks: seq<Task>): (n: nat)
    ensures n == |FilteredTasks(tasks, ActiveFilter)|
    ensures n + CompletedCount(tasks) == |tasks|
  {
    FilterPartition(tasks, KeepFor(CompletedFilter), KeepFor(ActiveFilter));
    |tasks| - CompletedCount(tasks)
  }

  /** Deleting a freshly added task gives back the list as it was before the add. */
  lemma AddThenDeleteRestores(tasks: seq<Task>, title: string, data: Task)
    requires forall t :: t in tasks ==> t.id != data.id
    ensures DeleteTask(AddTask(tasks, title, Ok(data)).tasks, data, true, Ok(())).tasks == tasks
  {
    FilterAppend([data], tasks, IdIsNot(data.id));
    assert Filter([data], IdIsNot(data.id)) == [] by {
      assert [data][1..] == [];
    }
    FilterKeepsAll(tasks, IdIsNot(data.id));
  }
}
