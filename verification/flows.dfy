/**
  End-to-end flows: what the browser sends, what the task controller does with it, and what
  the browser shows afterwards.
 */
module Flows {
  import opened Options
  import opened Tasks
  import opened Text
  import TaskStore
  import TaskList
  import TaskRow
  import TaskForm

  /** Toggling a row sends the flipped flag; the server flips exactly that flag and the page
      puts the returned record in place of the row. */
  lemma ToggleRoundTrip(store: TaskStore.Store, owner: ObjectId, t: Task, shown: seq<Task>)
    requires TaskStore.UniqueIds(store)
    requires t in store && t.owner == owner
    ensures var server := TaskStore.UpdateTask(store, owner, t.id, TaskList.TogglePatch(t));
      && server.reply.status == 200
      && server.reply.body == TaskStore.One(t.(completed := !t.completed))
      && var after := TaskList.ToggleTask(shown, t, TaskList.Ok(server.reply.body.task)).tasks;
         forall i :: 0 <= i < |shown| && shown[i].id == t.id ==> after[i] == t.(completed := !t.completed)
  {
  }

  /** Toggling a task twice through the server, each time from the record it last returned,
      restores the record and leaves the store as it was. */
  lemma ToggleTwiceRestores(store: TaskStore.Store, owner: ObjectId, t: Task)
    requires TaskStore.UniqueIds(store)
    requires t in store && t.owner == owner
    ensures var s1 := TaskStore.UpdateTask(store, owner, t.id, TaskList.TogglePatch(t));
      var s2 := TaskStore.UpdateTask(s1.store, owner, t.id, TaskList.TogglePatch(s1.reply.body.task));
      && s2.reply == TaskStore.Reply(200, TaskStore.One(t))
      && s2.store == store
  {
  }

  /** An edit confirmed in a row reaches the store as the trimmed, non-blank buffer and
      changes nothing but the title; the page then shows the returned record in the
      task's place. */
  lemma RowEditReachesStore(row: TaskRow.Row, task: Task, ev: TaskRow.Event, store: TaskStore.Store, shown: seq<Task>)
    requires TaskStore.UniqueIds(store)
    requires task in store
    ensures var e := TaskRow.Handle(row, task, ev, true).effect;
      e.CallUpdate? ==>
        var patch := Patch(Present(e.title), None);
        var server := TaskStore.UpdateTask(store, task.owner, e.id, patch);
        var page := TaskList.UpdateTask(shown, e.id, e.title, TaskList.Ok(server.reply.body.task));
        && page.request == Some(TaskList.Put(task.id, patch))
        && server.reply.status == 200
        && server.reply.body.task == task.(title := Trim(row.buffer))
        && !AllWhitespace(server.reply.body.task.title)
        && |page.tasks| == |shown|
        && forall i :: 0 <= i < |shown| && shown[i].id == task.id ==>
             page.tasks[i] == task.(title := Trim(row.buffer))
  {
  }

  /** The server stores a title from the form exactly as typed: it is never blank, but it
      keeps any surrounding whitespace. */
  lemma FormTitleStoredAsTyped(field: string, store: TaskStore.Store, owner: ObjectId, stamp: TaskStore.Stamp)
    requires !AllWhitespace(field)
    ensures var title := TaskForm.Submit(field).added.value;
      var r := TaskStore.CreateTask(store, owner, title, stamp);
      r.store[|store|].title == field && r.reply.status == 201
  {
  }

  /** Loading the page with the list the server returns shows exactly the user's tasks,
      newest first, and does not log out. */
  lemma FetchShowsOwnTasks(store: TaskStore.Store, owner: ObjectId)
    ensures var page := TaskList.FetchTasks(TaskList.Ok(TaskList.TaskArray(TaskStore.GetTasks(store, owner).body.tasks)));
      && !page.logout && !page.loading
      && (forall t :: t in page.tasks <==> t in store && t.owner == owner)
      && TaskStore.NewestFirst(page.tasks)
  {
  }

  /** Create a task, toggle it, delete it: the new task heads the owner's list, the toggled
      record is listed with its flag flipped, and after the delete no task with its id is
      listed. */
  lemma CreateToggleDelete(store: TaskStore.Store, owner: ObjectId, title: string, stamp: TaskStore.Stamp)
    requires TaskStore.UniqueIds(store)
    requires forall t :: t in store ==> t.id != stamp.id
    requires forall t :: t in store && t.owner == owner ==> t.createdAt < stamp.createdAt
    ensures var s1 := TaskStore.CreateTask(store, owner, title, stamp);
      var created := s1.reply.body.task;
      var listed1 := TaskStore.GetTasks(s1.store, owner).body.tasks;
      var s2 := TaskStore.UpdateTask(s1.store, owner, created.id, TaskList.TogglePatch(created));
      var listed2 := TaskStore.GetTasks(s2.store, owner).body.tasks;
      var s3 := TaskStore.DeleteTask(s2.store, owner, created.id);
      var listed3 := TaskStore.GetTasks(s3.store, owner).body.tasks;
      && |listed1| > 0 && listed1[0] == created
      && created.(completed := !created.completed) in listed2
      && forall t :: t in listed3 ==> t.id != created.id
  {
  }
}
