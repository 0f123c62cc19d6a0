/**
  The server's task controller: list, create, update and delete over one collection of
  tasks, every lookup keyed on both the task id and the requesting user. The collection is
  a sequence in insertion order; the requester is the user the authentication layer resolved.
 */
module TaskStore {
  import opened Options
  import opened Tasks
  import opened Seqs

  type Store = seq<Task>

  datatype Body = One(task: Task) | Many(tasks: seq<Task>) | Message(text: string) | NoContent
  datatype Reply = Reply(status: int, body: Body)

  /** The collection after a request, and the response sent. */
  datatype Outcome = Outcome(store: Store, reply: Reply)

  /** What the store and the task schema fill in on creation: a fresh id, the creation
      time, and the schema's default for `completed`. */
  datatype Stamp = Stamp(id: ObjectId, createdAt: int, completed: bool)

  const NotFoundMessage := "Not found"

  /** The query `{ _id: id, user: owner }`. */
  predicate Owns(t: Task, owner: ObjectId, id: ObjectId) {
    t.id == id && t.owner == owner
  }

  /** The query `{ user: owner }`, as a selection predicate. */
  function OwnedBy(owner: ObjectId): Task -> bool {
    (t: Task) => t.owner == owner
  }

  /** The owner's tasks in collection order. */
  function TasksOf(store: Store, owner: ObjectId): seq<Task> {
    Filter(store, OwnedBy(owner))
  }

  /** The store's identity invariant: no two records share an id. */
  ghost predicate UniqueIds(store: Store) {
    forall i, j :: 0 <= i < j < |store| ==> store[i].id != store[j].id
  }

  /** Sort order `-createdAt`. */
  ghost predicate NewestFirst(s: seq<Task>) {
    forall i, j :: 0 <= i < j < |s| ==> s[i].createdAt >= s[j].createdAt
  }

  /** One insertion step of the sort: places `t` before the first record that is older. */
  function Insert(t: Task, s: seq<Task>): (r: seq<Task>)
    requires NewestFirst(s)
    ensures NewestFirst(r)
    ensures multiset(r) == multiset(s) + multiset{t}
    ensures |r| == |s| + 1 && (r[0] == t || (|s| > 0 && r[0] == s[0]))
  {
    if |s| == 0 then [t]
    else if s[0].createdAt <= t.createdAt then [t] + s
    else
      var rest := Insert(t, s[1..]);
      assert s == [s[0]] + s[1..];
      assert rest[0].createdAt <= s[0].createdAt;
      [s[0]] + rest
  }

  /** The order `sort('-createdAt')` produces. Records with equal creation times come out in
      some order the store chooses; this model fixes one. */
  function SortNewestFirst(s: seq<Task>): (r: seq<Task>)
    ensures NewestFirst(r)
    ensures multiset(r) == multiset(s)
  {
    if |s| == 0 then []
    else
      assert s == [s[0]] + s[1..];
      Insert(s[0], SortNewestFirst(s[1..]))
  }

  /** `getTasks`: every task of the requester and nothing else, newest first. */
  function GetTasks(store: Store, owner: ObjectId): (r: Reply)
    ensures r.status == 200 && r.body.Many?
    ensures forall t :: t in r.body.tasks <==> t in store && t.owner == owner
    ensures multiset(r.body.tasks) == multiset(TasksOf(store, owner))
    ensures NewestFirst(r.body.tasks)
  {
    var mine := TasksOf(store, owner);
    var sorted := SortNewestFirst(mine);
    assert forall t :: t in sorted <==> t in mine by {
      forall t ensures t in sorted <==> t in mine {
        assert t in sorted <==> t in multiset(sorted);
        assert t in mine <==> t in multiset(mine);
      }
    }
    Reply(200, Many(sorted))
  }

  /** `createTask`: appends one record owned by the requester, carrying the title exactly as
      given (no trimming, no blank check), and answers 201 with it. */
  function CreateTask(store: Store, owner: ObjectId, title: string, stamp: Stamp): (r: Outcome)
    ensures |r.store| == |store| + 1 && r.store[..|store|] == store
    ensures r.store[|store|] == Task(stamp.id, title, stamp.completed, owner, stamp.createdAt)
    ensures r.reply == Reply(201, One(r.store[|store|]))
  {
    var task := Task(stamp.id, title, stamp.completed, owner, stamp.createdAt);
    Outcome(store + [task], Reply(201, One(task)))
  }

  /** `findOne({ _id: id, user: owner })`: the position of the first matching record. */
  function FindOwned(store: Store, owner: ObjectId, id: ObjectId): (r: Option<nat>)
    ensures r.Some? ==> r.value < |store| && Owns(store[r.value], owner, id)
    ensures r.Some? ==> forall k :: 0 <= k < r.value ==> !Owns(store[k], owner, id)
    ensures r.None? <==> forall t :: t in store ==> !Owns(t, owner, id)
  {
    if |store| == 0 then None
    else if Owns(store[0], owner, id) then Some(0)
    else
      assert store == [store[0]] + store[1..];
      match FindOwned(store[1..], owner, id)
      case None => None
      case Some(k) => Some(k + 1)
  }

  /** `req.body.title ?? task.title`. */
  function Coalesce<T>(f: Field<T>, fallback: T): T {
    match f
    case Present(v) => v
    case _ => fallback
  }

  /** The partial update: the title changes only when a non-null title is given, `completed`
      only when it is present; id, owner and creation time never change. */
  function ApplyPatch(t: Task, p: Patch): (u: Task)
    ensures p.title.Present? ==> u.title == p.title.value
    ensures !p.title.Present? ==> u.title == t.title
    ensures p.completed.Some? ==> u.completed == p.completed.value
    ensures p.completed.None? ==> u.completed == t.completed
    ensures u.id == t.id && u.owner == t.owner && u.createdAt == t.createdAt
  {
    var title := Coalesce(p.title, t.title);
    var completed := if p.completed.Some? then p.completed.value else t.completed;
    t.(title := title, completed := completed)
  }

  /** `updateTask`: 404 and no change unless the requester owns a task with this id;
      otherwise the matched record, and no other, is patched and returned. */
  function UpdateTask(store: Store, owner: ObjectId, id: ObjectId, patch: Patch): (r: Outcome)
    ensures |r.store| == |store|
    ensures r.reply.status == 404 <==> forall t :: t in store ==> !Owns(t, owner, id)
    ensures r.reply.status == 404 ==> r == Outcome(store, Reply(404, Message(NotFoundMessage)))
    ensures r.reply.status != 404 ==>
      && r.reply.status == 200 && r.reply.body.One?
      && r.reply.body.task in r.store && Owns(r.reply.body.task, owner, id)
    ensures forall k :: 0 <= k < |store| && !Owns(store[k], owner, id) ==> r.store[k] == store[k]
  {
    match FindOwned(store, owner, id)
    case None => Outcome(store, Reply(404, Message(NotFoundMessage)))
    case Some(i) =>
      var u := ApplyPatch(store[i], patch);
      assert store[i := u][i] == u;
      Outcome(store[i := u], Reply(200, One(u)))
  }

  /** `findOneAndDelete({ _id: id, user: owner })` then 204, whether or not anything matched. */
  function DeleteTask(store: Store, owner: ObjectId, id: ObjectId): (r: Outcome)
    ensures r.reply == Reply(204, NoContent)
    ensures forall t :: t in r.store ==> t in store
    ensures forall t :: t in store && !Owns(t, owner, id) ==> t in r.store
    ensures |r.store| == |store| - (if FindOwned(store, owner, id).Some? then 1 else 0)
  {
    match FindOwned(store, owner, id)
    case None => Outcome(store, Reply(204, NoContent))
    case Some(i) =>
      assert store == store[..i] + [store[i]] + store[i + 1..];
      Outcome(store[..i] + store[i + 1..], Reply(204, NoContent))
  }

  /** The record a keyed lookup finds, if any. */
  function FoundTask(store: Store, owner: ObjectId, id: ObjectId): Option<Task> {
    match FindOwned(store, owner, id)
    case None => None
    case Some(i) => Some(store[i])
  }

  /** With ids unique, updating a task the requester owns answers with exactly that task
      patched, and the collection holds the patched record in place of the old one. */
  lemma UpdateAppliesPatch(store: Store, owner: ObjectId, t: Task, patch: Patch)
    requires UniqueIds(store)
    requires t in store && t.owner == owner
    ensures UpdateTask(store, owner, t.id, patch).reply == Reply(200, One(ApplyPatch(t, patch)))
    ensures multiset(UpdateTask(store, owner, t.id, patch).store)
      == multiset(store) - multiset{t} + multiset{ApplyPatch(t, patch)}
  {
  }

  /** With ids unique, after a delete no record matches the (id, requester) key. */
  lemma DeleteRemovesMatch(store: Store, owner: ObjectId, id: ObjectId)
    requires UniqueIds(store)
    ensures forall t :: t in DeleteTask(store, owner, id).store ==> !Owns(t, owner, id)
  {
  }

  /** Deleting twice leaves the collection as deleting once does. */
  lemma DeleteIdempotent(store: Store, owner: ObjectId, id: ObjectId)
    requires UniqueIds(store)
    ensures DeleteTask(DeleteTask(store, owner, id).store, owner, id) == DeleteTask(store, owner, id)
  {
  }

  /** Creation keeps ids unique when the store hands out a fresh id. */
  lemma CreatePreservesUniqueIds(store: Store, owner: ObjectId, title: string, stamp: Stamp)
    requires UniqueIds(store)
    requires forall t :: t in store ==> t.id != stamp.id
    ensures UniqueIds(CreateTask(store, owner, title, stamp).store)
  {
  }

  /** An update never changes an id, so ids stay unique. */
  lemma UpdatePreservesUniqueIds(store: Store, owner: ObjectId, id: ObjectId, patch: Patch)
    requires UniqueIds(store)
    ensures UniqueIds(UpdateTask(store, owner, id, patch).store)
  {
  }

  /** A delete only removes, so ids stay unique. */
  lemma DeletePreservesUniqueIds(store: Store, owner: ObjectId, id: ObjectId)
    requires UniqueIds(store)
    ensures UniqueIds(DeleteTask(store, owner, id).store)
  {
  }

  /** Isolation: create, update and delete issued by one user leave every other user's tasks
      exactly as they were, in the same order. */
  lemma {:induction false} WritesIsolateOwners(store: Store, a: ObjectId, b: ObjectId, id: ObjectId, patch: Patch, title: string, stamp: Stamp)
    requires a != b
    ensures TasksOf(CreateTask(store, b, title, stamp).store, a) == TasksOf(store, a)
    ensures TasksOf(UpdateTask(store, b, id, patch).store, a) == TasksOf(store, a)
    ensures TasksOf(DeleteTask(store, b, id).store, a) == TasksOf(store, a)
  {
    var task := Task(stamp.id, title, stamp.completed, b, stamp.createdAt);
    FilterAppend(store, [task], OwnedBy(a));
    assert Filter([task], OwnedBy(a)) == [] by {
      assert [task][1..] == [];
    }
    match FindOwned(store, b, id)
    case None =>
    case Some(i) =>
      FilterIgnoresUnselectedWrite(store, i, ApplyPatch(store[i], patch), OwnedBy(a));
      FilterIgnoresUnselectedRemoval(store, i, OwnedBy(a));
  }

  /** One step of the keyed lookup: the head if it matches, otherwise the lookup in the tail. */
  lemma FoundTaskStep(store: Store, owner: ObjectId, id: ObjectId)
    requires |store| > 0
    ensures FoundTask(store, owner, id)
         == if Owns(store[0], owner, id) then Some(store[0]) else FoundTask(store[1..], owner, id)
  {
  }

  /** A keyed lookup finds the same record whether it searches the whole collection or only
      the requester's tasks. */
  lemma {:induction false} FoundAmongOwnTasks(store: Store, owner: ObjectId, id: ObjectId)
    ensures FoundTask(store, owner, id) == FoundTask(TasksOf(store, owner), owner, id)
  {
    if |store| > 0 {
      var mine := TasksOf(store, owner);
      var rest := TasksOf(store[1..], owner);
      FoundAmongOwnTasks(store[1..], owner, id);
      FoundTaskStep(store, owner, id);
      if store[0].owner == owner {
        assert mine == [store[0]] + rest;
        assert mine[0] == store[0] && mine[1..] == rest;
        FoundTaskStep(mine, owner, id);
      } else {
        assert mine == rest;
      }
    }
  }

  /** Isolation of reads: what the requester is told by a list or an update depends only on
      the requester's own tasks. */
  lemma RepliesDependOnlyOnOwnTasks(s1: Store, s2: Store, owner: ObjectId, id: ObjectId, patch: Patch)
    requires TasksOf(s1, owner) == TasksOf(s2, owner)
    ensures GetTasks(s1, owner) == GetTasks(s2, owner)
    ensures UpdateTask(s1, owner, id, patch).reply == UpdateTask(s2, owner, id, patch).reply
  {
    FoundAmongOwnTasks(s1, owner, id);
    FoundAmongOwnTasks(s2, owner, id);
  }

  /** A task created later than all of the owner's existing tasks heads the owner's list. */
  lemma CreatedTaskListedFirst(store: Store, owner: ObjectId, title: string, stamp: Stamp)
    requires forall t :: t in store && t.owner == owner ==> t.createdAt < stamp.createdAt
    ensures var r := CreateTask(store, owner, title, stamp);
      var listed := GetTasks(r.store, owner).body.tasks;
      |listed| > 0 && listed[0] == r.store[|store|]
  {
  }
}
