/** Task groups and the tasks inside them: a group request that carries task requests, over every run. */
module GroupTasks {
  import opened Prelude
  import opened Items
  import opened Placement
  import opened BulkRuns
  import opened Tasks

  /** A group's own tasks; deleting the group deletes them. */
  datatype TaskGroup = TaskGroup(tasks: State<Task>)

  datatype GroupUpdateReq = GroupUpdateReq(id: ID, orderIdx: int, tasks: Option<TasksBulkReq>)
  datatype GroupCreateReq = GroupCreateReq(orderIdx: int, tasks: seq<TaskCreateReq>)
  datatype GroupsBulkReq = GroupsBulkReq(create: seq<GroupCreateReq>, update: seq<GroupUpdateReq>, delete: seq<ID>)

  const NO_TASKS: State<Task> := State(map[], 0)

  ghost function ServedTasks(st: State<Task>, req: Option<TasksBulkReq>): State<Task> {
    if req.Some? then Next(st, AsBulk(req.value)) else st
  }

  /** The task request, if there is one, is accepted; otherwise the whole group request is rolled back. */
  ghost predicate TasksAccepted(st: State<Task>, req: Option<TasksBulkReq>) {
    req.Some? ==> Accepts(st.rows, st.nextId, AsBulk(req.value))
  }

  function OnlyCreate(tasks: seq<TaskCreateReq>): Option<TasksBulkReq> {
    Some(TasksBulkReq(tasks, [], []))
  }

  /** The group request as the bulk updater serves it, with the task request of every group nested in it. */
  ghost function AsGroupBulk(req: GroupsBulkReq): BulkReq<TaskGroup> {
    BulkReq(
      seq(|req.create|, i requires 0 <= i < |req.create| => AsGroupCreate(req.create[i])),
      seq(|req.update|, i requires 0 <= i < |req.update| => AsGroupUpdate(req.update[i])),
      req.delete)
  }

  ghost function AsGroupCreate(c: GroupCreateReq): CreateReq<TaskGroup> {
    CreateReq(c.orderIdx, TaskGroup(ServedTasks(NO_TASKS, OnlyCreate(c.tasks))),
              TasksAccepted(NO_TASKS, OnlyCreate(c.tasks)))
  }

  ghost function AsGroupUpdate(u: GroupUpdateReq): UpdateReq<TaskGroup> {
    UpdateReq(u.id, u.orderIdx, (g: TaskGroup) => TaskGroup(ServedTasks(g.tasks, u.tasks)),
              (g: TaskGroup) => TasksAccepted(g.tasks, u.tasks))
  }

  /** The update names a group that remains, and its task request is accepted over the tasks the group has. */
  ghost predicate GroupUpdatePasses(rows: Rows<TaskGroup>, deleted: seq<ID>, u: GroupUpdateReq) {
    && u.id in rows && u.id !in deleted
    && match u.tasks
       case Some(tasks) => Accepts(rows[u.id].body.tasks.rows, rows[u.id].body.tasks.nextId, AsBulk(tasks))
       case None => true
  }

  lemma GroupUpdatePassesIff(rows: Rows<TaskGroup>, req: GroupsBulkReq, i: nat)
    requires i < |req.update|
    ensures var u := AsGroupBulk(req).update[i];
            (u.id in rows && u.id !in req.delete && u.valid(rows[u.id].body)) <==>
            GroupUpdatePasses(rows, req.delete, req.update[i])
  {
    assert AsGroupBulk(req).update[i] == AsGroupUpdate(req.update[i]);
  }

  /** The checks of a group request pass exactly when those of its updates do, and the tasks of every group it
      creates are accepted over no tasks. */
  lemma GroupChecksPassIff(rows: Rows<TaskGroup>, req: GroupsBulkReq)
    ensures UpdatesPass(rows, AsGroupBulk(req)) <==>
            forall i | 0 <= i < |req.update| :: GroupUpdatePasses(rows, req.delete, req.update[i])
    ensures CreatesValid(AsGroupBulk(req).create) <==>
            forall i | 0 <= i < |req.create| :: Accepts(map[], 0, AsBulk(TasksBulkReq(req.create[i].tasks, [], [])))
  {
    var bulk := AsGroupBulk(req);
    if UpdatesPass(rows, bulk) {
      forall i | 0 <= i < |req.update| ensures GroupUpdatePasses(rows, req.delete, req.update[i]) {
        GroupUpdatePassesIff(rows, req, i);
      }
    }
    if forall i | 0 <= i < |req.update| :: GroupUpdatePasses(rows, req.delete, req.update[i]) {
      forall i | 0 <= i < |bulk.update|
        ensures var u := bulk.update[i]; u.id in rows && u.id !in bulk.delete && u.valid(rows[u.id].body)
      {
        GroupUpdatePassesIff(rows, req, i);
      }
    }
    forall i | 0 <= i < |req.create|
      ensures bulk.create[i].valid <==> Accepts(map[], 0, AsBulk(TasksBulkReq(req.create[i].tasks, [], [])))
    {
      assert bulk.create[i] == AsGroupCreate(req.create[i]);
    }
  }

  /** The group's tasks after its part of a request are those the task request leaves of its own. */
  ghost predicate IsServed(before: State<Task>, after: State<Task>, tasks: Option<TasksBulkReq>) {
    after == match tasks case Some(req) => Next(before, AsBulk(req)) case None => before
  }

  /** The group holds what serving the creates leaves of no tasks. */
  ghost predicate IsFilled(rows: Rows<TaskGroup>, id: ID, tasks: seq<TaskCreateReq>) {
    id in rows && IsServed(State(map[], 0), rows[id].body.tasks, Some(TasksBulkReq(tasks, [], [])))
  }

  /** Every named group has its task request served on its own tasks, every created one its creates on no tasks, and
      the other groups are as they were. */
  ghost predicate GroupsServed(rows: Rows<TaskGroup>, final: Rows<TaskGroup>, nextId: nat, req: GroupsBulkReq) {
    && (forall i | 0 <= i < |req.update| ::
          var u := req.update[i];
          u.id in rows && u.id in final && IsServed(rows[u.id].body.tasks, final[u.id].body.tasks, u.tasks))
    && (forall i | 0 <= i < |req.create| :: IsFilled(final, nextId + i, req.create[i].tasks))
    && (forall id | id in rows && id in final && (forall i | 0 <= i < |req.update| :: req.update[i].id != id) ::
          final[id].body == rows[id].body)
  }

  /** An accepted group request serves the task request of every group it names on that group's own tasks, fills
      every group it creates from no tasks, and leaves the tasks of the other groups. */
  lemma GroupRequestServesTasks(st: State<TaskGroup>, req: GroupsBulkReq)
    requires Keyed(st.rows, st.nextId) && NamesOnce(AsGroupBulk(req)) && Accepts(st.rows, st.nextId, AsGroupBulk(req))
    ensures GroupsServed(st.rows, Next(st, AsGroupBulk(req)).rows, st.nextId, req)
  {
    var bulk := AsGroupBulk(req);
    BodiesAreStored(st.rows, st.nextId, bulk);
    StoredGroupsAreServed(st.rows, Bulk(st.rows, st.nextId, bulk), st.nextId, req);
  }

  lemma StoredGroupsAreServed(rows: Rows<TaskGroup>, final: Rows<TaskGroup>, nextId: nat, req: GroupsBulkReq)
    requires BodiesStored(rows, final, nextId, AsGroupBulk(req))
    ensures GroupsServed(rows, final, nextId, req)
  {
    var bulk := AsGroupBulk(req);
    forall i | 0 <= i < |req.update|
      ensures var u := req.update[i];
              u.id in rows && u.id in final && IsServed(rows[u.id].body.tasks, final[u.id].body.tasks, u.tasks)
    {
      assert bulk.update[i] == AsGroupUpdate(req.update[i]);
    }
    forall i | 0 <= i < |req.create| ensures IsFilled(final, nextId + i, req.create[i].tasks) {
      assert bulk.create[i] == AsGroupCreate(req.create[i]);
    }
    assert forall i | 0 <= i < |bulk.update| :: bulk.update[i].id == req.update[i].id;
  }

  /** The places a group request wants its groups at. */
  lemma GroupTargets(st: State<TaskGroup>, req: GroupsBulkReq, id: ID)
    requires Keyed(st.rows, st.nextId) && NamesOnce(AsGroupBulk(req))
    requires Remains(st.rows, st.nextId, AsGroupBulk(req), id)
    ensures var target := Target(st.rows, st.nextId, AsGroupBulk(req), id);
            && (forall i | 0 <= i < |req.create| && id == st.nextId + i :: target == req.create[i].orderIdx)
            && (forall i | 0 <= i < |req.update| && id in st.rows && id == req.update[i].id ::
                  target == req.update[i].orderIdx)
            && (id in st.rows && (forall i | 0 <= i < |req.update| :: req.update[i].id != id) ==>
                  target == st.rows[id].orderIdx)
  {
    var bulk := AsGroupBulk(req);
    TargetIs(st.rows, st.nextId, bulk, id);
    assert forall i | 0 <= i < |bulk.update| :: bulk.update[i] == AsGroupUpdate(req.update[i]);
    assert forall i | 0 <= i < |bulk.create| :: bulk.create[i] == AsGroupCreate(req.create[i]);
  }

  /** The group's tasks are dense and their penalties within the rewards. */
  ghost predicate Tidy(g: TaskGroup) {
    Sound(g.tasks) && AllFit(g.tasks.rows)
  }

  /** A task request, if there is one, names each task and place once and keeps fitting tasks fitting. */
  ghost predicate TidyReq(req: Option<TasksBulkReq>) {
    req.Some? ==> NamesOnce(AsBulk(req.value)) && Careful(req.value)
  }

  ghost predicate TidyGroupsReq(req: GroupsBulkReq) {
    && NamesOnce(AsGroupBulk(req))
    && (forall i | 0 <= i < |req.update| :: TidyReq(req.update[i].tasks))
    && (forall i | 0 <= i < |req.create| :: TidyReq(OnlyCreate(req.create[i].tasks)))
  }

  lemma ServedIsTidy(g: TaskGroup, req: Option<TasksBulkReq>)
    requires Tidy(g) && TidyReq(req)
    ensures Tidy(TaskGroup(ServedTasks(g.tasks, req)))
  {
    if req.Some? {
      NextIsSound(g.tasks, AsBulk(req.value));
      CarefulBulkKeepsFitting(g.tasks.rows, g.tasks.nextId, req.value);
    }
  }

  /** The groups are dense, and so are the tasks of every group, whose penalties stay within the rewards. */
  ghost predicate AllTidy(st: State<TaskGroup>) {
    Sound(st) && forall id | id in st.rows :: Tidy(st.rows[id].body)
  }

  lemma GroupRequestKeepsTidy(st: State<TaskGroup>, req: GroupsBulkReq)
    requires AllTidy(st) && TidyGroupsReq(req)
    ensures AllTidy(Next(st, AsGroupBulk(req)))
  {
    var bulk := AsGroupBulk(req);
    NextIsSound(st, bulk);
    forall i, g: TaskGroup | 0 <= i < |bulk.update| && Tidy(g) && bulk.update[i].valid(g)
      ensures Tidy(bulk.update[i].edit(g))
    {
      ServedIsTidy(g, req.update[i].tasks);
    }
    forall i | 0 <= i < |bulk.create| ensures Tidy(bulk.create[i].body) {
      ServedIsTidy(TaskGroup(NO_TASKS), OnlyCreate(req.create[i].tasks));
    }
    BulkKeepsAll(st.rows, st.nextId, bulk, Tidy);
  }

  ghost function ServeGroups(st: State<TaskGroup>, reqs: seq<GroupsBulkReq>): State<TaskGroup>
    decreases |reqs|
  {
    if reqs == [] then st else ServeGroups(Next(st, AsGroupBulk(reqs[0])), reqs[1..])
  }

  /** From an empty quest, over every run of group requests that carry such task requests: the groups are dense,
      the tasks of every group are dense, and every task's penalties are within its reward. */
  lemma {:induction false} EveryRunIsTidy(st: State<TaskGroup>, reqs: seq<GroupsBulkReq>)
    requires AllTidy(st) && forall i | 0 <= i < |reqs| :: TidyGroupsReq(reqs[i])
    ensures AllTidy(ServeGroups(st, reqs))
    decreases |reqs|
  {
    if reqs != [] {
      GroupRequestKeepsTidy(st, reqs[0]);
      EveryRunIsTidy(Next(st, AsGroupBulk(reqs[0])), reqs[1..]);
    }
  }

  /** One rejected task request rejects the group request, and with it every change to every group. */
  lemma OneRefusalRefusesAll(st: State<TaskGroup>, req: GroupsBulkReq, i: nat)
    requires Keyed(st.rows, st.nextId) && i < |req.update| && req.update[i].id in st.rows
    requires forall j | 0 <= j < i :: req.update[j].id != req.update[i].id
    requires !TasksAccepted(st.rows[req.update[i].id].body.tasks, req.update[i].tasks)
    ensures Next(st, AsGroupBulk(req)) == st
  {
    var bulk := AsGroupBulk(req);
    assert bulk.update[i] == AsGroupUpdate(req.update[i]);
    if Accepts(st.rows, st.nextId, bulk) {
      FirstUpdateIsChecked(st, bulk, i);
    }
  }

  /** The checks of an item's first update run on the item as stored. */
  lemma FirstUpdateIsChecked<T>(st: State<T>, bulk: BulkReq<T>, i: nat)
    requires Keyed(st.rows, st.nextId) && Accepts(st.rows, st.nextId, bulk) && i < |bulk.update|
    requires forall j | 0 <= j < i :: bulk.update[j].id != bulk.update[i].id
    ensures bulk.update[i].id in st.rows && bulk.update[i].valid(st.rows[bulk.update[i].id].body)
  {
    var survivors, u := Survivors(st.rows, bulk.delete), bulk.update[i];
    assert u.id in survivors && UpdateValid(survivors, bulk.update, i);
    UpdatedKeepsId(survivors[u.id], bulk.update[..i]);
  }
}
