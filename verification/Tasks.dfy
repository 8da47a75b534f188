/** The bulk updater on tasks: what the penalty check does and does not guarantee for the stored tasks. */
module Tasks {
  import opened Prelude
  import opened Penalties
  import opened Items
  import opened BulkRuns

  datatype Task = Task(reward: int, hints: seq<Penalty>)

  /** An update of a task: reward 0 keeps the stored one, and so do hints that are not resent. */
  datatype TaskUpdate = TaskUpdate(reward: int, hints: Option<seq<Penalty>>)

  function Edited(t: Task, u: TaskUpdate): Task {
    Task(if u.reward != 0 then u.reward else t.reward, if u.hints.Some? then u.hints.value else t.hints)
  }

  /** The check runs on the row the update returns, whose hints are empty unless they were resent. */
  predicate Accepted(t: Task, u: TaskUpdate) {
    Fits(Edited(t, u).reward, if u.hints.Some? then u.hints.value else [])
  }

  predicate TaskFits(t: Task) {
    Fits(t.reward, t.hints)
  }

  /** The stored pair can stop fitting: here a smaller reward under an unchanged hint. */
  lemma LoweredRewardEscapesTheCheck()
    ensures var t, u := Task(10, [Points(8)]), TaskUpdate(5, None);
            TaskFits(t) && Accepted(t, u) && !TaskFits(Edited(t, u))
  {
    OnePoint(8, 10);
    OnePoint(8, 5);
  }

  lemma OnePoint(points: int, reward: int)
    ensures Fits(reward, [Points(points)]) <==> points <= reward
  {
    assert [Points(points)][..0] == [];
    assert TotalPoints([Points(points)], reward) == TotalPoints([], reward) + points;
  }

  /** An update keeps every fitting task fitting exactly when it resends the hints or names no positive reward. */
  lemma UpdateIsSafeIff(u: TaskUpdate)
    ensures (forall t | TaskFits(t) && Accepted(t, u) :: TaskFits(Edited(t, u))) <==> u.hints.Some? || u.reward <= 0
  {
    if u.hints.None? && u.reward > 0 {
      var t := Task(u.reward + 1, [Points(u.reward + 1)]);
      OnePoint(u.reward + 1, u.reward + 1);
      OnePoint(u.reward + 1, u.reward);
      assert TaskFits(t) && Accepted(t, u) && !TaskFits(Edited(t, u));
    }
  }

  // ---------------------------------------------------------------- task requests

  datatype TaskUpdateReq = TaskUpdateReq(id: ID, orderIdx: int, change: TaskUpdate)
  datatype TaskCreateReq = TaskCreateReq(orderIdx: int, task: Task)
  datatype TasksBulkReq = TasksBulkReq(create: seq<TaskCreateReq>, update: seq<TaskUpdateReq>, delete: seq<ID>)

  /** The request as the bulk updater serves it, with the penalty check on every returned task. */
  function AsBulk(req: TasksBulkReq): BulkReq<Task> {
    BulkReq(
      seq(|req.create|, i requires 0 <= i < |req.create| =>
        CreateReq(req.create[i].orderIdx, req.create[i].task, TaskFits(req.create[i].task))),
      seq(|req.update|, i requires 0 <= i < |req.update| => AsUpdate(req.update[i])),
      req.delete)
  }

  function AsUpdate(u: TaskUpdateReq): UpdateReq<Task> {
    UpdateReq(u.id, u.orderIdx, (t: Task) => Edited(t, u.change), (t: Task) => Accepted(t, u.change))
  }

  // ---------------------------------------------------------------- what a task request does

  /** The reward an update leaves: 0 stands for the stored one. */
  function RewardAfter(t: Task, u: TaskUpdate): int {
    if u.reward == 0 then t.reward else u.reward
  }

  /** The update names a task that remains, and the hints it resends, if any, cost no more than the reward it
      leaves. */
  ghost predicate UpdatePasses(rows: Rows<Task>, deleted: seq<ID>, u: TaskUpdateReq) {
    && u.id in rows && u.id !in deleted
    && var reward := RewardAfter(rows[u.id].body, u.change);
       match u.change.hints
       case Some(hints) => TotalPoints(hints, reward) <= reward
       case None => 0 <= reward
  }

  lemma UpdatePassesIff(rows: Rows<Task>, req: TasksBulkReq, i: nat)
    requires i < |req.update|
    ensures var u := AsBulk(req).update[i];
            (u.id in rows && u.id !in req.delete && u.valid(rows[u.id].body)) <==>
            UpdatePasses(rows, req.delete, req.update[i])
  {
    assert AsBulk(req).update[i] == AsUpdate(req.update[i]);
  }

  /** The checks of a request pass exactly when those of its updates do, and every created task's hints cost no more
      than its reward. */
  lemma TaskChecksPassIff(rows: Rows<Task>, req: TasksBulkReq)
    ensures UpdatesPass(rows, AsBulk(req)) <==>
            forall i | 0 <= i < |req.update| :: UpdatePasses(rows, req.delete, req.update[i])
    ensures CreatesValid(AsBulk(req).create) <==>
            forall i | 0 <= i < |req.create| ::
              TotalPoints(req.create[i].task.hints, req.create[i].task.reward) <= req.create[i].task.reward
  {
    var bulk := AsBulk(req);
    if UpdatesPass(rows, bulk) {
      forall i | 0 <= i < |req.update| ensures UpdatePasses(rows, req.delete, req.update[i]) {
        UpdatePassesIff(rows, req, i);
      }
    }
    if forall i | 0 <= i < |req.update| :: UpdatePasses(rows, req.delete, req.update[i]) {
      forall i | 0 <= i < |bulk.update|
        ensures var u := bulk.update[i]; u.id in rows && u.id !in bulk.delete && u.valid(rows[u.id].body)
      {
        UpdatePassesIff(rows, req, i);
      }
    }
    forall i | 0 <= i < |req.create|
      ensures bulk.create[i].valid <==>
              TotalPoints(req.create[i].task.hints, req.create[i].task.reward) <= req.create[i].task.reward
    {
    }
  }

  /** What an update leaves of a task: what it names is replaced, the rest stays. */
  ghost predicate IsEdited(before: Task, after: Task, u: TaskUpdate) {
    && after.reward == RewardAfter(before, u)
    && after.hints == match u.hints case Some(hints) => hints case None => before.hints
  }

  /** An accepted request stores every task it updates as edited, every task it creates as given and every other as
      it was. */
  lemma TaskRequestStores(st: State<Task>, req: TasksBulkReq)
    requires Keyed(st.rows, st.nextId) && NamesOnce(AsBulk(req)) && Accepts(st.rows, st.nextId, AsBulk(req))
    ensures var rows := Next(st, AsBulk(req)).rows;
            && (forall i | 0 <= i < |req.update| ::
                  var u := req.update[i];
                  u.id in st.rows && u.id in rows && IsEdited(st.rows[u.id].body, rows[u.id].body, u.change))
            && (forall i | 0 <= i < |req.create| :: StoredAs(rows, st.nextId + i, req.create[i].task))
            && (forall id | id in st.rows && id in rows && (forall i | 0 <= i < |req.update| :: req.update[i].id != id)
                  :: rows[id].body == st.rows[id].body)
  {
    var bulk := AsBulk(req);
    var rows := Bulk(st.rows, st.nextId, bulk);
    BodiesAreStored(st.rows, st.nextId, bulk);
    forall i | 0 <= i < |req.update|
      ensures var u := req.update[i];
              u.id in st.rows && u.id in rows && IsEdited(st.rows[u.id].body, rows[u.id].body, u.change)
    {
      assert bulk.update[i] == AsUpdate(req.update[i]);
    }
    forall i | 0 <= i < |req.create| ensures StoredAs(rows, st.nextId + i, req.create[i].task) {
      assert bulk.create[i].body == req.create[i].task;
    }
    OthersKeepBodies(st.rows, rows, st.nextId, req);
  }

  lemma OthersKeepBodies(rows: Rows<Task>, final: Rows<Task>, nextId: nat, req: TasksBulkReq)
    requires BodiesStored(rows, final, nextId, AsBulk(req))
    ensures forall id | id in rows && id in final && (forall i | 0 <= i < |req.update| :: req.update[i].id != id) ::
              final[id].body == rows[id].body
  {
    var bulk := AsBulk(req);
    assert forall i | 0 <= i < |bulk.update| :: bulk.update[i].id == req.update[i].id;
  }

  /** The places a request wants its tasks at: those it names, and otherwise the stored ones. */
  lemma TaskTargets(st: State<Task>, req: TasksBulkReq, id: ID)
    requires Keyed(st.rows, st.nextId) && NamesOnce(AsBulk(req)) && Remains(st.rows, st.nextId, AsBulk(req), id)
    ensures var target := Target(st.rows, st.nextId, AsBulk(req), id);
            && (forall i | 0 <= i < |req.create| && id == st.nextId + i :: target == req.create[i].orderIdx)
            && (forall i | 0 <= i < |req.update| && id == req.update[i].id && id in st.rows ::
                  target == req.update[i].orderIdx)
            && (id in st.rows && (forall i | 0 <= i < |req.update| :: req.update[i].id != id) ==>
                  target == st.rows[id].orderIdx)
  {
    var bulk := AsBulk(req);
    TargetIs(st.rows, st.nextId, bulk, id);
    assert forall i | 0 <= i < |bulk.update| :: bulk.update[i] == AsUpdate(req.update[i]);
    assert forall i | 0 <= i < |bulk.create| :: bulk.create[i].orderIdx == req.create[i].orderIdx;
  }

  // ---------------------------------------------------------------- every run of task requests

  /** Every update resends the hints or names no positive reward. */
  ghost predicate Careful(req: TasksBulkReq) {
    forall i | 0 <= i < |req.update| :: req.update[i].change.hints.Some? || req.update[i].change.reward <= 0
  }

  ghost predicate AllFit(rows: Rows<Task>) {
    forall id | id in rows :: TaskFits(rows[id].body)
  }

  lemma CarefulBulkKeepsFitting(rows: Rows<Task>, nextId: nat, req: TasksBulkReq)
    requires Keyed(rows, nextId) && AllFit(rows) && Careful(req)
    ensures AllFit(Bulk(rows, nextId, AsBulk(req)))
  {
    var bulk := AsBulk(req);
    forall i, t: Task | 0 <= i < |bulk.update| && TaskFits(t) && bulk.update[i].valid(t)
      ensures TaskFits(bulk.update[i].edit(t))
    {
      UpdateIsSafeIff(req.update[i].change);
    }
    BulkKeepsAll(rows, nextId, bulk, TaskFits);
  }

  ghost predicate CarefulRun(reqs: seq<TasksBulkReq>) {
    forall i | 0 <= i < |reqs| :: NamesOnce(AsBulk(reqs[i])) && Careful(reqs[i])
  }

  ghost function ServeTasks(st: State<Task>, reqs: seq<TasksBulkReq>): State<Task>
    decreases |reqs|
  {
    if reqs == [] then st else ServeTasks(Next(st, AsBulk(reqs[0])), reqs[1..])
  }

  /** Over every run of careful requests the stored tasks stay dense and their penalties within the reward. */
  lemma {:induction false} CarefulRunsKeepFitting(st: State<Task>, reqs: seq<TasksBulkReq>)
    requires Sound(st) && AllFit(st.rows) && CarefulRun(reqs)
    ensures Sound(ServeTasks(st, reqs)) && AllFit(ServeTasks(st, reqs).rows)
    decreases |reqs|
  {
    if reqs != [] {
      assert NamesOnce(AsBulk(reqs[0])) && Careful(reqs[0]);
      NextIsSound(st, AsBulk(reqs[0]));
      CarefulBulkKeepsFitting(st.rows, st.nextId, reqs[0]);
      CarefulRunsKeepFitting(Next(st, AsBulk(reqs[0])), reqs[1..]);
    }
  }
}
