/** Full replacement of a quest's task groups, built on the bulk update. */
module Replace {
  import opened Prelude
  import opened Items
  import opened Placement
  import opened Stages
  import opened BulkUpdater
  import opened BulkRuns

  /** Body `i`, to be created at index `i`. */
  ghost predicate InListOrder<T>(creates: seq<CreateReq<T>>) {
    forall i | 0 <= i < |creates| :: creates[i].orderIdx == i
  }

  lemma CreatedAreDense<T>(nextId: nat, creates: seq<CreateReq<T>>)
    requires InListOrder(creates)
    ensures Dense(AfterCreates(map[], nextId, creates)) && |AfterCreates(map[], nextId, creates)| == |creates|
  {
    AfterCreatesRows(map[], nextId, creates);
    CreatesSize(map[], nextId, creates);
  }

  /** Creating at 0, 1, ... into an empty quest is refused only by a failed check, and keeps the order. */
  lemma CreatingInOrder<T>(nextId: nat, creates: seq<CreateReq<T>>)
    requires InListOrder(creates)
    ensures var req := BulkReq(creates, [], []);
            && NamesOnce(req)
            && (Accepts(map[], nextId, req) <==> CreatesValid(creates))
            && (CreatesValid(creates) ==> Bulk(map[], nextId, req) == AfterCreates(map[], nextId, creates))
  {
    CreatedAreDense(nextId, creates);
    OnlyCreates(map[], nextId, creates);
  }

  lemma CreatedHoldInOrder<T>(nextId: nat, creates: seq<CreateReq<T>>, bodies: seq<CreateReq<T>>)
    requires |creates| == |bodies| && InListOrder(creates)
    requires forall i | 0 <= i < |bodies| :: creates[i].body == bodies[i].body
    ensures HoldsInOrder(AfterCreates(map[], nextId, creates), nextId, bodies)
  {
    AfterCreatesRows(map[], nextId, creates);
    CreatesSize(map[], nextId, creates);
  }

  method DeleteAll<T>(s: Store<T>)
    modifies s`rows
    ensures s.rows == map[]
  {
    var todo := s.rows.Keys;
    while todo != {}
      invariant s.rows.Keys == todo
    {
      var id := AnyOf(todo);
      s.Delete(id);
      todo := todo - {id};
    }
  }

  /** The items as creates, item `i` at index `i`. */
  method Numbered<T>(bodies: seq<CreateReq<T>>) returns (creates: seq<CreateReq<T>>)
    ensures |creates| == |bodies| && InListOrder(creates)
    ensures forall i | 0 <= i < |bodies| :: creates[i].body == bodies[i].body && creates[i].valid == bodies[i].valid
  {
    creates := [];
    for i := 0 to |bodies|
      invariant |creates| == i && InListOrder(creates)
      invariant forall j | 0 <= j < i :: creates[j].body == bodies[j].body && creates[j].valid == bodies[j].valid
    {
      creates := creates + [CreateReq(i, bodies[i].body, bodies[i].valid)];
    }
  }

  /** The stored rows are exactly the given items, in list order, under fresh identifiers. */
  ghost predicate HoldsInOrder<T>(rows: Rows<T>, nextId: nat, bodies: seq<CreateReq<T>>) {
    && |rows| == |bodies|
    && forall id | nextId <= id < nextId + |bodies| ::
         id in rows && rows[id] == Item(id, id - nextId, bodies[id - nextId].body)
  }

  /** Deletes everything stored, then creates the given items in list order. */
  method CreateAll<T>(s: Store<T>, u: Updater<T>, bodies: seq<CreateReq<T>>) returns (ok: bool)
    requires s.Valid() && u.s == s
    modifies s
    ensures s.Valid()
    ensures ok <==> CreatesValid(bodies)
    ensures if ok then HoldsInOrder(s.rows, old(s.nextId), bodies) else s.rows == old(s.rows)
  {
    var saved := s.rows;
    DeleteAll(s);
    var creates := Numbered(bodies);
    CreatingInOrder(s.nextId, creates);
    CreatedHoldInOrder(s.nextId, creates, bodies);
    assert CreatesValid(creates) <==> CreatesValid(bodies);
    var result := u.BulkUpdate(BulkReq(creates, [], []));
    ok := result.Some?;
    if !ok {
      s.rows := saved;
    }
  }
}
