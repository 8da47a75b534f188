/** A linear quest answered in order: the recorded groups come first over every run, so sharing never shows. */
module InOrder {
  import opened Prelude
  import opened LinearClock
  import opened Polling
  import opened Ledger

  /** The first timed group without a record. */
  ghost function FirstOpen(groups: seq<Group>, stored: Infos): Option<Group> {
    if groups == [] then None
    else if groups[0].sticky || groups[0].id in stored then FirstOpen(groups[1..], stored)
    else Some(groups[0])
  }

  /** Recording the first open group leaves the recorded groups in front. */
  lemma {:induction false} RecordingFirstOpen(groups: seq<Group>, stored: Infos, info: TeamInfo)
    requires DistinctGroups(groups) && RecordedFirst(groups, stored) && FirstOpen(groups, stored).Some?
    ensures RecordedFirst(groups, stored[FirstOpen(groups, stored).value.id := info])
    ensures FirstOpen(groups, stored).value in groups && !FirstOpen(groups, stored).value.sticky
    decreases |groups|
  {
    var g, rest := groups[0], groups[1..];
    assert g in groups && forall h | h in rest :: h in groups && h.id != g.id;
    if g.sticky || g.id in stored {
      RecordingFirstOpen(rest, stored, info);
    } else {
      NothingToShare(rest, stored[g.id := info], ZERO_TIME);
    }
  }

  /** If the request is an answer that records a group as closed, that group is the first open timed one. */
  ghost predicate AnswersFirstOpen(q: Quest, db: Store, r: Request) {
    r.TryAnswer? && r.user in q.members && Find(q.groups, r.task).Some? &&
    AfterAnswer(q, db, r.user, r.task, r.text, r.correct, r.now).0.records != db.records ==>
      FirstOpen(Clocks(q.groups), RecordsOf(db.records, q.members[r.user])) ==
      Some(Find(q.groups, r.task).value.group.clock)
  }

  /** Every team has the recorded groups in front. */
  ghost predicate AllRecordedFirst(q: Quest, db: Store) {
    forall team: TeamID :: RecordedFirst(Clocks(q.groups), RecordsOf(db.records, team))
  }

  lemma PlayPageKeepsOrder(q: Quest, db: Store, user: UserID, now: int)
    requires WellFormed(q) && Consistent(q, db) && AllRecordedFirst(q, db)
    ensures AllRecordedFirst(q, AfterPlayPage(q, db, user, now).0)
  {
    if user in q.members && q.linear {
      var team := q.members[user];
      var stored := RecordsOf(db.records, team);
      PollIsSchedule(Clocks(q.groups), stored, q.start, now);
      ScheduleKeepsRecordedFirst(Clocks(q.groups), stored, Shared(Clocks(q.groups), stored), q.start, now);
      var db' := AfterPlayPage(q, db, user, now).0;
      forall t: TeamID ensures RecordedFirst(Clocks(q.groups), RecordsOf(db'.records, t)) {
        assert t != team ==> RecordsOf(db'.records, t) == RecordsOf(db.records, t);
      }
    }
  }

  lemma AnswerKeepsOrder(q: Quest, db: Store, user: UserID, id: TaskID, text: string, correct: bool, now: int)
    requires WellFormed(q) && AllRecordedFirst(q, db)
    requires AnswersFirstOpen(q, db, TryAnswer(user, id, text, correct, now))
    ensures AllRecordedFirst(q, AfterAnswer(q, db, user, id, text, correct, now).0)
  {
    var db' := AfterAnswer(q, db, user, id, text, correct, now).0;
    if db'.records != db.records {
      var team := q.members[user];
      var stored := RecordsOf(db.records, team);
      var g := Find(q.groups, id).value.group.clock;
      RecordingFirstOpen(Clocks(q.groups), stored, RecordsOf(db'.records, team)[g.id]);
      forall t: TeamID ensures RecordedFirst(Clocks(q.groups), RecordsOf(db'.records, t)) {
        assert t != team ==> RecordsOf(db'.records, t) == RecordsOf(db.records, t);
      }
    }
  }

  lemma RequestKeepsOrder(q: Quest, db: Store, r: Request)
    requires WellFormed(q) && Consistent(q, db) && AllRecordedFirst(q, db) && AnswersFirstOpen(q, db, r)
    ensures AllRecordedFirst(q, After(q, db, r).0)
  {
    match r
    case PlayPage(user, now) => PlayPageKeepsOrder(q, db, user, now);
    case TryAnswer(user, id, text, correct, now) =>
      AnswerKeeps(q, db, user, id, text, correct, now);
      AnswerKeepsOrder(q, db, user, id, text, correct, now);
      PlayPageKeepsOrder(q, AfterAnswer(q, db, user, id, text, correct, now).0, user, now);
    case TakeHint(user, id, index, now) =>
      assert After(q, db, r).0.records == db.records;
    case AddPenalty(team, value) =>
  }

  ghost predicate RunsInOrder(q: Quest, requests: seq<Request>) {
    forall i | 0 <= i < |requests| :: AnswersFirstOpen(q, Serve(q, EMPTY, requests[..i]), requests[i])
  }

  lemma {:induction false} EveryRunInOrder(q: Quest, requests: seq<Request>)
    requires WellFormed(q) && RunsInOrder(q, requests)
    ensures AllRecordedFirst(q, Serve(q, EMPTY, requests))
  {
    if requests == [] {
      forall team: TeamID ensures RecordedFirst(Clocks(q.groups), RecordsOf(EMPTY.records, team)) {
        NothingToShare(Clocks(q.groups), map[], ZERO_TIME);
      }
    } else {
      var last := |requests| - 1;
      assert forall i | 0 <= i < last :: requests[..last][..i] == requests[..i];
      EveryRunInOrder(q, requests[..last]);
      EveryRunIsConsistent(q, requests[..last]);
      assert AnswersFirstOpen(q, Serve(q, EMPTY, requests[..last]), requests[last]);
      RequestKeepsOrder(q, Serve(q, EMPTY, requests[..last]), requests[last]);
    }
  }

  /** Over every run whose answers close only the first open timed group, every poll leaves the records that a
      linear quest means, and skipped polls do not show. */
  lemma InOrderNeverShows(q: Quest, requests: seq<Request>, team: TeamID, times: seq<int>)
    requires WellFormed(q) && RunsInOrder(q, requests) && times != [] && Nondecreasing(times)
    ensures var stored := RecordsOf(Serve(q, EMPTY, requests).records, team);
            var last := times[|times| - 1];
            && AllClosed(stored) && Schedule(Clocks(q.groups), stored, None, q.start, last).Play?
            && Polled(Clocks(q.groups), stored, q.start, times) ==
               Schedule(Clocks(q.groups), stored, None, q.start, last).stored
  {
    EveryRunInOrder(q, requests);
    EveryRunIsConsistent(q, requests);
    PollingIsPathIndependent(Clocks(q.groups), RecordsOf(Serve(q, EMPTY, requests).records, team), q.start, times);
  }
}
