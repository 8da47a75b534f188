/** The clock of a linear quest: which groups a team sees, and when each opens and closes. */
module LinearClock {
  import opened Prelude

  type GroupID = nat

  datatype Group = Group(id: GroupID, sticky: bool, hasTimeLimit: bool, timeLimit: Option<int>) {
    predicate Limited() {
      hasTimeLimit && timeLimit.Some?
    }
  }

  datatype TeamInfo = TeamInfo(opening: int, closing: Option<int>)

  /** The stored records of one team. */
  type Infos = map<GroupID, TeamInfo>

  function Lookup(infos: Infos, id: GroupID): Option<TeamInfo> {
    if id in infos then Some(infos[id]) else None
  }

  // ---------------------------------------------------------------- reading the stored records

  /** The time a time variable holds before anything is read into it, or when a null is. */
  const ZERO_TIME := 0

  function TimeOf(t: Option<int>): int {
    if t.Some? then t.value else ZERO_TIME
  }

  ghost predicate IsListed(groups: seq<Group>, id: GroupID) {
    exists g :: g in groups && g.id == id
  }

  /** What the variable that all closing times are read into holds at the end: the last row's. */
  ghost function LastRow(groups: seq<Group>, stored: Infos, sofar: int): int {
    if groups == [] then sofar
    else LastRow(groups[1..], stored, if groups[0].id in stored then TimeOf(stored[groups[0].id].closing) else sofar)
  }

  /** The records as read: every closing time points at the one variable. */
  ghost function Read(groups: seq<Group>, stored: Infos): Infos {
    map id | id in stored && IsListed(groups, id) ::
      TeamInfo(stored[id].opening,
               if stored[id].closing.Some? then Some(LastRow(groups, stored, ZERO_TIME)) else None)
  }

  /** A time variable, whose address can be taken. */
  class Time {
    var value: int

    constructor ()
      ensures value == ZERO_TIME
    {
      value := ZERO_TIME;
    }
  }

  datatype Scanned = Scanned(opening: int, closing: Time?)

  method ReadRecords(groups: seq<Group>, stored: Infos) returns (infos: Infos)
    ensures infos == Read(groups, stored)
  {
    var closingTime := new Time();
    var rows: map<GroupID, Scanned> := map[];
    for i := 0 to |groups|
      invariant closingTime.value == LastRow(groups[..i], stored, ZERO_TIME)
      invariant forall id :: id in rows <==> id in stored && IsListed(groups[..i], id)
      invariant forall id | id in rows ::
        rows[id] == Scanned(stored[id].opening, if stored[id].closing.Some? then closingTime else null)
    {
      var id := groups[i].id;
      assert groups[..i + 1] == groups[..i] + [groups[i]];
      LastRowAppend(groups[..i], groups[i], stored, ZERO_TIME);
      if id in stored {
        closingTime.value := TimeOf(stored[id].closing);
        rows := rows[id := Scanned(stored[id].opening, if stored[id].closing.Some? then closingTime else null)];
      }
    }
    assert groups[..|groups|] == groups;
    infos := map id | id in rows ::
      TeamInfo(rows[id].opening, if rows[id].closing == null then None else Some(rows[id].closing.value));
  }

  lemma {:induction false} LastRowAppend(groups: seq<Group>, g: Group, stored: Infos, sofar: int)
    ensures LastRow(groups + [g], stored, sofar) ==
            if g.id in stored then TimeOf(stored[g.id].closing) else LastRow(groups, stored, sofar)
    decreases |groups|
  {
    if groups != [] {
      assert (groups + [g])[1..] == groups[1..] + [g];
      LastRowAppend(groups[1..], g, stored,
                    if groups[0].id in stored then TimeOf(stored[groups[0].id].closing) else sofar);
    }
  }

  // ---------------------------------------------------------------- the scheduling loop

  /** What the scheduling loop produces for the groups still ahead of it. */
  ghost function Fill(groups: seq<Group>, read: Infos, start: int, prev: Option<int>, first: bool): Infos {
    if groups == [] then map[]
    else
      var g := groups[0];
      if g.sticky then Fill(groups[1..], read, start, prev, first)
      else
        var ti := Scheduled(g, read, start, prev, first);
        var rest := Fill(groups[1..], read, start, PrevAfter(g, read, prev), false);
        if ti.Some? then map[g.id := ti.value] + rest else rest
  }

  /** The record of one non-sticky group: as read, opened by its predecessor's close, or opened by the start. */
  ghost function Scheduled(g: Group, read: Infos, start: int, prev: Option<int>, first: bool): Option<TeamInfo> {
    if g.id in read then Some(read[g.id])
    else if prev.Some? then Some(TeamInfo(prev.value, None))
    else if first then Some(TeamInfo(start, None))
    else None
  }

  /** The closing time waiting for the next group without a record. */
  ghost function PrevAfter(g: Group, read: Infos, prev: Option<int>): Option<int> {
    if g.id !in read then None
    else if read[g.id].closing.Some? then read[g.id].closing
    else prev
  }

  method FillTeamInfos(groups: seq<Group>, stored: Infos, startTime: int) returns (infos: Infos)
    ensures infos == Fill(groups, Read(groups, stored), startTime, None, true)
  {
    var read := ReadRecords(groups, stored);
    infos := ScheduleGroups(groups, read, startTime);
  }

  /** The scheduling loop itself. */
  method ScheduleGroups(groups: seq<Group>, read: Infos, startTime: int) returns (infos: Infos)
    ensures infos == Fill(groups, read, startTime, None, true)
  {
    var prevClosingTime: Option<int> := None;
    var alreadySetStartTime, first := false, true;
    infos := map[];
    for i := 0 to |groups|
      invariant first ==> !alreadySetStartTime
      invariant infos + Fill(groups[i..], read, startTime, prevClosingTime, first) ==
                Fill(groups, read, startTime, None, true)
    {
      var tg := groups[i];
      assert groups[i..][0] == tg && groups[i..][1..] == groups[i + 1..];
      if tg.sticky {
        continue;
      }
      var ti := Lookup(read, tg.id);
      if ti.None? && prevClosingTime.Some? {
        ti := Some(TeamInfo(prevClosingTime.value, None));
        prevClosingTime := None;
      } else if ti.None? && !alreadySetStartTime && first {
        ti := Some(TeamInfo(startTime, None));
        alreadySetStartTime := true;
      }
      first := false;
      if ti.None? {
        continue;
      }
      if ti.value.closing.Some? {
        prevClosingTime := ti.value.closing;
      }
      ghost var rest := Fill(groups[i + 1..], read, startTime, prevClosingTime, false);
      assert infos + (map[tg.id := ti.value] + rest) == infos[tg.id := ti.value] + rest;
      infos := infos[tg.id := ti.value];
    }
  }

  // ---------------------------------------------------------------- the auto-close loop

  datatype Shown = Shown(group: Group, info: Option<TeamInfo>)

  /** The answer to one poll: the groups shown and the records it leaves, or a nil dereference. */
  datatype Play = Panic | Play(shown: seq<Shown>, stored: Infos)

  ghost function Before(prefix: seq<Shown>, play: Play): Play {
    if play.Panic? then Panic else Play(prefix + play.shown, play.stored)
  }

  /** What the auto-close loop does with the groups still ahead of it. */
  ghost function Answer(groups: seq<Group>, infos: Infos, stored: Infos, nextStart: Option<int>, now: int): Play {
    if groups == [] then Play([], stored)
    else
      var g, rest := groups[0], groups[1..];
      if g.sticky then Before([Shown(g, Lookup(infos, g.id))], Answer(rest, infos, stored, nextStart, now))
      else
        var use := Lookup(infos, g.id).None? && nextStart.Some?;
        var info := if use then Some(TeamInfo(nextStart.value, None)) else Lookup(infos, g.id);
        var next := if use then None else nextStart;
        if info.Some? && info.value.closing.Some? then Before([Shown(g, info)], Answer(rest, infos, stored, next, now))
        else if g.Limited() && info.None? then Panic
        else if g.Limited() && info.value.opening + g.timeLimit.value < now then
          var closed := TeamInfo(info.value.opening, Some(info.value.opening + g.timeLimit.value));
          Before([Shown(g, Some(closed))], Answer(rest, infos, stored[g.id := closed], closed.closing, now))
        else Play([Shown(g, info)], stored)
  }

  method FillAnswerData(groups: seq<Group>, infos: Infos, stored: Infos, now: int) returns (play: Play)
    ensures play == Answer(groups, infos, stored, None, now)
  {
    var shown: seq<Shown> := [];
    var records: Infos := stored;
    var nextStart: Option<int> := None;
    for i := 0 to |groups|
      invariant Answer(groups, infos, stored, None, now) ==
                Before(shown, Answer(groups[i..], infos, records, nextStart, now))
    {
      var tg := groups[i];
      assert groups[i..][0] == tg && groups[i..][1..] == groups[i + 1..];
      var info := Lookup(infos, tg.id);
      if tg.sticky {
        BeforeBefore(shown, [Shown(tg, info)], Answer(groups[i + 1..], infos, records, nextStart, now));
        shown := shown + [Shown(tg, info)];
        continue;
      }
      if info.None? && nextStart.Some? {
        info := Some(TeamInfo(nextStart.value, None));
        nextStart := None;
      }
      if info.Some? && info.value.closing.Some? {
        BeforeBefore(shown, [Shown(tg, info)], Answer(groups[i + 1..], infos, records, nextStart, now));
        shown := shown + [Shown(tg, info)];
        continue;
      }
      if tg.hasTimeLimit && tg.timeLimit.Some? {
        if info.None? {
          return Panic;
        }
        var deadline := info.value.opening + tg.timeLimit.value;
        if deadline < now {
          info := Some(TeamInfo(info.value.opening, Some(deadline)));
          records := records[tg.id := info.value];
          BeforeBefore(shown, [Shown(tg, info)], Answer(groups[i + 1..], infos, records, Some(deadline), now));
          shown := shown + [Shown(tg, info)];
          nextStart := Some(deadline);
          continue;
        }
      }
      return Play(shown + [Shown(tg, info)], records);
    }
    return Play(shown, records);
  }

  lemma BeforeBefore(a: seq<Shown>, b: seq<Shown>, play: Play)
    ensures Before(a, Before(b, play)) == Before(a + b, play)
  {
    if play.Play? {
      assert a + (b + play.shown) == (a + b) + play.shown;
    }
  }

  /** One poll: read and schedule, then show and auto-close. */
  ghost function Poll(groups: seq<Group>, stored: Infos, start: int, now: int): Play {
    Answer(groups, Fill(groups, Read(groups, stored), start, None, true), stored, None, now)
  }

  // ---------------------------------------------------------------- the two loops as one schedule

  ghost predicate DistinctGroups(groups: seq<Group>) {
    forall i, j | 0 <= i < j < |groups| :: groups[i].id != groups[j].id
  }

  ghost predicate AllClosed(stored: Infos) {
    forall id | id in stored :: stored[id].closing.Some?
  }

  /** A closed record with its own closing time, or with the one that all records share. */
  ghost function Seen(info: TeamInfo, shared: Option<int>): TeamInfo {
    if shared.Some? then TeamInfo(info.opening, shared) else info
  }

  /** Both loops as one walk: a group opens when the one before it is seen to close. With nothing shared this
      is what a linear quest means; a poll walks with the last row's closing time shared. */
  ghost function Schedule(groups: seq<Group>, stored: Infos, shared: Option<int>, open: int, now: int): Play
    requires AllClosed(stored)
  {
    if groups == [] then Play([], stored)
    else
      var g, rest := groups[0], groups[1..];
      if g.sticky then Before([Shown(g, None)], Schedule(rest, stored, shared, open, now))
      else if g.id in stored then
        var seen := Seen(stored[g.id], shared);
        Before([Shown(g, Some(seen))], Schedule(rest, stored, shared, seen.closing.value, now))
      else if RunsOut(g, open, now) then
        var closed := Closed(g, open);
        Before([Shown(g, Some(closed))], Schedule(rest, stored[g.id := closed], shared, closed.closing.value, now))
      else Play([Shown(g, Some(TeamInfo(open, None)))], stored)
  }

  predicate RunsOut(g: Group, open: int, now: int) {
    g.Limited() && open + g.timeLimit.value < now
  }

  /** The record of a group that closes when its limit runs out. */
  function Closed(g: Group, open: int): (info: TeamInfo)
    requires g.Limited()
    ensures info.closing.Some?
  {
    TeamInfo(open, Some(open + g.timeLimit.value))
  }

  /** How the two loops hand the previous closing time on: by the start, by a stored record, or by an auto-close. */
  ghost predicate HandsOver(open: int, start: int, prev: Option<int>, first: bool, nextStart: Option<int>) {
    || (first && prev == None && nextStart == None && open == start)
    || (prev == Some(open))
    || (!first && prev == None && nextStart == Some(open))
  }

  /** The two maps say the same of every listed group. */
  ghost predicate Agree(a: Infos, b: Infos, groups: seq<Group>) {
    forall g | g in groups :: Lookup(a, g.id) == Lookup(b, g.id)
  }

  /** `read` is what is seen of the records of the listed groups. */
  ghost predicate SeenAs(read: Infos, records: Infos, shared: Option<int>, groups: seq<Group>) {
    forall g | g in groups ::
      Lookup(read, g.id) == if g.id in records then Some(Seen(records[g.id], shared)) else None
  }

  lemma AgreeTail(groups: seq<Group>, infos: Infos, read: Infos, start: int, prev: Option<int>, first: bool)
    requires groups != [] && DistinctGroups(groups)
    requires Agree(infos, Fill(groups, read, start, prev, first), groups)
    ensures var g, rest := groups[0], groups[1..];
            if g.sticky then Lookup(infos, g.id) == None && Agree(infos, Fill(rest, read, start, prev, first), rest)
            else Lookup(infos, g.id) == Scheduled(g, read, start, prev, first) &&
                 Agree(infos, Fill(rest, read, start, PrevAfter(g, read, prev), false), rest)
  {
    var g, rest := groups[0], groups[1..];
    assert g in groups && forall h | h in rest :: h in groups && h.id != g.id;
    FillOnlyAhead(rest, read, start, if g.sticky then prev else PrevAfter(g, read, prev), g.sticky && first, g.id);
  }

  lemma SeenTail(groups: seq<Group>, read: Infos, records: Infos, shared: Option<int>, open: int)
    requires groups != [] && DistinctGroups(groups) && SeenAs(read, records, shared, groups)
    ensures var g, rest := groups[0], groups[1..];
            && Lookup(read, g.id) == (if g.id in records then Some(Seen(records[g.id], shared)) else None)
            && DistinctGroups(rest) && SeenAs(read, records, shared, rest)
            && (g.Limited() ==> SeenAs(read, records[g.id := Closed(g, open)], shared, rest))
  {
    var g, rest := groups[0], groups[1..];
    assert g in groups && forall h | h in rest :: h in groups && h.id != g.id;
  }

  lemma {:induction false} LoopsAreSchedule(groups: seq<Group>, infos: Infos, read: Infos, records: Infos,
                                            shared: Option<int>, open: int, start: int, prev: Option<int>,
                                            first: bool, nextStart: Option<int>, now: int)
    requires DistinctGroups(groups) && AllClosed(records)
    requires SeenAs(read, records, shared, groups)
    requires Agree(infos, Fill(groups, read, start, prev, first), groups)
    requires HandsOver(open, start, prev, first, nextStart)
    ensures Answer(groups, infos, records, nextStart, now) == Schedule(groups, records, shared, open, now)
    decreases |groups|
  {
    if groups != [] {
      var g, rest := groups[0], groups[1..];
      AgreeTail(groups, infos, read, start, prev, first);
      SeenTail(groups, read, records, shared, open);
      if g.sticky {
        LoopsAreSchedule(rest, infos, read, records, shared, open, start, prev, first, nextStart, now);
      } else if g.id in records {
        LoopsAreSchedule(rest, infos, read, records, shared, Seen(records[g.id], shared).closing.value, start,
                         PrevAfter(g, read, prev), false, nextStart, now);
      } else {
        AnswerOpens(groups, infos, records, open, nextStart, now);
        if RunsOut(g, open, now) {
          var closed := Closed(g, open);
          LoopsAreSchedule(rest, infos, read, records[g.id := closed], shared, closed.closing.value, start, None,
                           false, closed.closing, now);
        }
      }
    }
  }

  /** A group without a record that opens at `open` is shown, and closed if its limit has run out. */
  lemma AnswerOpens(groups: seq<Group>, infos: Infos, records: Infos, open: int, nextStart: Option<int>, now: int)
    requires groups != [] && !groups[0].sticky
    requires Lookup(infos, groups[0].id) == Some(TeamInfo(open, None)) ||
             (Lookup(infos, groups[0].id) == None && nextStart == Some(open))
    ensures var g, rest := groups[0], groups[1..];
            Answer(groups, infos, records, nextStart, now) ==
              if RunsOut(g, open, now) then
                Before([Shown(g, Some(Closed(g, open)))],
                       Answer(rest, infos, records[g.id := Closed(g, open)], Closed(g, open).closing, now))
              else Play([Shown(g, Some(TeamInfo(open, None)))], records)
  {
  }

  lemma {:induction false} FillOnlyAhead(groups: seq<Group>, read: Infos, start: int, prev: Option<int>, first: bool,
                                         id: GroupID)
    requires forall g | g in groups :: g.id != id
    ensures id !in Fill(groups, read, start, prev, first)
    decreases |groups|
  {
    if groups != [] {
      var g := groups[0];
      FillOnlyAhead(groups[1..], read, start, if g.sticky then prev else PrevAfter(g, read, prev),
                    g.sticky && first, id);
    }
  }

  /** The one closing time that reading the records leaves in all of them. */
  ghost function Shared(groups: seq<Group>, stored: Infos): Option<int> {
    Some(LastRow(groups, stored, ZERO_TIME))
  }

  /** With every stored record closed, a poll never dereferences nil and walks the schedule, seeing every
      recorded group close at the last row's closing time. */
  lemma PollIsSchedule(groups: seq<Group>, stored: Infos, start: int, now: int)
    requires DistinctGroups(groups) && AllClosed(stored)
    ensures Poll(groups, stored, start, now) == Schedule(groups, stored, Shared(groups, stored), start, now)
    ensures Poll(groups, stored, start, now).Play?
  {
    var read := Read(groups, stored);
    var shared := Shared(groups, stored);
    assert SeenAs(read, stored, shared, groups);
    LoopsAreSchedule(groups, Fill(groups, read, start, None, true), read, stored, shared, start, start, None, true,
                     None, now);
    ScheduleGrows(groups, stored, shared, start, now);
  }

  /** A walk only adds records, all of them closed in the past. */
  lemma {:induction false} ScheduleGrows(groups: seq<Group>, stored: Infos, shared: Option<int>, open: int, now: int)
    requires AllClosed(stored)
    ensures var play := Schedule(groups, stored, shared, open, now);
            && play.Play? && AllClosed(play.stored)
            && (forall id | id in stored :: id in play.stored && play.stored[id] == stored[id])
            && (forall id | id in play.stored && id !in stored ::
                  play.stored[id].closing.value < now && exists g :: g in groups && g.id == id && !g.sticky)
    decreases |groups|
  {
    if groups != [] {
      var g, rest := groups[0], groups[1..];
      assert g in groups && forall h | h in rest :: h in groups;
      if g.sticky {
        ScheduleGrows(rest, stored, shared, open, now);
      } else if g.id in stored {
        ScheduleGrows(rest, stored, shared, Seen(stored[g.id], shared).closing.value, now);
      } else if RunsOut(g, open, now) {
        ScheduleGrows(rest, stored[g.id := Closed(g, open)], shared, Closed(g, open).closing.value, now);
      }
    }
  }

  // ---------------------------------------------------------------- what is shown

  ghost predicate IsOpen(s: Shown) {
    !s.group.sticky && (s.info.None? || s.info.value.closing.None?)
  }

  /** The shown groups are a prefix of the list, every timed one has its times, and an open timed group
      can only be the last; when the list is cut short, it is there. */
  ghost predicate PrefixShown(groups: seq<Group>, shown: seq<Shown>) {
    && |shown| <= |groups|
    && (forall i | 0 <= i < |shown| ::
          && shown[i].group == groups[i]
          && (groups[i].sticky || shown[i].info.Some?)
          && (i < |shown| - 1 ==> !IsOpen(shown[i])))
    && (|shown| < |groups| ==> shown != [] && IsOpen(shown[|shown| - 1]))
  }

  lemma PrefixCons(groups: seq<Group>, s: Shown, shown: seq<Shown>)
    requires groups != [] && s.group == groups[0] && !IsOpen(s) && (s.group.sticky || s.info.Some?)
    requires PrefixShown(groups[1..], shown)
    ensures PrefixShown(groups, [s] + shown)
  {
    var all := [s] + shown;
    forall i | 1 <= i < |all| ensures all[i] == shown[i - 1] && groups[i] == groups[1..][i - 1] {
    }
  }

  lemma {:induction false} ScheduleShowsAPrefix(groups: seq<Group>, stored: Infos, shared: Option<int>, open: int,
                                                now: int)
    requires AllClosed(stored)
    ensures Schedule(groups, stored, shared, open, now).Play?
    ensures PrefixShown(groups, Schedule(groups, stored, shared, open, now).shown)
    decreases |groups|
  {
    ScheduleGrows(groups, stored, shared, open, now);
    if groups != [] {
      var g, rest := groups[0], groups[1..];
      if g.sticky {
        ScheduleShowsAPrefix(rest, stored, shared, open, now);
        PrefixCons(groups, Shown(g, None), Schedule(rest, stored, shared, open, now).shown);
      } else if g.id in stored {
        var seen := Seen(stored[g.id], shared);
        ScheduleShowsAPrefix(rest, stored, shared, seen.closing.value, now);
        PrefixCons(groups, Shown(g, Some(seen)), Schedule(rest, stored, shared, seen.closing.value, now).shown);
      } else if RunsOut(g, open, now) {
        var closed := Closed(g, open);
        ScheduleShowsAPrefix(rest, stored[g.id := closed], shared, closed.closing.value, now);
        PrefixCons(groups, Shown(g, Some(closed)),
                   Schedule(rest, stored[g.id := closed], shared, closed.closing.value, now).shown);
      }
    }
  }

  /** Whatever closed records are stored, a poll shows a prefix of the groups with at most one open timed
      group, the last. */
  lemma PollShowsAPrefix(groups: seq<Group>, stored: Infos, start: int, now: int)
    requires DistinctGroups(groups) && AllClosed(stored)
    ensures Poll(groups, stored, start, now).Play?
    ensures PrefixShown(groups, Poll(groups, stored, start, now).shown)
  {
    PollIsSchedule(groups, stored, start, now);
    ScheduleShowsAPrefix(groups, stored, Shared(groups, stored), start, now);
  }

  /** When the last timed group of those shown is seen to close, or `open` if there is none. */
  ghost function LastClose(shown: seq<Shown>, open: int): int {
    if shown == [] then open
    else
      var s := shown[|shown| - 1];
      if s.info.Some? && s.info.value.closing.Some? then s.info.value.closing.value
      else LastClose(shown[..|shown| - 1], open)
  }

  /** A sticky group is shown without times and a recorded one with its opening and the shared closing. Any other
      is shown opening when the one before it is seen to close, and closed as the poll records it, or open. */
  ghost predicate TimesOf(s: Shown, stored: Infos, left: Infos, shared: Option<int>, open: int) {
    if s.group.sticky then s.info.None?
    else if s.group.id in stored then s.info == Some(Seen(stored[s.group.id], shared))
    else
      && s.info.Some? && s.info.value.opening == open
      && (s.group.id in left ==> s.info.value == left[s.group.id])
      && (s.group.id !in left ==> s.info.value.closing.None?)
  }

  ghost predicate ShownTimes(shown: seq<Shown>, stored: Infos, left: Infos, shared: Option<int>, open: int) {
    forall i | 0 <= i < |shown| :: TimesOf(shown[i], stored, left, shared, LastClose(shown[..i], open))
  }

  lemma {:induction false} LastCloseCons(s: Shown, shown: seq<Shown>, open: int)
    ensures LastClose([s] + shown, open) ==
            LastClose(shown, if s.info.Some? && s.info.value.closing.Some? then s.info.value.closing.value else open)
  {
    var all := [s] + shown;
    if shown == [] {
      assert all[..0] == [];
    } else {
      assert all[..|all| - 1] == [s] + shown[..|shown| - 1];
      LastCloseCons(s, shown[..|shown| - 1], open);
    }
  }

  /** One more group in front, whose own record the groups behind it do not look at. */
  lemma ShownCons(s: Shown, shown: seq<Shown>, stored: Infos, stored': Infos, left: Infos, shared: Option<int>,
                  open: int, next: int)
    requires TimesOf(s, stored, left, shared, open)
    requires next == if s.info.Some? && s.info.value.closing.Some? then s.info.value.closing.value else open
    requires ShownTimes(shown, stored', left, shared, next)
    requires forall i | 0 <= i < |shown| :: Lookup(stored', shown[i].group.id) == Lookup(stored, shown[i].group.id)
    ensures ShownTimes([s] + shown, stored, left, shared, open)
  {
    var all := [s] + shown;
    forall i | 0 <= i < |all| ensures TimesOf(all[i], stored, left, shared, LastClose(all[..i], open)) {
      if i > 0 {
        assert all[..i] == [s] + shown[..i - 1] && all[i] == shown[i - 1];
        LastCloseCons(s, shown[..i - 1], open);
        assert TimesOf(shown[i - 1], stored', left, shared, LastClose(shown[..i - 1], next));
        assert Lookup(stored', shown[i - 1].group.id) == Lookup(stored, shown[i - 1].group.id);
      }
    }
  }

  lemma ShownRest(groups: seq<Group>, stored: Infos, stored': Infos, shared: Option<int>, open: int, now: int)
    requires groups != [] && DistinctGroups(groups) && AllClosed(stored')
    requires forall id | id != groups[0].id :: Lookup(stored', id) == Lookup(stored, id)
    ensures var shown := Schedule(groups[1..], stored', shared, open, now);
            shown.Play? && forall i | 0 <= i < |shown.shown| ::
              Lookup(stored', shown.shown[i].group.id) == Lookup(stored, shown.shown[i].group.id)
  {
    var rest := groups[1..];
    ScheduleShowsAPrefix(rest, stored', shared, open, now);
    var shown := Schedule(rest, stored', shared, open, now).shown;
    forall i | 0 <= i < |shown| ensures Lookup(stored', shown[i].group.id) == Lookup(stored, shown[i].group.id) {
      assert shown[i].group == rest[i] && rest[i] == groups[i + 1];
    }
  }

  lemma {:induction false} ScheduleShowsTimes(groups: seq<Group>, stored: Infos, shared: Option<int>, open: int,
                                              now: int)
    requires DistinctGroups(groups) && AllClosed(stored)
    ensures Schedule(groups, stored, shared, open, now).Play?
    ensures ShownTimes(Schedule(groups, stored, shared, open, now).shown, stored,
                       Schedule(groups, stored, shared, open, now).stored, shared, open)
    decreases |groups|, 0
  {
    ScheduleGrows(groups, stored, shared, open, now);
    if groups != [] {
      var g, rest := groups[0], groups[1..];
      if g.sticky {
        ShowsOneMore(groups, Shown(g, None), stored, stored, shared, open, open, now);
      } else if g.id in stored {
        var seen := Seen(stored[g.id], shared);
        ShowsOneMore(groups, Shown(g, Some(seen)), stored, stored, shared, open, seen.closing.value, now);
      } else if RunsOut(g, open, now) {
        var closed := Closed(g, open);
        ScheduleGrows(rest, stored[g.id := closed], shared, closed.closing.value, now);
        ShowsOneMore(groups, Shown(g, Some(closed)), stored, stored[g.id := closed], shared, open,
                     closed.closing.value, now);
      }
    }
  }

  lemma {:induction false} ShowsOneMore(groups: seq<Group>, s: Shown, stored: Infos, stored': Infos,
                                        shared: Option<int>, open: int, next: int, now: int)
    requires groups != [] && DistinctGroups(groups) && AllClosed(stored')
    requires forall id | id != groups[0].id :: Lookup(stored', id) == Lookup(stored, id)
    requires Schedule(groups[1..], stored', shared, next, now).Play? ==>
               TimesOf(s, stored, Schedule(groups[1..], stored', shared, next, now).stored, shared, open)
    requires next == if s.info.Some? && s.info.value.closing.Some? then s.info.value.closing.value else open
    ensures var play := Schedule(groups[1..], stored', shared, next, now);
            play.Play? && ShownTimes([s] + play.shown, stored, play.stored, shared, open)
    decreases |groups| - 1, 1
  {
    var play := Schedule(groups[1..], stored', shared, next, now);
    ScheduleShowsTimes(groups[1..], stored', shared, next, now);
    ShownRest(groups, stored, stored', shared, next, now);
    ShownCons(s, play.shown, stored, stored', play.stored, shared, open, next);
  }

  /** The times a poll shows: of a recorded group, its opening and the one closing they all share; of any other,
      opening when the group before it is seen to close, and closed exactly as the poll records it, or open. */
  lemma PollShowsTimes(groups: seq<Group>, stored: Infos, start: int, now: int)
    requires DistinctGroups(groups) && AllClosed(stored)
    ensures var play := Poll(groups, stored, start, now);
            play.Play? && ShownTimes(play.shown, stored, play.stored, Shared(groups, stored), start)
  {
    PollIsSchedule(groups, stored, start, now);
    ScheduleShowsTimes(groups, stored, Shared(groups, stored), start, now);
  }
}
