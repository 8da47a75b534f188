/** Polling a linear quest: what sharing one closing time changes, when polls can be skipped, and when groups
    open and close. */
module Polling {
  import opened Prelude
  import opened LinearClock

  // ---------------------------------------------------------------- when sharing the closing time shows

  /** A group without a record whose predecessor closed at `own` and is seen to close at `seen`. */
  datatype Gap = Gap(group: Group, own: int, seen: int)

  /** The first group without a record that the walk reaches with two different opening times. */
  ghost function FirstGap(groups: seq<Group>, stored: Infos, last: int, own: int, seen: int, now: int): Option<Gap>
    requires AllClosed(stored)
  {
    if groups == [] then None
    else
      var g, rest := groups[0], groups[1..];
      if g.sticky then FirstGap(rest, stored, last, own, seen, now)
      else if g.id in stored then FirstGap(rest, stored, last, stored[g.id].closing.value, last, now)
      else if own != seen then Some(Gap(g, own, seen))
      else if RunsOut(g, own, now) then
        var closing := Closed(g, own).closing.value;
        FirstGap(rest, stored[g.id := Closed(g, own)], last, closing, closing, now)
      else None
  }

  function Earlier(a: int, b: int): int {
    if a < b then a else b
  }

  /** The group at the gap is limited, and counted from the earlier of its two opening times it has run out. */
  ghost predicate Shows(gap: Option<Gap>, now: int) {
    gap.Some? && RunsOut(gap.value.group, Earlier(gap.value.own, gap.value.seen), now)
  }

  lemma {:induction false} GapDecides(groups: seq<Group>, stored: Infos, last: int, own: int, seen: int, now: int)
    requires AllClosed(stored)
    ensures Schedule(groups, stored, None, own, now).Play? && Schedule(groups, stored, Some(last), seen, now).Play?
    ensures Schedule(groups, stored, None, own, now).stored ==
            Schedule(groups, stored, Some(last), seen, now).stored <==>
            !Shows(FirstGap(groups, stored, last, own, seen, now), now)
    decreases |groups|
  {
    ScheduleGrows(groups, stored, None, own, now);
    ScheduleGrows(groups, stored, Some(last), seen, now);
    if groups != [] {
      var g, rest := groups[0], groups[1..];
      if g.sticky {
        GapDecides(rest, stored, last, own, seen, now);
      } else if g.id in stored {
        GapDecides(rest, stored, last, stored[g.id].closing.value, last, now);
      } else if own != seen {
        OpensTwice(groups, stored, None, own, Some(last), seen, now);
      } else if RunsOut(g, own, now) {
        GapDecides(rest, stored[g.id := Closed(g, own)], last, Closed(g, own).closing.value,
                   Closed(g, own).closing.value, now);
      }
    }
  }

  /** From two different opening times a group gets two different records, unless it runs out from neither. */
  lemma OpensTwice(groups: seq<Group>, stored: Infos, shared: Option<int>, open: int, shared': Option<int>,
                   open': int, now: int)
    requires AllClosed(stored) && groups != [] && !groups[0].sticky && groups[0].id !in stored && open != open'
    ensures Schedule(groups, stored, shared, open, now).Play? && Schedule(groups, stored, shared', open', now).Play?
    ensures Schedule(groups, stored, shared, open, now).stored ==
            Schedule(groups, stored, shared', open', now).stored <==>
            !RunsOut(groups[0], Earlier(open, open'), now)
  {
    RunsOutIsKept(groups, stored, shared, open, now);
    RunsOutIsKept(groups, stored, shared', open', now);
  }

  /** A walk that opens a group records it exactly when it runs out. */
  lemma RunsOutIsKept(groups: seq<Group>, stored: Infos, shared: Option<int>, open: int, now: int)
    requires AllClosed(stored) && groups != [] && !groups[0].sticky && groups[0].id !in stored
    ensures var play := Schedule(groups, stored, shared, open, now);
            && play.Play?
            && Lookup(play.stored, groups[0].id) ==
                 (if RunsOut(groups[0], open, now) then Some(Closed(groups[0], open)) else None)
            && (!RunsOut(groups[0], open, now) ==> play.stored == stored)
  {
    var g := groups[0];
    if RunsOut(g, open, now) {
      ScheduleGrows(groups[1..], stored[g.id := Closed(g, open)], shared, Closed(g, open).closing.value, now);
    }
  }

  /** A poll leaves the records that a linear quest means exactly when no gap shows. */
  lemma SharingIsHarmlessIff(groups: seq<Group>, stored: Infos, start: int, now: int)
    requires DistinctGroups(groups) && AllClosed(stored)
    ensures Poll(groups, stored, start, now).Play? && Schedule(groups, stored, None, start, now).Play?
    ensures Poll(groups, stored, start, now).stored == Schedule(groups, stored, None, start, now).stored <==>
            !Shows(FirstGap(groups, stored, LastRow(groups, stored, ZERO_TIME), start, start, now), now)
  {
    PollIsSchedule(groups, stored, start, now);
    GapDecides(groups, stored, LastRow(groups, stored, ZERO_TIME), start, start, now);
  }

  ghost predicate NoneRecorded(groups: seq<Group>, stored: Infos) {
    forall g | g in groups :: g.id !in stored
  }

  /** The recorded groups come before every other timed group, and no sticky group is recorded. */
  ghost predicate RecordedFirst(groups: seq<Group>, stored: Infos) {
    if groups == [] then true
    else if groups[0].sticky then groups[0].id !in stored && RecordedFirst(groups[1..], stored)
    else if groups[0].id in stored then RecordedFirst(groups[1..], stored)
    else NoneRecorded(groups, stored)
  }

  lemma {:induction false} NothingToShare(groups: seq<Group>, stored: Infos, sofar: int)
    requires NoneRecorded(groups, stored)
    ensures LastRow(groups, stored, sofar) == sofar && RecordedFirst(groups, stored)
    decreases |groups|
  {
    if groups != [] {
      assert groups[0] in groups && forall h | h in groups[1..] :: h in groups;
      NothingToShare(groups[1..], stored, sofar);
    }
  }

  lemma {:induction false} NoGapAhead(groups: seq<Group>, stored: Infos, last: int, open: int, now: int)
    requires DistinctGroups(groups) && AllClosed(stored) && NoneRecorded(groups, stored)
    ensures FirstGap(groups, stored, last, open, open, now) == None
    decreases |groups|
  {
    if groups != [] {
      var g, rest := groups[0], groups[1..];
      assert g in groups && forall h | h in rest :: h in groups && h.id != g.id;
      if g.sticky {
        NoGapAhead(rest, stored, last, open, now);
      } else if RunsOut(g, open, now) {
        NoGapAhead(rest, stored[g.id := Closed(g, open)], last, Closed(g, open).closing.value, now);
      }
    }
  }

  /** Where the recorded groups come first, the last row is that of the predecessor of the first open group. */
  lemma {:induction false} NoGapWhenRecordedFirst(groups: seq<Group>, stored: Infos, last: int, own: int, seen: int,
                                                  sofar: int, now: int)
    requires DistinctGroups(groups) && AllClosed(stored) && RecordedFirst(groups, stored)
    requires last == LastRow(groups, stored, sofar)
    requires own == seen || (sofar == own && seen == last)
    ensures FirstGap(groups, stored, last, own, seen, now) == None
    decreases |groups|
  {
    if groups != [] {
      var g, rest := groups[0], groups[1..];
      if g.sticky {
        NoGapWhenRecordedFirst(rest, stored, last, own, seen, sofar, now);
      } else if g.id in stored {
        NoGapWhenRecordedFirst(rest, stored, last, stored[g.id].closing.value, last, stored[g.id].closing.value, now);
      } else {
        NothingToShare(groups, stored, sofar);
        NoGapAhead(groups, stored, last, own, now);
      }
    }
  }

  /** While the recorded groups come first, sharing the closing time changes no record. */
  lemma RecordedFirstIsHarmless(groups: seq<Group>, stored: Infos, start: int, now: int)
    requires DistinctGroups(groups) && AllClosed(stored) && RecordedFirst(groups, stored)
    ensures Poll(groups, stored, start, now).Play? && Schedule(groups, stored, None, start, now).Play?
    ensures Poll(groups, stored, start, now).stored == Schedule(groups, stored, None, start, now).stored
  {
    SharingIsHarmlessIff(groups, stored, start, now);
    NoGapWhenRecordedFirst(groups, stored, LastRow(groups, stored, ZERO_TIME), start, start, ZERO_TIME, now);
  }

  /** And a walk keeps it so: the groups it closes come right after the recorded ones. */
  lemma {:induction false} ScheduleKeepsRecordedFirst(groups: seq<Group>, stored: Infos, shared: Option<int>, open: int,
                                                      now: int)
    requires DistinctGroups(groups) && AllClosed(stored) && RecordedFirst(groups, stored)
    ensures Schedule(groups, stored, shared, open, now).Play?
    ensures RecordedFirst(groups, Schedule(groups, stored, shared, open, now).stored)
    decreases |groups|
  {
    if groups != [] {
      var g, rest := groups[0], groups[1..];
      assert g in groups && forall h | h in rest :: h in groups && h.id != g.id;
      if g.sticky {
        ScheduleGrows(rest, stored, shared, open, now);
        ScheduleKeepsRecordedFirst(rest, stored, shared, open, now);
      } else if g.id in stored {
        ScheduleGrows(rest, stored, shared, Seen(stored[g.id], shared).closing.value, now);
        ScheduleKeepsRecordedFirst(rest, stored, shared, Seen(stored[g.id], shared).closing.value, now);
      } else if RunsOut(g, open, now) {
        ClosingKeepsRecordedFirst(groups, stored, shared, open, now);
        ScheduleKeepsRecordedFirst(rest, stored[g.id := Closed(g, open)], shared, Closed(g, open).closing.value, now);
      }
    }
  }

  lemma ClosingKeepsRecordedFirst(groups: seq<Group>, stored: Infos, shared: Option<int>, open: int, now: int)
    requires groups != [] && DistinctGroups(groups) && AllClosed(stored) && groups[0].Limited()
    requires NoneRecorded(groups, stored)
    ensures var stored' := stored[groups[0].id := Closed(groups[0], open)];
            var play := Schedule(groups[1..], stored', shared, Closed(groups[0], open).closing.value, now);
            RecordedFirst(groups[1..], stored') && play.Play? && groups[0].id in play.stored
  {
    var stored' := stored[groups[0].id := Closed(groups[0], open)];
    assert forall h | h in groups[1..] :: h in groups && h.id != groups[0].id;
    NothingToShare(groups[1..], stored', ZERO_TIME);
    ScheduleGrows(groups[1..], stored', shared, Closed(groups[0], open).closing.value, now);
  }

  // ---------------------------------------------------------------- polling again

  /** The records after polling at each of the given times. */
  ghost function Polled(groups: seq<Group>, stored: Infos, start: int, times: seq<int>): Infos
    decreases |times|
  {
    if times == [] then stored
    else
      var play := Poll(groups, stored, start, times[0]);
      if play.Panic? then stored else Polled(groups, play.stored, start, times[1..])
  }

  ghost predicate Nondecreasing(times: seq<int>) {
    forall i, j | 0 <= i < j < |times| :: times[i] <= times[j]
  }

  /** With nothing shared, a later walk gives the same answer whether or not the earlier one was made. */
  lemma {:induction false} ScheduleAbsorbs(groups: seq<Group>, stored: Infos, open: int, t1: int, t2: int)
    requires AllClosed(stored) && t1 <= t2
    ensures Schedule(groups, stored, None, open, t1).Play? && AllClosed(Schedule(groups, stored, None, open, t1).stored)
    ensures Schedule(groups, Schedule(groups, stored, None, open, t1).stored, None, open, t2) ==
            Schedule(groups, stored, None, open, t2)
    decreases |groups|
  {
    ScheduleGrows(groups, stored, None, open, t1);
    if groups != [] {
      var g, rest := groups[0], groups[1..];
      if g.sticky {
        ScheduleAbsorbs(rest, stored, open, t1, t2);
      } else if g.id in stored {
        ScheduleAbsorbs(rest, stored, stored[g.id].closing.value, t1, t2);
      } else if RunsOut(g, open, t1) {
        ScheduleGrows(rest, stored[g.id := Closed(g, open)], None, Closed(g, open).closing.value, t1);
        ScheduleAbsorbs(rest, stored[g.id := Closed(g, open)], Closed(g, open).closing.value, t1, t2);
      }
    }
  }

  /** Polling is path independent: from no records, or wherever the recorded groups come first, polls at
      nondecreasing times leave the records of the last one alone, which are those a linear quest means. */
  lemma {:induction false} PollingIsPathIndependent(groups: seq<Group>, stored: Infos, start: int, times: seq<int>)
    requires DistinctGroups(groups) && AllClosed(stored) && RecordedFirst(groups, stored)
    requires times != [] && Nondecreasing(times)
    ensures var last := times[|times| - 1];
            && Poll(groups, stored, start, last).Play? && Schedule(groups, stored, None, start, last).Play?
            && Polled(groups, stored, start, times) == Poll(groups, stored, start, last).stored
                                                    == Schedule(groups, stored, None, start, last).stored
    decreases |times|
  {
    var last := times[|times| - 1];
    RecordedFirstIsHarmless(groups, stored, start, times[0]);
    RecordedFirstIsHarmless(groups, stored, start, last);
    if |times| == 1 {
      assert times[1..] == [];
    } else {
      ScheduleGrows(groups, stored, None, start, times[0]);
      ScheduleKeepsRecordedFirst(groups, stored, None, start, times[0]);
      ScheduleAbsorbs(groups, stored, start, times[0], last);
      PollingIsPathIndependent(groups, Poll(groups, stored, start, times[0]).stored, start, times[1..]);
    }
  }

  /** Where a walk halts: the groups from the first open timed one on, the time that one opened, whether a timed
      group comes before it, and whether a group listed after that one has a record. */
  datatype Halt = Halt(groups: seq<Group>, open: int, passed: bool, recordAhead: bool)

  ghost function HaltOf(groups: seq<Group>, stored: Infos, shared: Option<int>, open: int, passed: bool, skipped: bool,
                        now: int): Halt
    requires AllClosed(stored)
  {
    if groups == [] then Halt([], open, passed, skipped)
    else
      var g, rest := groups[0], groups[1..];
      if g.sticky then HaltOf(rest, stored, shared, open, passed, skipped || g.id in stored, now)
      else if g.id in stored then
        HaltOf(rest, stored, shared, Seen(stored[g.id], shared).closing.value, true, false, now)
      else if RunsOut(g, open, now) then
        HaltOf(rest, stored[g.id := Closed(g, open)], shared, Closed(g, open).closing.value, true, false, now)
      else Halt(groups, open, passed, skipped || !NoneRecorded(groups, stored))
  }

  /** The walk halts at an open timed group, which it leaves without a record. */
  lemma {:induction false} HaltIsOpen(groups: seq<Group>, stored: Infos, shared: Option<int>, open: int, passed: bool,
                                      skipped: bool, now: int)
    requires DistinctGroups(groups) && AllClosed(stored)
    ensures Schedule(groups, stored, shared, open, now).Play?
    ensures var halt := HaltOf(groups, stored, shared, open, passed, skipped, now);
            var after := Schedule(groups, stored, shared, open, now).stored;
            && DistinctGroups(halt.groups)
            && (halt.groups != [] ==> !halt.groups[0].sticky && halt.groups[0].id !in after)
    decreases |groups|
  {
    if groups != [] {
      var g, rest := groups[0], groups[1..];
      if g.sticky {
        HaltIsOpen(rest, stored, shared, open, passed, skipped || g.id in stored, now);
      } else if g.id in stored {
        HaltIsOpen(rest, stored, shared, Seen(stored[g.id], shared).closing.value, true, false, now);
      } else if RunsOut(g, open, now) {
        HaltIsOpen(rest, stored[g.id := Closed(g, open)], shared, Closed(g, open).closing.value, true, false, now);
      }
    }
  }

  /** Before any timed group is passed the walk still opens groups at the start, and has recorded nothing. */
  lemma {:induction false} HaltBeforeAny(groups: seq<Group>, stored: Infos, shared: Option<int>, open: int,
                                         skipped: bool, now: int)
    requires AllClosed(stored)
    ensures var halt := HaltOf(groups, stored, shared, open, false, skipped, now);
            var play := Schedule(groups, stored, shared, open, now);
            !halt.passed ==> halt.open == open && play.Play? && play.stored == stored
    decreases |groups|
  {
    if groups != [] {
      var g, rest := groups[0], groups[1..];
      if g.sticky {
        HaltBeforeAny(rest, stored, shared, open, skipped || g.id in stored, now);
      } else if g.id in stored {
        HaltPassed(rest, stored, shared, Seen(stored[g.id], shared).closing.value, false, now);
      } else if RunsOut(g, open, now) {
        HaltPassed(rest, stored[g.id := Closed(g, open)], shared, Closed(g, open).closing.value, false, now);
      }
    }
  }

  lemma {:induction false} HaltPassed(groups: seq<Group>, stored: Infos, shared: Option<int>, open: int, skipped: bool,
                                      now: int)
    requires AllClosed(stored)
    ensures HaltOf(groups, stored, shared, open, true, skipped, now).passed
    decreases |groups|
  {
    if groups != [] {
      var g, rest := groups[0], groups[1..];
      if g.sticky {
        HaltPassed(rest, stored, shared, open, skipped || g.id in stored, now);
      } else if g.id in stored {
        HaltPassed(rest, stored, shared, Seen(stored[g.id], shared).closing.value, false, now);
      } else if RunsOut(g, open, now) {
        HaltPassed(rest, stored[g.id := Closed(g, open)], shared, Closed(g, open).closing.value, false, now);
      }
    }
  }

  /** One later walk goes on from where the earlier one would have halted. */
  lemma {:induction false} GoesOn(groups: seq<Group>, stored: Infos, shared: Option<int>, open: int, passed: bool,
                                  skipped: bool, t1: int, t2: int)
    requires AllClosed(stored) && t1 <= t2
    ensures var halt := HaltOf(groups, stored, shared, open, passed, skipped, t1);
            var first := Schedule(groups, stored, shared, open, t1);
            && first.Play? && AllClosed(first.stored) && Schedule(groups, stored, shared, open, t2).Play?
            && Schedule(halt.groups, first.stored, shared, halt.open, t2).Play?
            && Schedule(groups, stored, shared, open, t2).stored ==
               Schedule(halt.groups, first.stored, shared, halt.open, t2).stored
    decreases |groups|
  {
    ScheduleGrows(groups, stored, shared, open, t1);
    ScheduleGrows(groups, stored, shared, open, t2);
    if groups != [] {
      var g, rest := groups[0], groups[1..];
      if g.sticky {
        GoesOn(rest, stored, shared, open, passed, skipped || g.id in stored, t1, t2);
      } else if g.id in stored {
        GoesOn(rest, stored, shared, Seen(stored[g.id], shared).closing.value, true, false, t1, t2);
      } else if RunsOut(g, open, t1) {
        GoesOn(rest, stored[g.id := Closed(g, open)], shared, Closed(g, open).closing.value, true, false, t1, t2);
      }
    }
  }

  /** A walk over the records the earlier one left comes to the same halt, but sees the group before it close
      at the time then shared. */
  lemma {:induction false} ComesBack(groups: seq<Group>, stored: Infos, shared: Option<int>, open: int, passed: bool,
                                     skipped: bool, t1: int, after: Infos, last: int, open': int, t2: int)
    requires AllClosed(stored) && AllClosed(after)
    requires Schedule(groups, stored, shared, open, t1).Play?
    requires Schedule(groups, stored, shared, open, t1).stored == after
    requires passed ==> open' == last
    ensures var halt := HaltOf(groups, stored, shared, open, passed, skipped, t1);
            && Schedule(groups, after, Some(last), open', t2).Play?
            && Schedule(halt.groups, after, Some(last), if halt.passed then last else open', t2).Play?
            && Schedule(groups, after, Some(last), open', t2).stored ==
               Schedule(halt.groups, after, Some(last), if halt.passed then last else open', t2).stored
    decreases |groups|
  {
    ScheduleGrows(groups, stored, shared, open, t1);
    ScheduleGrows(groups, after, Some(last), open', t2);
    if groups != [] {
      var g, rest := groups[0], groups[1..];
      if g.sticky {
        ComesBack(rest, stored, shared, open, passed, skipped || g.id in stored, t1, after, last, open', t2);
      } else if g.id in stored {
        HaltPassed(rest, stored, shared, Seen(stored[g.id], shared).closing.value, false, t1);
        ComesBack(rest, stored, shared, Seen(stored[g.id], shared).closing.value, true, false, t1, after, last, last,
                  t2);
      } else if RunsOut(g, open, t1) {
        ScheduleGrows(rest, stored[g.id := Closed(g, open)], shared, Closed(g, open).closing.value, t1);
        HaltPassed(rest, stored[g.id := Closed(g, open)], shared, Closed(g, open).closing.value, false, t1);
        ComesBack(rest, stored[g.id := Closed(g, open)], shared, Closed(g, open).closing.value, true, false, t1, after,
                  last, last, t2);
      }
    }
  }

  /** The records of the groups still ahead are those of the walk's start. */
  lemma {:induction false} HaltAgrees(groups: seq<Group>, stored: Infos, shared: Option<int>, open: int, passed: bool,
                                      skipped: bool, now: int)
    requires DistinctGroups(groups) && AllClosed(stored)
    ensures Schedule(groups, stored, shared, open, now).Play?
    ensures var halt := HaltOf(groups, stored, shared, open, passed, skipped, now);
            && (!halt.recordAhead ==> NoneRecorded(halt.groups, Schedule(groups, stored, shared, open, now).stored))
    decreases |groups|
  {
    if groups != [] {
      var g, rest := groups[0], groups[1..];
      if g.sticky {
        HaltAgrees(rest, stored, shared, open, passed, skipped || g.id in stored, now);
      } else if g.id in stored {
        HaltAgrees(rest, stored, shared, Seen(stored[g.id], shared).closing.value, true, false, now);
      } else if RunsOut(g, open, now) {
        HaltAgrees(rest, stored[g.id := Closed(g, open)], shared, Closed(g, open).closing.value, true, false, now);
      }
    }
  }

  /** How the last rows before and after the walk compare up to some group: `sofar` and `sofar'` are those of the
      groups already walked over. */
  ghost predicate Tracks(last: int, open: int, passed: bool, skipped: bool, sofar: int, sofar': int) {
    passed ==> if skipped then sofar' == sofar else sofar' == open || (open == last && sofar' == sofar)
  }

  /** The last row after a walk: the one before it if a record lies ahead of the last group passed, and otherwise
      the closing time of that group, at which the next one opened. */
  lemma {:induction false} LastRowAfter(groups: seq<Group>, stored: Infos, last: int, open: int, passed: bool,
                                        skipped: bool, now: int, sofar: int, sofar': int)
    requires DistinctGroups(groups) && AllClosed(stored) && LastRow(groups, stored, sofar) == last
    requires Tracks(last, open, passed, skipped, sofar, sofar')
    ensures Schedule(groups, stored, Some(last), open, now).Play?
    ensures var halt := HaltOf(groups, stored, Some(last), open, passed, skipped, now);
            var next := LastRow(groups, Schedule(groups, stored, Some(last), open, now).stored, sofar');
            halt.passed ==> next == if halt.recordAhead then last else halt.open
    decreases |groups|
  {
    ScheduleGrows(groups, stored, Some(last), open, now);
    if groups != [] {
      var g, rest := groups[0], groups[1..];
      assert g in groups && forall h | h in rest :: h in groups && h.id != g.id;
      if g.sticky && g.id !in stored {
        ScheduleGrows(rest, stored, Some(last), open, now);
        LastRowAfter(rest, stored, last, open, passed, skipped, now, sofar, sofar');
      } else if g.sticky {
        LastRowAfter(rest, stored, last, open, passed, true, now, stored[g.id].closing.value,
                     stored[g.id].closing.value);
      } else if g.id in stored {
        LastRowAfter(rest, stored, last, last, true, false, now, stored[g.id].closing.value,
                     stored[g.id].closing.value);
      } else if RunsOut(g, open, now) {
        var closed := Closed(g, open);
        ScheduleGrows(rest, stored[g.id := closed], Some(last), closed.closing.value, now);
        LastRowElsewhere(rest, stored, g.id, closed, sofar);
        LastRowAfter(rest, stored[g.id := closed], last, closed.closing.value, true, false, now, sofar,
                     closed.closing.value);
      } else if NoneRecorded(groups, stored) {
        NothingToShare(groups, stored, sofar);
        NothingToShare(groups, stored, sofar');
      } else {
        LastRowForgets(groups, stored, sofar, sofar');
      }
    }
  }

  lemma {:induction false} LastRowElsewhere(groups: seq<Group>, stored: Infos, id: GroupID, info: TeamInfo, sofar: int)
    requires forall g | g in groups :: g.id != id
    ensures LastRow(groups, stored[id := info], sofar) == LastRow(groups, stored, sofar)
    decreases |groups|
  {
    if groups != [] {
      assert groups[0] in groups && forall h | h in groups[1..] :: h in groups;
      LastRowElsewhere(groups[1..], stored, id, info,
                       if groups[0].id in stored then TimeOf(stored[groups[0].id].closing) else sofar);
    }
  }

  lemma {:induction false} LastRowForgets(groups: seq<Group>, stored: Infos, sofar: int, sofar': int)
    requires !NoneRecorded(groups, stored)
    ensures LastRow(groups, stored, sofar) == LastRow(groups, stored, sofar')
    decreases |groups|
  {
    if groups[0].id !in stored {
      var g :| g in groups && g.id in stored;
      assert g in groups[1..];
      LastRowForgets(groups[1..], stored, sofar, sofar');
    }
  }

  /** Where no group has a record, what is shared does not matter. */
  lemma {:induction false} NothingSeen(groups: seq<Group>, stored: Infos, shared: Option<int>, shared': Option<int>,
                                       open: int, now: int)
    requires DistinctGroups(groups) && AllClosed(stored) && NoneRecorded(groups, stored)
    ensures Schedule(groups, stored, shared, open, now) == Schedule(groups, stored, shared', open, now)
    decreases |groups|
  {
    if groups != [] {
      var g, rest := groups[0], groups[1..];
      assert g in groups && forall h | h in rest :: h in groups && h.id != g.id;
      if g.sticky {
        NothingSeen(rest, stored, shared, shared', open, now);
      } else if RunsOut(g, open, now) {
        NothingSeen(rest, stored[g.id := Closed(g, open)], shared, shared', Closed(g, open).closing.value, now);
      }
    }
  }

  /** The poll at `t1` comes to a limited group that it opens when the one before it ran out, while a group listed
      later has a record; and counted from the earlier of the two closing times the group has run out by `t2`. */
  ghost predicate Jumps(groups: seq<Group>, stored: Infos, start: int, t1: int, t2: int)
    requires AllClosed(stored)
  {
    var last := LastRow(groups, stored, ZERO_TIME);
    var halt := HaltOf(groups, stored, Some(last), start, false, false, t1);
    && halt.groups != [] && halt.passed && halt.recordAhead && halt.open != last
    && RunsOut(halt.groups[0], Earlier(halt.open, last), t2)
  }

  /** Polling twice leaves the records of the second poll alone exactly when the first does not jump. */
  lemma PollingTwiceIff(groups: seq<Group>, stored: Infos, start: int, t1: int, t2: int)
    requires DistinctGroups(groups) && AllClosed(stored) && t1 <= t2
    ensures Poll(groups, stored, start, t1).Play? && Poll(groups, stored, start, t2).Play?
    ensures Poll(groups, Poll(groups, stored, start, t1).stored, start, t2).Play?
    ensures var again := Poll(groups, Poll(groups, stored, start, t1).stored, start, t2).stored;
            again == Poll(groups, stored, start, t2).stored <==> !Jumps(groups, stored, start, t1, t2)
  {
    var shared := Shared(groups, stored);
    PollIsSchedule(groups, stored, start, t1);
    PollIsSchedule(groups, stored, start, t2);
    ScheduleGrows(groups, stored, shared, start, t1);
    var after := Poll(groups, stored, start, t1).stored;
    var next := LastRow(groups, after, ZERO_TIME);
    PollIsSchedule(groups, after, start, t2);
    GoesOn(groups, stored, shared, start, false, false, t1, t2);
    ComesBack(groups, stored, shared, start, false, false, t1, after, next, start, t2);
    HaltIsOpen(groups, stored, shared, start, false, false, t1);
    HaltAgrees(groups, stored, shared, start, false, false, t1);
    LastRowAfter(groups, stored, shared.value, start, false, false, t1, ZERO_TIME, ZERO_TIME);
    HaltBeforeAny(groups, stored, shared, start, false, t1);
    var halt := HaltOf(groups, stored, shared, start, false, false, t1);
    var open' := if halt.passed then next else start;
    if halt.groups != [] && halt.open != open' {
      OpensTwice(halt.groups, after, shared, halt.open, Some(next), open', t2);
    } else if halt.groups != [] && Some(next) != shared {
      NothingSeen(halt.groups, after, shared, Some(next), halt.open, t2);
    }
  }

  /** Whether a later poll jumps does not depend on an earlier one that does not. */
  lemma JumpsAreLasting(groups: seq<Group>, stored: Infos, start: int, t1: int, t: int, t2: int)
    requires DistinctGroups(groups) && AllClosed(stored) && t1 <= t <= t2
    requires !Jumps(groups, stored, start, t1, t2)
    ensures Poll(groups, stored, start, t1).Play? && AllClosed(Poll(groups, stored, start, t1).stored)
    ensures Jumps(groups, Poll(groups, stored, start, t1).stored, start, t, t2) <==> Jumps(groups, stored, start, t, t2)
  {
    PollIsSchedule(groups, stored, start, t1);
    ScheduleGrows(groups, stored, Shared(groups, stored), start, t1);
    assert !Jumps(groups, stored, start, t1, t);
    PollingTwiceIff(groups, stored, start, t1, t2);
    PollingTwiceIff(groups, stored, start, t1, t);
    PollingTwiceIff(groups, stored, start, t, t2);
    PollingTwiceIff(groups, Poll(groups, stored, start, t1).stored, start, t, t2);
  }

  /** Some time of the run, other than the last, jumps, seen from the records before the run. */
  ghost predicate SomeTimeJumps(groups: seq<Group>, stored: Infos, start: int, times: seq<int>)
    requires AllClosed(stored)
  {
    exists i :: 0 <= i < |times| - 1 && Jumps(groups, stored, start, times[i], times[|times| - 1])
  }

  lemma FirstOrLaterJumps(groups: seq<Group>, stored: Infos, start: int, times: seq<int>)
    requires DistinctGroups(groups) && AllClosed(stored) && |times| > 1 && Nondecreasing(times)
    requires !Jumps(groups, stored, start, times[0], times[|times| - 1])
    ensures Poll(groups, stored, start, times[0]).Play? && AllClosed(Poll(groups, stored, start, times[0]).stored)
    ensures SomeTimeJumps(groups, stored, start, times) <==>
            SomeTimeJumps(groups, Poll(groups, stored, start, times[0]).stored, start, times[1..])
  {
    var last := times[|times| - 1];
    JumpsAreLasting(groups, stored, start, times[0], last, last);
    var after := Poll(groups, stored, start, times[0]).stored;
    forall i | 1 <= i < |times| - 1
      ensures Jumps(groups, after, start, times[i], last) <==> Jumps(groups, stored, start, times[i], last)
    {
      JumpsAreLasting(groups, stored, start, times[0], times[i], last);
    }
    if i :| 0 <= i < |times| - 1 && Jumps(groups, stored, start, times[i], last) {
      assert Jumps(groups, after, start, times[1..][i - 1], last);
    }
  }

  /** From any closed records, a run of polls at nondecreasing times leaves the records of the last one alone
      exactly when none of its times jumps. */
  lemma {:induction false} PathIndependentIff(groups: seq<Group>, stored: Infos, start: int, times: seq<int>)
    requires DistinctGroups(groups) && AllClosed(stored)
    requires times != [] && Nondecreasing(times)
    ensures Poll(groups, stored, start, times[|times| - 1]).Play?
    ensures Polled(groups, stored, start, times) == Poll(groups, stored, start, times[|times| - 1]).stored <==>
            !SomeTimeJumps(groups, stored, start, times)
    decreases |times|
  {
    var last := times[|times| - 1];
    PollingTwiceIff(groups, stored, start, times[0], last);
    if |times| == 1 {
      assert times[1..] == [];
    } else if Jumps(groups, stored, start, times[0], last) {
      assert times[1..][|times| - 2] == last;
      JumpIsFinal(groups, stored, start, times[0], times[1..]);
    } else {
      FirstOrLaterJumps(groups, stored, start, times);
      PathIndependentIff(groups, Poll(groups, stored, start, times[0]).stored, start, times[1..]);
    }
  }

  /** The group a poll has jumped on is recorded by the later polls with the other opening time, or not at all. */
  lemma JumpIsFinal(groups: seq<Group>, stored: Infos, start: int, t1: int, times: seq<int>)
    requires DistinctGroups(groups) && AllClosed(stored) && Nondecreasing(times)
    requires times != [] && t1 <= times[|times| - 1]
    requires Poll(groups, stored, start, t1).Play? && Jumps(groups, stored, start, t1, times[|times| - 1])
    ensures Poll(groups, stored, start, times[|times| - 1]).Play?
    ensures Polled(groups, Poll(groups, stored, start, t1).stored, start, times) !=
            Poll(groups, stored, start, times[|times| - 1]).stored
  {
    LastRowAfter(groups, stored, LastRow(groups, stored, ZERO_TIME), start, false, false, t1, ZERO_TIME, ZERO_TIME);
    PollIsSchedule(groups, stored, start, t1);
    LaterPollsOpenAt(groups, stored, start, t1, times);
    OnePollOpensAt(groups, stored, start, t1, times[|times| - 1]);
  }

  /** One later poll records the group at the halt as opened when the earlier one would have opened it. */
  lemma OnePollOpensAt(groups: seq<Group>, stored: Infos, start: int, t1: int, t2: int)
    requires DistinctGroups(groups) && AllClosed(stored) && t1 <= t2
    requires HaltOf(groups, stored, Shared(groups, stored), start, false, false, t1).groups != []
    ensures Poll(groups, stored, start, t2).Play?
    ensures var halt := HaltOf(groups, stored, Shared(groups, stored), start, false, false, t1);
            Lookup(Poll(groups, stored, start, t2).stored, halt.groups[0].id) ==
              if RunsOut(halt.groups[0], halt.open, t2) then Some(Closed(halt.groups[0], halt.open)) else None
  {
    var shared := Shared(groups, stored);
    PollIsSchedule(groups, stored, start, t2);
    ScheduleGrows(groups, stored, shared, start, t1);
    HaltIsOpen(groups, stored, shared, start, false, false, t1);
    GoesOn(groups, stored, shared, start, false, false, t1, t2);
    var halt := HaltOf(groups, stored, shared, start, false, false, t1);
    RunsOutIsKept(halt.groups, Schedule(groups, stored, shared, start, t1).stored, shared, halt.open, t2);
  }

  /** Polls after a halt open the group there at the time then shared. */
  lemma {:induction false} LaterPollsOpenAt(groups: seq<Group>, stored: Infos, start: int, t1: int, times: seq<int>)
    requires DistinctGroups(groups) && AllClosed(stored) && Nondecreasing(times)
    requires Poll(groups, stored, start, t1).Play?
    requires HaltOf(groups, stored, Shared(groups, stored), start, false, false, t1).groups != []
    requires HaltOf(groups, stored, Shared(groups, stored), start, false, false, t1).passed
    ensures var g := HaltOf(groups, stored, Shared(groups, stored), start, false, false, t1).groups[0];
            var after := Poll(groups, stored, start, t1).stored;
            var next := LastRow(groups, after, ZERO_TIME);
            Lookup(Polled(groups, after, start, times), g.id) ==
              if times != [] && RunsOut(g, next, times[|times| - 1]) then Some(Closed(g, next)) else None
    decreases |times|
  {
    var shared := Shared(groups, stored);
    PollIsSchedule(groups, stored, start, t1);
    ScheduleGrows(groups, stored, shared, start, t1);
    HaltIsOpen(groups, stored, shared, start, false, false, t1);
    if times != [] {
      var after := Poll(groups, stored, start, t1).stored;
      var next := LastRow(groups, after, ZERO_TIME);
      var halt := HaltOf(groups, stored, shared, start, false, false, t1);
      PollIsSchedule(groups, after, start, times[0]);
      ComesBack(groups, stored, shared, start, false, false, t1, after, next, start, times[0]);
      RunsOutIsKept(halt.groups, after, Some(next), next, times[0]);
      if RunsOut(halt.groups[0], next, times[0]) {
        ScheduleGrows(groups, after, Some(next), start, times[0]);
        PollsKeepRecords(groups, Poll(groups, after, start, times[0]).stored, start, times[1..], halt.groups[0].id);
      } else {
        LaterPollsOpenAt(groups, stored, start, t1, times[1..]);
      }
    }
  }

  lemma {:induction false} PollsKeepRecords(groups: seq<Group>, stored: Infos, start: int, times: seq<int>, id: GroupID)
    requires DistinctGroups(groups) && AllClosed(stored) && id in stored
    ensures Lookup(Polled(groups, stored, start, times), id) == Some(stored[id])
    decreases |times|
  {
    if times != [] {
      PollIsSchedule(groups, stored, start, times[0]);
      ScheduleGrows(groups, stored, Shared(groups, stored), start, times[0]);
      PollsKeepRecords(groups, Poll(groups, stored, start, times[0]).stored, start, times[1..], id);
    }
  }

  // ---------------------------------------------------------------- when groups open and close

  ghost function Timed(groups: seq<Group>): seq<Group> {
    if groups == [] then []
    else if groups[0].sticky then Timed(groups[1..])
    else [groups[0]] + Timed(groups[1..])
  }

  /** When group `i` of the timed groups opens, given the records of the ones before it. */
  ghost function OpensAt(timed: seq<Group>, records: Infos, open: int, i: nat): int {
    if i == 0 || i > |timed| || timed[i - 1].id !in records || records[timed[i - 1].id].closing.None? then open
    else records[timed[i - 1].id].closing.value
  }

  /** The recorded groups are the first `k` timed ones; each opened when its predecessor closed (the first at
      `open`) and closed when its limit ran out, and the next one's limit has not run out yet. */
  ghost predicate Chained(timed: seq<Group>, records: Infos, open: int, now: int, k: nat) {
    && k <= |timed|
    && (forall i | 0 <= i < k :: timed[i].Limited() && timed[i].id in records &&
          records[timed[i].id] == TeamInfo(OpensAt(timed, records, open, i),
                                           Some(OpensAt(timed, records, open, i) + timed[i].timeLimit.value)) &&
          records[timed[i].id].closing.value < now)
    && (forall i | k <= i < |timed| :: timed[i].id !in records)
    && (k < |timed| && timed[k].Limited() ==> now <= OpensAt(timed, records, open, k) + timed[k].timeLimit.value)
  }

  /** Some first stretch of the timed groups is recorded in this way. */
  ghost predicate IsChain(timed: seq<Group>, records: Infos, open: int, now: int) {
    exists k :: Chained(timed, records, open, now, k)
  }

  lemma {:induction false} TimedMembers(groups: seq<Group>)
    ensures forall g :: g in Timed(groups) <==> g in groups && !g.sticky
    ensures DistinctGroups(groups) ==> DistinctGroups(Timed(groups))
    decreases |groups|
  {
    if groups != [] {
      TimedMembers(groups[1..]);
      var rest := Timed(groups[1..]);
      assert forall g | g in rest :: g in groups[1..];
      assert forall i | 0 <= i < |rest| :: rest[i] in rest;
    }
  }

  lemma {:induction false} ScheduleChains(groups: seq<Group>, stored: Infos, open: int, now: int) returns (k: nat)
    requires AllClosed(stored) && DistinctGroups(groups)
    requires NoneRecorded(groups, stored)
    ensures Schedule(groups, stored, None, open, now).Play?
    ensures Chained(Timed(groups), Schedule(groups, stored, None, open, now).stored, open, now, k)
    decreases |groups|
  {
    if groups == [] {
      return 0;
    }
    var g, rest := groups[0], groups[1..];
    assert g in groups && forall h | h in rest :: h in groups && h.id != g.id;
    if g.sticky {
      k := ScheduleChains(rest, stored, open, now);
      SameChain(Timed(rest), Timed(groups), Schedule(rest, stored, None, open, now).stored,
                Schedule(groups, stored, None, open, now).stored, open, now, k);
    } else if g.Limited() && open + g.timeLimit.value < now {
      var closed := TeamInfo(open, Some(open + g.timeLimit.value));
      k := ScheduleChains(rest, stored[g.id := closed], closed.closing.value, now);
      k := ChainAfterClose(groups, stored, closed, now, k);
    } else {
      NothingChained(groups, stored, open, now);
      k := 0;
    }
  }

  lemma ChainAfterClose(groups: seq<Group>, stored: Infos, closed: TeamInfo, now: int, j: nat) returns (k: nat)
    requires groups != [] && !groups[0].sticky && groups[0].Limited() && AllClosed(stored) && groups[0].id !in stored
    requires closed.closing == Some(closed.opening + groups[0].timeLimit.value) && closed.closing.value < now
    requires Schedule(groups[1..], stored[groups[0].id := closed], None, closed.closing.value, now).Play?
    requires Chained(Timed(groups[1..]),
                     Schedule(groups[1..], stored[groups[0].id := closed], None, closed.closing.value, now).stored,
                     closed.closing.value, now, j)
    ensures Schedule(groups, stored, None, closed.opening, now).Play?
    ensures Chained(Timed(groups), Schedule(groups, stored, None, closed.opening, now).stored, closed.opening, now, k)
  {
    var g, rest := groups[0], groups[1..];
    var records := Schedule(rest, stored[g.id := closed], None, closed.closing.value, now).stored;
    ScheduleAfterClose(groups, stored, closed, now);
    assert g.id in records && records[g.id] == closed;
    ChainedCons(g, Timed(rest), records, closed.opening, now, j);
    k := j + 1;
    assert Timed(groups) == [g] + Timed(rest);
  }

  lemma ScheduleAfterClose(groups: seq<Group>, stored: Infos, closed: TeamInfo, now: int)
    requires groups != [] && !groups[0].sticky && groups[0].Limited() && AllClosed(stored) && groups[0].id !in stored
    requires closed.closing == Some(closed.opening + groups[0].timeLimit.value) && closed.closing.value < now
    requires AllClosed(stored[groups[0].id := closed])
    ensures var after := Schedule(groups[1..], stored[groups[0].id := closed], None, closed.closing.value, now);
            && after.Play? && Lookup(after.stored, groups[0].id) == Some(closed)
            && Schedule(groups, stored, None, closed.opening, now) == Before([Shown(groups[0], Some(closed))], after)
  {
    ScheduleGrows(groups[1..], stored[groups[0].id := closed], None, closed.closing.value, now);
  }

  lemma SameChain(timed: seq<Group>, timed': seq<Group>, records: Infos, records': Infos, open: int, now: int, k: nat)
    requires timed == timed' && records == records' && Chained(timed, records, open, now, k)
    ensures Chained(timed', records', open, now, k)
  {
  }

  lemma NothingChained(groups: seq<Group>, stored: Infos, open: int, now: int)
    requires groups != [] && !groups[0].sticky && NoneRecorded(groups, stored)
    requires groups[0].Limited() ==> now <= open + groups[0].timeLimit.value
    ensures Chained(Timed(groups), stored, open, now, 0)
  {
    TimedMembers(groups);
    var timed := Timed(groups);
    assert forall i | 0 <= i < |timed| :: timed[i] in timed;
  }

  lemma ChainedCons(g: Group, rest: seq<Group>, records: Infos, open: int, now: int, k: nat)
    requires g.Limited() && g.id in records
    requires records[g.id] == TeamInfo(open, Some(open + g.timeLimit.value)) && open + g.timeLimit.value < now
    requires Chained(rest, records, open + g.timeLimit.value, now, k)
    ensures Chained([g] + rest, records, open, now, k + 1)
  {
    var timed := [g] + rest;
    assert forall i | 1 <= i <= |rest| :: timed[i] == rest[i - 1];
    forall i | 1 <= i <= k + 1
      ensures OpensAt(timed, records, open, i) == OpensAt(rest, records, open + g.timeLimit.value, i - 1)
    {
      if i > 1 {
        assert rest[i - 2].id in records && timed[i - 1] == rest[i - 2];
      }
    }
  }

  /** From no records, a poll closes a prefix of the timed groups, each opening when its predecessor closes. */
  lemma PollChainsGroups(groups: seq<Group>, start: int, now: int)
    requires DistinctGroups(groups)
    ensures Poll(groups, map[], start, now).Play?
    ensures IsChain(Timed(groups), Poll(groups, map[], start, now).stored, start, now)
  {
    NothingToShare(groups, map[], ZERO_TIME);
    RecordedFirstIsHarmless(groups, map[], start, now);
    var k := ScheduleChains(groups, map[], start, now);
  }
}
