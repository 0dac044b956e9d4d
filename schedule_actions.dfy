/** The two callbacks of the table: a click on an empty cell reports a search target,
    the delete button of a block removes schedules through the state updater. */
module ScheduleActions {
  import opened Types
  import opened Seqs
  import TimeSlots

  /** `handleTimeClick(timeInfo)`: the value handed to `setSearchInfo`. */
  function TimeClick(tableId: string, day: string, time: int): (r: SearchInfo)
    ensures r.tableId == tableId && r.day == day && r.time == time
  {
    SearchInfo(tableId, day, time)
  }

  /** The click on the cell of `day` in row `timeIndex` (0-based) reports the row's
      1-based slot number, the number printed in the row header. */
  function CellClick(tableId: string, day: string, timeIndex: nat): (r: SearchInfo)
    requires timeIndex < |TimeSlots.Times()|
    ensures r.tableId == tableId && r.day == day
    ensures 1 <= r.time <= |TimeSlots.Times()|
    ensures TimeSlots.Times()[r.time - 1] == TimeSlots.Times()[timeIndex]
  {
    TimeClick(tableId, day, timeIndex + 1)
  }

  /** Different cells report different search targets. */
  lemma CellClickInjective(tableId: string, day1: string, i1: nat, day2: string, i2: nat)
    requires i1 < |TimeSlots.Times()| && i2 < |TimeSlots.Times()|
    requires CellClick(tableId, day1, i1) == CellClick(tableId, day2, i2)
    ensures day1 == day2 && i1 == i2
  {
  }

  /** `range.includes(time)`. A missing time (`undefined`) lies in no range. */
  predicate Covers(range: seq<int>, time: Option<int>)
    ensures time.None? ==> !Covers(range, time)
    ensures |range| == 0 ==> !Covers(range, time)
  {
    time.Some? && time.value in range
  }

  /** The filter's test: the schedule is on another day or does not cover the time. */
  predicate Kept(s: Schedule, day: string, time: Option<int>)
    ensures s.day != day ==> Kept(s, day, time)
    ensures time.None? ==> Kept(s, day, time)
    ensures !Kept(s, day, time) <==> s.day == day && time.Some? && time.value in s.range
  {
    s.day != day || !Covers(s.range, time)
  }

  /** `schedules.filter(s => s.day !== day || !s.range.includes(time))` */
  function KeepOthers(schedules: seq<Schedule>, day: string, time: Option<int>): (r: seq<Schedule>)
    ensures IsSubsequence(r, schedules)
    ensures forall s :: s in r ==> Kept(s, day, time)
  {
    if |schedules| == 0 then []
    else
      var rest := KeepOthers(schedules[1..], day, time);
      assert schedules == [schedules[0]] + schedules[1..];
      if Kept(schedules[0], day, time) then
        assert ([schedules[0]] + rest)[1..] == rest;
        [schedules[0]] + rest
      else
        rest
  }

  /** Every schedule that passes the test is kept as often as it occurs, and no other. */
  lemma {:induction false} KeepOthersCounts(schedules: seq<Schedule>, day: string, time: Option<int>, s: Schedule)
    ensures multiset(KeepOthers(schedules, day, time))[s] ==
            if Kept(s, day, time) then multiset(schedules)[s] else 0
  {
    if |schedules| > 0 {
      assert schedules == [schedules[0]] + schedules[1..];
      KeepOthersUnfold(schedules, day, time);
      KeepOthersCounts(schedules[1..], day, time, s);
    }
  }

  /** One step of the filter. */
  lemma KeepOthersUnfold(schedules: seq<Schedule>, day: string, time: Option<int>)
    requires |schedules| > 0
    ensures KeepOthers(schedules, day, time) ==
            (if Kept(schedules[0], day, time) then [schedules[0]] else []) + KeepOthers(schedules[1..], day, time)
  {
  }

  /** The filter works element by element, so it keeps the order of what it keeps. */
  lemma {:induction false} KeepOthersConcat(a: seq<Schedule>, b: seq<Schedule>, day: string, time: Option<int>)
    ensures KeepOthers(a + b, day, time) == KeepOthers(a, day, time) + KeepOthers(b, day, time)
  {
    if |a| > 0 {
      var ab, tail := a + b, a[1..];
      assert ab[0] == a[0] && ab[1..] == tail + b;
      var head := if Kept(a[0], day, time) then [a[0]] else [];
      KeepOthersUnfold(ab, day, time);
      KeepOthersUnfold(a, day, time);
      KeepOthersConcat(tail, b, day, time);
      var kt, kb := KeepOthers(tail, day, time), KeepOthers(b, day, time);
      assert KeepOthers(ab, day, time) == head + (kt + kb);
      assert KeepOthers(a, day, time) == head + kt;
      assert head + (kt + kb) == (head + kt) + kb;
    } else {
      assert a + b == b;
    }
  }

  /** When every schedule passes the test the list comes back unchanged. */
  lemma {:induction false} KeepOthersAllKept(schedules: seq<Schedule>, day: string, time: Option<int>)
    requires forall s :: s in schedules ==> Kept(s, day, time)
    ensures KeepOthers(schedules, day, time) == schedules
  {
    if |schedules| > 0 {
      assert schedules[0] in schedules;
      KeepOthersAllKept(schedules[1..], day, time);
      assert schedules == [schedules[0]] + schedules[1..];
    }
  }

  /** The updater passed to `setSchedulesMap` by `handleDeleteButtonClick({ day, time })`:
      the table's list is filtered, every other entry stays. The table must be in the map
      (`prev[tableId].filter` fails on a missing one). */
  function DeleteSchedules(m: SchedulesMap, tableId: string, day: string, time: Option<int>): (r: SchedulesMap)
    requires tableId in m
    ensures r.Keys == m.Keys
    ensures forall t :: t in m && t != tableId ==> r[t] == m[t]
    ensures r[tableId] == KeepOthers(m[tableId], day, time)
  {
    m[tableId := KeepOthers(m[tableId], day, time)]
  }

  /** After a delete the table holds exactly the schedules that pass the test. */
  lemma DeleteKeepsExactly(m: SchedulesMap, tableId: string, day: string, time: Option<int>, s: Schedule)
    requires tableId in m
    ensures s in DeleteSchedules(m, tableId, day, time)[tableId] <==> s in m[tableId] && Kept(s, day, time)
  {
    var r := DeleteSchedules(m, tableId, day, time)[tableId];
    KeepOthersCounts(m[tableId], day, time, s);
    assert s in r <==> multiset(r)[s] > 0;
    assert s in m[tableId] <==> multiset(m[tableId])[s] > 0;
  }

  /** Deleting twice is deleting once. */
  lemma DeleteIdempotent(m: SchedulesMap, tableId: string, day: string, time: Option<int>)
    requires tableId in m
    ensures var once := DeleteSchedules(m, tableId, day, time);
            DeleteSchedules(once, tableId, day, time) == once
  {
    var once := DeleteSchedules(m, tableId, day, time);
    KeepOthersAllKept(once[tableId], day, time);
  }

  /** A delete with no time (`undefined`) leaves the state as it was. */
  lemma DeleteWithoutTimeKeepsAll(m: SchedulesMap, tableId: string, day: string)
    requires tableId in m
    ensures DeleteSchedules(m, tableId, day, None) == m
  {
    KeepOthersAllKept(m[tableId], day, None);
  }

  /** The delete button of a block: day and first slot of the block's own schedule. */
  function DeleteBlock(m: SchedulesMap, tableId: string, block: Schedule): (r: SchedulesMap)
    requires tableId in m
    ensures r.Keys == m.Keys
    ensures forall t :: t in m && t != tableId ==> r[t] == m[t]
    ensures IsSubsequence(r[tableId], m[tableId])
  {
    var time := if |block.range| > 0 then Some(block.range[0]) else None;
    DeleteSchedules(m, tableId, block.day, time)
  }

  /** Deleting from a block removes that block's schedule and every schedule of the same
      day that covers its first slot, and keeps every other schedule. */
  lemma DeleteBlockRemovesClicked(m: SchedulesMap, tableId: string, block: Schedule, s: Schedule)
    requires tableId in m && |block.range| > 0
    ensures block !in DeleteBlock(m, tableId, block)[tableId]
    ensures s in DeleteBlock(m, tableId, block)[tableId] <==>
            s in m[tableId] && (s.day != block.day || block.range[0] !in s.range)
  {
    DeleteKeepsExactly(m, tableId, block.day, Some(block.range[0]), block);
    DeleteKeepsExactly(m, tableId, block.day, Some(block.range[0]), s);
  }

  /** A block with an empty range deletes nothing. */
  lemma DeleteEmptyBlockKeepsAll(m: SchedulesMap, tableId: string, block: Schedule)
    requires tableId in m && |block.range| == 0
    ensures DeleteBlock(m, tableId, block) == m
  {
    DeleteWithoutTimeKeepsAll(m, tableId, block.day);
  }
}
