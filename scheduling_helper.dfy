/** Helpers around the scheduler: generating a regular grid of time slots, grouping slots
    into named blocks, and summarising a schedule. */
module SchedulingHelper {
  import opened Wrappers
  import opened Collections
  import opened Models

  // ---------------------------------------------------------------------------
  // Standard time slots

  /** The start hours visited by `hour = h; while hour < end: ...; hour += step`. */
  function HoursFrom(h: int, end: int, step: int): (r: seq<int>)
    requires step >= 1 || end <= h
    ensures r == [] <==> end <= h
    ensures forall k | 0 <= k < |r| :: r[k] == h + k * step && r[k] < end
    ensures forall j, k | 0 <= j < k < |r| && k == j + 1 :: r[k] == r[j] + step
    ensures r != [] ==> r[|r| - 1] + step >= end
    decreases end - h
  {
    if h < end then
      var rest := HoursFrom(h + step, end, step);
      assert forall k | 1 <= k < |rest| + 1 :: ([h] + rest)[k] == rest[k - 1];
      forall k | 1 <= k < |rest| + 1
        ensures h + step + (k - 1) * step == h + k * step
      {
        MulSucc(k - 1, step);
      }
      [h] + rest
    else []
  }

  /** One slot per start hour on `day`, each on the hour and `duration` minutes long. */
  function DaySlots(day: DayOfWeek, hours: seq<int>, duration: int): (r: seq<TimeSlot>)
    ensures |r| == |hours|
    ensures forall t :: t in r <==> t.day == day && t.startHour in hours && t.startMinute == 0 &&
                                      t.durationMinutes == duration
  {
    var r := seq(|hours|, k requires 0 <= k < |hours| => TimeSlot(day, hours[k], 0, duration));
    assert forall t: TimeSlot | t.day == day && t.startHour in hours && t.startMinute == 0 &&
                                t.durationMinutes == duration :: t in r by {
      forall t: TimeSlot | t.day == day && t.startHour in hours && t.startMinute == 0 && t.durationMinutes == duration
        ensures t in r
      {
        var k :| 0 <= k < |hours| && hours[k] == t.startHour;
        assert r[k] == t;
      }
    }
    r
  }

  /** One more start hour adds its slot at the end of the day. */
  lemma DaySlotsSnoc(day: DayOfWeek, hours: seq<int>, hour: int, duration: int)
    ensures DaySlots(day, hours + [hour], duration) == DaySlots(day, hours, duration) + [TimeSlot(day, hour, 0, duration)]
  {
    var r, r' := DaySlots(day, hours + [hour], duration), DaySlots(day, hours, duration);
    assert forall k | 0 <= k < |hours| :: r[k] == r'[k];
  }

  /** The slots of the day-major grid: for each day in order, the slots of that day. */
  function StandardSlots(startHour: int, endHour: int, slotDuration: int, days: seq<DayOfWeek>): (r: seq<TimeSlot>)
    requires days == [] || endHour <= startHour || slotDuration >= 60
    ensures |r| == |days| * (if days == [] then 0 else |HoursFrom(startHour, endHour, slotDuration / 60)|)
    ensures forall t :: t in r <==>
              t.day in days && t.startMinute == 0 && t.durationMinutes == slotDuration &&
              t.startHour in HoursFrom(startHour, endHour, slotDuration / 60)
    decreases |days|
  {
    if days == [] then []
    else
      var init := days[..|days| - 1];
      var day := days[|days| - 1];
      assert days == init + [day];
      var hours := HoursFrom(startHour, endHour, slotDuration / 60);
      MulSucc(|init|, |hours|);
      var earlier, today := StandardSlots(startHour, endHour, slotDuration, init), DaySlots(day, hours, slotDuration);
      assert forall t :: t in earlier + today <==> t in earlier || t in today;
      assert forall x :: x in days <==> x in init || x == day;
      earlier + today
  }

  /** Adding a day appends that day's slots to the grid. */
  lemma StandardSlotsSnoc(startHour: int, endHour: int, slotDuration: int, days: seq<DayOfWeek>, day: DayOfWeek)
    requires endHour <= startHour || slotDuration >= 60
    ensures StandardSlots(startHour, endHour, slotDuration, days + [day]) ==
            StandardSlots(startHour, endHour, slotDuration, days) +
            DaySlots(day, HoursFrom(startHour, endHour, slotDuration / 60), slotDuration)
  {
    assert (days + [day])[..|days|] == days;
  }

  /** One pass of the day loop: the grid of the first `d` days plus the slots of day `d` is
      the grid of the first `d + 1` days. */
  lemma GridStep(startHour: int, endHour: int, slotDuration: int, days: seq<DayOfWeek>, d: nat,
                 slots: seq<TimeSlot>, daySlots: seq<TimeSlot>)
    requires d < |days|
    requires endHour <= startHour || slotDuration >= 60
    requires slots == StandardSlots(startHour, endHour, slotDuration, days[..d])
    requires daySlots == DaySlots(days[d], HoursFrom(startHour, endHour, slotDuration / 60), slotDuration)
    ensures slots + daySlots == StandardSlots(startHour, endHour, slotDuration, days[..d + 1])
  {
    assert days[..d + 1] == days[..d] + [days[d]];
    StandardSlotsSnoc(startHour, endHour, slotDuration, days[..d], days[d]);
  }

  /** Multiplication distributes over a successor: `(a + 1) * b` is `a * b + b`. */
  lemma MulSucc(a: nat, b: nat)
    ensures a * b + b == (a + 1) * b
  {
  }

  /** Monday to Friday, the days used when none are given. */
  function DefaultDays(): seq<DayOfWeek> {
    [Monday, Tuesday, Wednesday, Thursday, Friday]
  }

  /** The hour loop of one day: from `startHour`, one slot per hour while before `endHour`,
      advancing by the whole hours of `slotDuration`. */
  method HourSlots(day: DayOfWeek, startHour: int, endHour: int, slotDuration: int) returns (slots: seq<TimeSlot>)
    requires endHour <= startHour || slotDuration >= 60
    ensures slots == DaySlots(day, HoursFrom(startHour, endHour, slotDuration / 60), slotDuration)
  {
    var step := slotDuration / 60;
    ghost var hours := HoursFrom(startHour, endHour, step);
    slots := [];
    var hour := startHour;
    ghost var n := 0;
    while hour < endHour
      invariant 0 <= n <= |hours|
      invariant n < |hours| ==> hour == hours[n]
      invariant n == |hours| ==> hour >= endHour
      invariant slots == DaySlots(day, hours[..n], slotDuration)
      decreases endHour - hour
    {
      assert step >= 1;
      if n + 1 < |hours| {
        assert hours[n + 1] == hour + step;
      } else {
        assert hour + step >= endHour;
      }
      assert hours[..n + 1] == hours[..n] + [hour];
      DaySlotsSnoc(day, hours[..n], hour, slotDuration);
      slots := slots + [TimeSlot(day, hour, 0, slotDuration)];
      hour := hour + step;
      n := n + 1;
    }
    assert hours[..n] == hours;
  }

  /** Builds the grid of slots: for each day (Monday to Friday when none are given), one slot
      per start hour from `startHour` while before `endHour`, advancing by whole hours of
      `slotDuration`. The hour loop stops only when it advances, so the days must be empty,
      the range empty, or the duration at least an hour. */
  method CreateStandardTimeSlots(startHour: int, endHour: int, slotDuration: int, days: Option<seq<DayOfWeek>>)
    returns (slots: seq<TimeSlot>)
    requires days.GetOr(DefaultDays()) == [] || endHour <= startHour || slotDuration >= 60
    ensures slots == StandardSlots(startHour, endHour, slotDuration, days.GetOr(DefaultDays()))
  {
    var dayList := if days.None? then DefaultDays() else days.value;
    assert dayList == days.GetOr(DefaultDays());
    slots := [];
    var d := 0;
    while d < |dayList|
      invariant 0 <= d <= |dayList|
      invariant d == 0 || endHour <= startHour || slotDuration >= 60
      invariant slots == StandardSlots(startHour, endHour, slotDuration, dayList[..d])
    {
      assert endHour <= startHour || slotDuration >= 60;
      var daySlots := HourSlots(dayList[d], startHour, endHour, slotDuration);
      GridStep(startHour, endHour, slotDuration, dayList, d, slots, daySlots);
      slots := slots + daySlots;
      d := d + 1;
    }
    assert dayList[..d] == dayList;
  }

  /** The default grid: ten hourly slots from 8:00 on each of the five weekdays. */
  lemma DefaultGridSize()
    ensures |StandardSlots(8, 18, 60, DefaultDays())| == 50
  {
    var hours := HoursFrom(8, 18, 1);
    assert hours[|hours| - 1] == 8 + (|hours| - 1);
  }

  // ---------------------------------------------------------------------------
  // Blocks

  /** A block definition: a name and the hours `[startHour, endHour)` its slots start in. */
  datatype BlockDefinition = BlockDefinition(name: string, startHour: int, endHour: int)

  function LowerChar(c: char): char {
    if 'A' <= c <= 'Z' then (c as int + 32) as char else c
  }

  /** A block's id: its name lower-cased, with every space replaced by an underscore. */
  function BlockId(name: string): (id: string)
    ensures |id| == |name|
    ensures forall k | 0 <= k < |id| :: id[k] != ' ' && !('A' <= id[k] <= 'Z')
    ensures forall k | 0 <= k < |id| :: name[k] != ' ' && !('A' <= name[k] <= 'Z') ==> id[k] == name[k]
    ensures forall k | 0 <= k < |id| :: 'A' <= name[k] <= 'Z' ==> id[k] as int == name[k] as int + 32
    ensures forall k | 0 <= k < |id| :: name[k] == ' ' ==> id[k] == '_'
  {
    seq(|name|, k requires 0 <= k < |name| => if name[k] == ' ' then '_' else LowerChar(name[k]))
  }

  /** The slots, in order, that start in the hours `[startHour, endHour)`. */
  function SlotsBetween(slots: seq<TimeSlot>, startHour: int, endHour: int): (r: seq<TimeSlot>)
    ensures forall t :: t in r <==> t in slots && startHour <= t.startHour < endHour
    ensures IsSubsequence(r, slots)
    ensures forall t :: multiset(r)[t] == if startHour <= t.startHour < endHour then multiset(slots)[t] else 0
  {
    Filter(slots, (t: TimeSlot) => startHour <= t.startHour < endHour)
  }

  /** The definitions, in order, that catch at least one of `slots`, each as often as it is
      listed. */
  function CatchingDefinitions(slots: seq<TimeSlot>, definitions: seq<BlockDefinition>): (r: seq<BlockDefinition>)
    ensures |r| <= |definitions|
    ensures forall d :: d in r <==> d in definitions && SlotsBetween(slots, d.startHour, d.endHour) != []
    ensures IsSubsequence(r, definitions)
    decreases |definitions|
  {
    if definitions == [] then []
    else
      var init := definitions[..|definitions| - 1];
      var d := definitions[|definitions| - 1];
      assert definitions == init + [d];
      var catches := SlotsBetween(slots, d.startHour, d.endHour) != [];
      var rest := CatchingDefinitions(slots, init);
      SubsequenceSnoc(rest, init, d, catches);
      rest + (if catches then [d] else [])
  }

  /** Counts kept by the catching filter stay right when one more definition is filtered. */
  lemma CountsSnoc(slots: seq<TimeSlot>, kept: seq<BlockDefinition>, definitions: seq<BlockDefinition>, d: BlockDefinition)
    requires forall e :: multiset(kept)[e] ==
                           if SlotsBetween(slots, e.startHour, e.endHour) != [] then multiset(definitions)[e] else 0
    ensures forall e :: multiset(kept + (if SlotsBetween(slots, d.startHour, d.endHour) != [] then [d] else []))[e] ==
                          if SlotsBetween(slots, e.startHour, e.endHour) != [] then multiset(definitions + [d])[e] else 0
  {
    assert multiset(definitions + [d]) == multiset(definitions) + multiset{d};
  }

  /** Each catching definition is kept as often as it is listed; the others not at all. */
  lemma {:induction false} CatchingCounts(slots: seq<TimeSlot>, definitions: seq<BlockDefinition>)
    ensures forall d :: multiset(CatchingDefinitions(slots, definitions))[d] ==
                          if SlotsBetween(slots, d.startHour, d.endHour) != [] then multiset(definitions)[d] else 0
    decreases |definitions|
  {
    if definitions != [] {
      var init := definitions[..|definitions| - 1];
      var last := definitions[|definitions| - 1];
      assert definitions == init + [last];
      CatchingCounts(slots, init);
      CatchingSnoc(slots, init, last);
      CountsSnoc(slots, CatchingDefinitions(slots, init), init, last);
    }
  }

  /** The block a definition makes of `slots`: its derived id, its name and its slots. */
  function BlockOf(slots: seq<TimeSlot>, d: BlockDefinition): Block {
    Block(BlockId(d.name), d.name, SlotsBetween(slots, d.startHour, d.endHour))
  }

  /** One block per definition, in definition order, holding the slots that start in its
      hours; a definition that catches no slot gives no block. */
  function BlocksFor(slots: seq<TimeSlot>, definitions: seq<BlockDefinition>): (r: seq<Block>)
    ensures |r| <= |definitions|
    ensures forall b | b in r ::
              b.timeSlots != [] && IsSubsequence(b.timeSlots, slots) &&
              exists d | d in definitions ::
                b.name == d.name && b.id == BlockId(d.name) && b.timeSlots == SlotsBetween(slots, d.startHour, d.endHour)
    ensures forall d | d in definitions && SlotsBetween(slots, d.startHour, d.endHour) != [] ::
              Block(BlockId(d.name), d.name, SlotsBetween(slots, d.startHour, d.endHour)) in r
    decreases |definitions|
  {
    if definitions == [] then []
    else
      var init := definitions[..|definitions| - 1];
      var d := definitions[|definitions| - 1];
      assert definitions == init + [d];
      var blockSlots := SlotsBetween(slots, d.startHour, d.endHour);
      BlocksFor(slots, init) + (if blockSlots != [] then [Block(BlockId(d.name), d.name, blockSlots)] else [])
  }

  /** Adding a definition adds its block at the end when it catches a slot, and nothing
      otherwise. */
  lemma BlocksForSnoc(slots: seq<TimeSlot>, definitions: seq<BlockDefinition>, d: BlockDefinition)
    ensures BlocksFor(slots, definitions + [d]) ==
            BlocksFor(slots, definitions) + (if SlotsBetween(slots, d.startHour, d.endHour) != [] then [BlockOf(slots, d)] else [])
  {
    assert (definitions + [d])[..|definitions|] == definitions;
  }

  /** Adding a definition keeps it at the end when it catches a slot, and nothing otherwise. */
  lemma CatchingSnoc(slots: seq<TimeSlot>, definitions: seq<BlockDefinition>, d: BlockDefinition)
    ensures CatchingDefinitions(slots, definitions + [d]) ==
            CatchingDefinitions(slots, definitions) + (if SlotsBetween(slots, d.startHour, d.endHour) != [] then [d] else [])
  {
    assert (definitions + [d])[..|definitions|] == definitions;
  }

  /** Blocks paired index by index with their definitions stay paired when a definition and
      its block are appended. */
  lemma PairedSnoc(slots: seq<TimeSlot>, blocks: seq<Block>, catching: seq<BlockDefinition>, d: BlockDefinition)
    requires |blocks| == |catching|
    requires forall k | 0 <= k < |blocks| :: blocks[k] == BlockOf(slots, catching[k])
    ensures |blocks + [BlockOf(slots, d)]| == |catching + [d]|
    ensures forall k | 0 <= k < |blocks| + 1 :: (blocks + [BlockOf(slots, d)])[k] == BlockOf(slots, (catching + [d])[k])
  {
  }

  /** The blocks correspond one to one, in order, to the definitions that catch a slot:
      the k-th block is the block of the k-th catching definition. */
  lemma {:induction false} BlocksOfCatching(slots: seq<TimeSlot>, definitions: seq<BlockDefinition>)
    ensures |BlocksFor(slots, definitions)| == |CatchingDefinitions(slots, definitions)|
    ensures forall k | 0 <= k < |BlocksFor(slots, definitions)| ::
              BlocksFor(slots, definitions)[k] == BlockOf(slots, CatchingDefinitions(slots, definitions)[k])
    decreases |definitions|
  {
    if definitions != [] {
      var init := definitions[..|definitions| - 1];
      var d := definitions[|definitions| - 1];
      assert definitions == init + [d];
      BlocksOfCatching(slots, init);
      BlocksForSnoc(slots, init, d);
      CatchingSnoc(slots, init, d);
      if SlotsBetween(slots, d.startHour, d.endHour) != [] {
        PairedSnoc(slots, BlocksFor(slots, init), CatchingDefinitions(slots, init), d);
      }
    }
  }

  /** Builds the blocks of `definitions` (taken in their insertion order) from `slots`. */
  method CreateBlocksFromSlots(slots: seq<TimeSlot>, definitions: seq<BlockDefinition>) returns (blocks: seq<Block>)
    ensures blocks == BlocksFor(slots, definitions)
  {
    blocks := [];
    var i := 0;
    while i < |definitions|
      invariant 0 <= i <= |definitions|
      invariant blocks == BlocksFor(slots, definitions[..i])
    {
      var d := definitions[i];
      var blockSlots := SlotsBetween(slots, d.startHour, d.endHour);
      if blockSlots != [] {
        blocks := blocks + [Block(BlockId(d.name), d.name, blockSlots)];
      }
      assert definitions[..i + 1][..i] == definitions[..i];
      i := i + 1;
    }
    assert definitions[..i] == definitions;
  }

  /** Block ids: "Morning" becomes "morning" and "Late Afternoon" becomes "late_afternoon". */
  lemma MorningBlockExample()
    ensures BlockId("Morning") == "morning"
    ensures BlockId("Late Afternoon") == "late_afternoon"
  {
  }

  // ---------------------------------------------------------------------------
  // Statistics

  /** The summary of a schedule; `isValid` is absent for an empty schedule. */
  datatype ScheduleStatistics = ScheduleStatistics(totalSessions: nat, roomsUsed: nat, lecturersUsed: nat,
                                                   weeksUsed: nat, isValid: Option<bool>)

  function RoomsOf(sessions: seq<ScheduledSession>): set<Room> {
    Image(sessions, (s: ScheduledSession) => s.room)
  }

  function WeeksOf(sessions: seq<ScheduledSession>): set<Week> {
    Image(sessions, (s: ScheduledSession) => s.week)
  }

  /** Every lecturer required by the subject of some session. */
  function LecturersOf(sessions: seq<ScheduledSession>): set<Lecturer> {
    set s, l | s in sessions && l in s.subject.requiredLecturers :: l
  }

  /** The loop that gathers, session by session, the lecturers each session's subject requires. */
  method CollectLecturers(sessions: seq<ScheduledSession>) returns (lecturers: set<Lecturer>)
    ensures lecturers == LecturersOf(sessions)
  {
    lecturers := {};
    var i := 0;
    while i < |sessions|
      invariant 0 <= i <= |sessions|
      invariant lecturers == LecturersOf(sessions[..i])
    {
      var added := set l | l in sessions[i].subject.requiredLecturers;
      assert sessions[..i + 1] == sessions[..i] + [sessions[i]];
      lecturers := lecturers + added;
      i := i + 1;
    }
    assert sessions[..i] == sessions;
  }

  /** Summarises a schedule: the number of sessions, of distinct rooms, lecturers and weeks
      used, and whether it is conflict free; all zero, with no validity entry, when empty. */
  method GetScheduleStatistics(schedule: Schedule) returns (stats: ScheduleStatistics)
    ensures schedule.sessions == [] ==> stats == ScheduleStatistics(0, 0, 0, 0, None)
    ensures schedule.sessions != [] ==>
              && stats.totalSessions == |schedule.sessions|
              && stats.roomsUsed == |RoomsOf(schedule.sessions)|
              && stats.lecturersUsed == |LecturersOf(schedule.sessions)|
              && stats.weeksUsed == |WeeksOf(schedule.sessions)|
              && stats.isValid == Some(PairwiseConflictFree(schedule.sessions))
    ensures schedule.sessions != [] ==>
              1 <= stats.roomsUsed <= stats.totalSessions && 1 <= stats.weeksUsed <= stats.totalSessions
  {
    var sessions := schedule.sessions;
    if sessions == [] {
      return ScheduleStatistics(0, 0, 0, 0, None);
    }
    var rooms := RoomsOf(sessions);
    var lecturers := CollectLecturers(sessions);
    var weeks := WeeksOf(sessions);
    var valid := schedule.IsValid();
    UsedBounds(sessions);
    return ScheduleStatistics(|sessions|, |rooms|, |lecturers|, |weeks|, Some(valid));
  }

  /** A non-empty schedule uses at least one and at most one room (and week) per session. */
  lemma UsedBounds(sessions: seq<ScheduledSession>)
    requires sessions != []
    ensures 1 <= |RoomsOf(sessions)| <= |sessions|
    ensures 1 <= |WeeksOf(sessions)| <= |sessions|
  {
    var rooms, weeks := RoomsOf(sessions), WeeksOf(sessions);
    assert sessions[0] in sessions;
    assert sessions[0].room in rooms;
    assert sessions[0].week in weeks;
    assert rooms != {} && weeks != {};
  }
}
