/** The timetable data model: time slots and their overlap, rooms, lecturers and their
    slot-based availability, subjects, blocks, weeks, scheduled sessions and the conflict
    rule between them, and the schedule (an ordered list of sessions) with its guarded
    insertion, removal, queries and validity check.

    Entities are values: two entities are equal exactly when all their fields are equal,
    as for the source's dataclasses. */
module Models {
  import opened Wrappers
  import opened Collections

  datatype DayOfWeek = Monday | Tuesday | Wednesday | Thursday | Friday | Saturday | Sunday

  /** A slot on one weekday: a start time (hour and minute) and a length in minutes. */
  datatype TimeSlot = TimeSlot(day: DayOfWeek, startHour: int, startMinute: int, durationMinutes: int)
  {
    /** Start, in minutes since midnight. */
    function Start(): int { startHour * 60 + startMinute }

    /** End (exclusive), in minutes since midnight. */
    function End(): int { Start() + durationMinutes }

    /** Minute `m` of the day lies in the half-open interval [Start(), End()). */
    predicate Covers(m: int) { Start() <= m < End() }

    /** Two slots overlap when they fall on the same day and their minute intervals
        intersect. For slots of positive length this means exactly that some minute of
        that day lies in both. */
    function OverlapsWith(other: TimeSlot): (r: bool)
      ensures day != other.day ==> !r
      ensures durationMinutes > 0 && other.durationMinutes > 0 ==>
                (r <==> day == other.day && exists m :: Covers(m) && other.Covers(m))
    {
      if day != other.day then false
      else
        var latest := if Start() <= other.Start() then other.Start() else Start();
        assert durationMinutes > 0 && other.durationMinutes > 0 &&
               !(End() <= other.Start() || other.End() <= Start()) ==>
                 Covers(latest) && other.Covers(latest);
        !(End() <= other.Start() || other.End() <= Start())
    }

    /** This slot lies entirely inside `window`, on the same day. */
    predicate Within(window: TimeSlot) {
      day == window.day && window.Start() <= Start() && End() <= window.End()
    }
  }

  lemma OverlapsSymmetric(a: TimeSlot, b: TimeSlot)
    ensures a.OverlapsWith(b) == b.OverlapsWith(a)
  {
  }

  lemma OverlapsSelf(a: TimeSlot)
    ensures a.OverlapsWith(a) <==> a.durationMinutes > 0
  {
  }

  datatype Room = Room(id: string, name: string, capacity: int, features: set<string>)

  /** True when some slot of `windows` contains `slot`; scans the windows in order,
      skipping those on another day. */
  function SomeWindowContains(windows: seq<TimeSlot>, slot: TimeSlot): (r: bool)
    ensures r <==> exists i :: 0 <= i < |windows| && slot.Within(windows[i])
  {
    if windows == [] then false
    else if windows[0].day != slot.day then SomeWindowContains(windows[1..], slot)
    else if windows[0].Start() <= slot.Start() && slot.End() <= windows[0].End() then true
    else SomeWindowContains(windows[1..], slot)
  }

  datatype Lecturer = Lecturer(id: string, name: string, availableSlots: seq<TimeSlot>,
                               maxHoursPerWeek: Option<int>)
  {
    /** A lecturer is available for `slot` only when one of their available slots
        contains it completely; overlapping is not enough, and a lecturer without
        available slots is never available. */
    function IsAvailable(slot: TimeSlot): (r: bool)
      ensures r <==> exists window :: window in availableSlots && slot.Within(window)
      ensures availableSlots == [] ==> !r
    {
      var r := SomeWindowContains(availableSlots, slot);
      assert r ==> exists i :: 0 <= i < |availableSlots| && slot.Within(availableSlots[i]);
      r
    }
  }

  /** The lecturer of the constraint test: available on Monday 9:00-10:00 only. Asking for
      that very hour succeeds; Monday 15:00 fails; Monday 9:30 overlaps the window but is not
      contained in it, so it fails too. */
  lemma AvailabilityNeedsContainment()
    ensures
      var monday9 := TimeSlot(Monday, 9, 0, 60);
      var lecturer := Lecturer("L1", "Dr. Smith", [monday9], None);
      && lecturer.IsAvailable(monday9)
      && !lecturer.IsAvailable(TimeSlot(Monday, 15, 0, 60))
      && TimeSlot(Monday, 9, 30, 60).OverlapsWith(monday9)
      && !lecturer.IsAvailable(TimeSlot(Monday, 9, 30, 60))
  {
  }

  datatype Subject = Subject(
    id: string,
    name: string,
    durationMinutes: int,
    requiredLecturers: seq<Lecturer>,
    minCapacity: int,
    requiredFeatures: set<string>,
    preferredDays: Option<seq<DayOfWeek>>,
    sessionsPerWeek: int)

  datatype Block = Block(id: string, name: string, timeSlots: seq<TimeSlot>)

  datatype Week = Week(weekNumber: int, year: int, blocks: seq<Block>)

  /** A resource a session occupies: its room or one of its subject's lecturers. */
  datatype Resource = RoomResource(room: Room) | LecturerResource(lecturer: Lecturer)

  datatype ScheduledSession = ScheduledSession(subject: Subject, timeSlot: TimeSlot, room: Room,
                                               week: Week, isFixed: bool)
  {
    predicate Uses(resource: Resource) {
      match resource
      case RoomResource(r) => r == room
      case LecturerResource(l) => l in subject.requiredLecturers
    }

    /** Sessions of different weeks, or at non-overlapping slots, never conflict; otherwise
        they conflict when they share the room or at least one required lecturer. */
    function ConflictsWith(other: ScheduledSession): (r: bool)
      ensures week != other.week ==> !r
      ensures !timeSlot.OverlapsWith(other.timeSlot) ==> !r
      ensures week == other.week && timeSlot.OverlapsWith(other.timeSlot) ==>
                (r <==> exists resource :: Uses(resource) && other.Uses(resource))
    {
      if week != other.week then false
      else if !timeSlot.OverlapsWith(other.timeSlot) then false
      else if room == other.room then
        assert Uses(RoomResource(room)) && other.Uses(RoomResource(room));
        true
      else
        var shared := exists l :: l in subject.requiredLecturers && l in other.subject.requiredLecturers;
        assert forall l | l in subject.requiredLecturers && l in other.subject.requiredLecturers ::
                 Uses(LecturerResource(l)) && other.Uses(LecturerResource(l));
        shared
    }
  }

  lemma ConflictsSymmetric(a: ScheduledSession, b: ScheduledSession)
    ensures a.ConflictsWith(b) == b.ConflictsWith(a)
  {
    OverlapsSymmetric(a.timeSlot, b.timeSlot);
    if a.week == b.week && a.timeSlot.OverlapsWith(b.timeSlot) {
      assert (exists res :: a.Uses(res) && b.Uses(res)) == (exists res :: b.Uses(res) && a.Uses(res));
    }
  }

  /** A session whose slot has positive length conflicts with itself (and so with any
      equal session): it occupies its own room during its own slot. */
  lemma ConflictsWithSelf(s: ScheduledSession)
    requires s.timeSlot.durationMinutes > 0
    ensures s.ConflictsWith(s)
  {
    OverlapsSelf(s.timeSlot);
    assert s.Uses(RoomResource(s.room));
  }

  /** For slots of positive length: two sessions conflict exactly when, in the same week,
      there is a minute of the same day at which both hold a common resource. */
  lemma ConflictMeansSharedResource(a: ScheduledSession, b: ScheduledSession)
    requires a.timeSlot.durationMinutes > 0 && b.timeSlot.durationMinutes > 0
    ensures a.ConflictsWith(b) <==>
              && a.week == b.week
              && a.timeSlot.day == b.timeSlot.day
              && (exists m :: a.timeSlot.Covers(m) && b.timeSlot.Covers(m))
              && (exists res :: a.Uses(res) && b.Uses(res))
  {
  }

  /** No session of `sessions` conflicts with `s`: the test `add_session` performs. */
  predicate NoneConflict(sessions: seq<ScheduledSession>, s: ScheduledSession) {
    forall i | 0 <= i < |sessions| :: !s.ConflictsWith(sessions[i])
  }

  /** No earlier session of `sessions` conflicts with a later one. */
  predicate PairwiseConflictFree(sessions: seq<ScheduledSession>) {
    forall i, j | 0 <= i < j < |sessions| :: !sessions[i].ConflictsWith(sessions[j])
  }

  /** The session list after `add_session(s)`: `s` is appended when nothing conflicts with it. */
  function AddResult(sessions: seq<ScheduledSession>, s: ScheduledSession): seq<ScheduledSession> {
    if NoneConflict(sessions, s) then sessions + [s] else sessions
  }

  /** The session list after calling `add_session` with each of `xs` in turn. */
  function AddAll(sessions: seq<ScheduledSession>, xs: seq<ScheduledSession>): seq<ScheduledSession>
    decreases |xs|
  {
    if xs == [] then sessions else AddResult(AddAll(sessions, xs[..|xs| - 1]), xs[|xs| - 1])
  }

  /** Position of the first element of `sessions` equal to `s`. */
  function FirstIndexOf(sessions: seq<ScheduledSession>, s: ScheduledSession): (i: nat)
    requires s in sessions
    ensures i < |sessions| && sessions[i] == s && s !in sessions[..i]
  {
    if sessions[0] == s then 0
    else
      var i := FirstIndexOf(sessions[1..], s) + 1;
      assert sessions[..i] == [sessions[0]] + sessions[1..][..i - 1];
      i
  }

  /** The list after `remove_session(s)`: the first element equal to `s` is deleted (as
      Python's `list.remove` does); nothing changes when there is none. */
  function RemoveFirst(sessions: seq<ScheduledSession>, s: ScheduledSession): (r: seq<ScheduledSession>)
    ensures s !in sessions ==> r == sessions
    ensures s in sessions ==>
              exists i :: 0 <= i < |sessions| && sessions[i] == s && s !in sessions[..i] &&
                          r == sessions[..i] + sessions[i + 1..]
    ensures multiset(r) == multiset(sessions) - multiset{s}
  {
    if s in sessions then
      var i := FirstIndexOf(sessions, s);
      assert sessions == sessions[..i] + [s] + sessions[i + 1..];
      sessions[..i] + sessions[i + 1..]
    else
      sessions
  }

  /** A successful `add_session` keeps the schedule conflict free. */
  lemma AddPreservesValid(sessions: seq<ScheduledSession>, s: ScheduledSession)
    requires PairwiseConflictFree(sessions)
    ensures PairwiseConflictFree(AddResult(sessions, s))
  {
    if NoneConflict(sessions, s) {
      var r := sessions + [s];
      forall i, j | 0 <= i < j < |r| ensures !r[i].ConflictsWith(r[j]) {
        if j == |sessions| {
          ConflictsSymmetric(r[i], s);
        }
      }
    }
  }

  /** A schedule built from a conflict-free one by `add_session` calls alone (in particular,
      one built from the empty schedule) is conflict free. */
  lemma {:induction false} AddAllPreservesValid(sessions: seq<ScheduledSession>, xs: seq<ScheduledSession>)
    requires PairwiseConflictFree(sessions)
    ensures PairwiseConflictFree(AddAll(sessions, xs))
    decreases |xs|
  {
    if xs != [] {
      AddAllPreservesValid(sessions, xs[..|xs| - 1]);
      AddPreservesValid(AddAll(sessions, xs[..|xs| - 1]), xs[|xs| - 1]);
    }
  }

  /** A successful `add_session(s)` followed by `remove_session(s)` restores the original
      list, provided the slot of `s` has positive length (so that no equal copy of `s` was
      already present). */
  lemma AddThenRemove(sessions: seq<ScheduledSession>, s: ScheduledSession)
    requires s.timeSlot.durationMinutes > 0
    requires NoneConflict(sessions, s)
    ensures AddResult(sessions, s) == sessions + [s]
    ensures RemoveFirst(sessions + [s], s) == sessions
  {
    ConflictsWithSelf(s);
    assert s !in sessions;
    var r := sessions + [s];
    assert forall k | 0 <= k < |sessions| :: r[k] == sessions[k];
    var i :| 0 <= i < |r| && r[i] == s && s !in r[..i] && RemoveFirst(r, s) == r[..i] + r[i + 1..];
    assert i == |sessions|;
    assert r[..i] == sessions;
  }

  /** The timetable: an ordered list of sessions, changed in place. */
  class Schedule {
    var sessions: seq<ScheduledSession>

    constructor (sessions: seq<ScheduledSession>)
      ensures this.sessions == sessions
    {
      this.sessions := sessions;
    }

    /** Appends `session` unless an existing session conflicts with it; reports which. */
    method AddSession(session: ScheduledSession) returns (added: bool)
      modifies this
      ensures added <==> NoneConflict(old(sessions), session)
      ensures sessions == AddResult(old(sessions), session)
    {
      var i := 0;
      while i < |sessions|
        invariant 0 <= i <= |sessions|
        invariant forall k | 0 <= k < i :: !session.ConflictsWith(sessions[k])
      {
        if session.ConflictsWith(sessions[i]) {
          return false;
        }
        i := i + 1;
      }
      sessions := sessions + [session];
      return true;
    }

    /** Deletes the first session equal to `session`, if there is one. */
    method RemoveSession(session: ScheduledSession)
      modifies this
      ensures sessions == RemoveFirst(old(sessions), session)
    {
      if session in sessions {
        sessions := RemoveFirst(sessions, session);
      }
    }

    /** The sessions of `week`, in schedule order. */
    function SessionsByWeek(week: Week): (r: seq<ScheduledSession>)
      reads this
      ensures forall s :: s in r <==> s in sessions && s.week == week
      ensures forall s :: multiset(r)[s] == if s.week == week then multiset(sessions)[s] else 0
      ensures IsSubsequence(r, sessions)
    {
      Filter(sessions, (s: ScheduledSession) => s.week == week)
    }

    /** The sessions held in `room`, in schedule order. */
    function SessionsByRoom(room: Room): (r: seq<ScheduledSession>)
      reads this
      ensures forall s :: s in r <==> s in sessions && s.room == room
      ensures forall s :: multiset(r)[s] == if s.room == room then multiset(sessions)[s] else 0
      ensures IsSubsequence(r, sessions)
    {
      Filter(sessions, (s: ScheduledSession) => s.room == room)
    }

    /** The sessions whose subject requires `lecturer`, in schedule order. */
    function SessionsByLecturer(lecturer: Lecturer): (r: seq<ScheduledSession>)
      reads this
      ensures forall s :: s in r <==> s in sessions && lecturer in s.subject.requiredLecturers
      ensures forall s :: multiset(r)[s] ==
                if lecturer in s.subject.requiredLecturers then multiset(sessions)[s] else 0
      ensures IsSubsequence(r, sessions)
    {
      Filter(sessions, (s: ScheduledSession) => lecturer in s.subject.requiredLecturers)
    }

    /** Scans every pair of sessions, earlier against later, for a conflict. */
    method IsValid() returns (valid: bool)
      ensures valid <==> PairwiseConflictFree(sessions)
    {
      var i := 0;
      while i < |sessions|
        invariant 0 <= i <= |sessions|
        invariant forall a, b | 0 <= a < i && a < b < |sessions| :: !sessions[a].ConflictsWith(sessions[b])
      {
        var j := i + 1;
        while j < |sessions|
          invariant i + 1 <= j <= |sessions|
          invariant forall b | i < b < j :: !sessions[i].ConflictsWith(sessions[b])
        {
          if sessions[i].ConflictsWith(sessions[j]) {
            return false;
          }
          j := j + 1;
        }
        i := i + 1;
      }
      return true;
    }
  }
}
