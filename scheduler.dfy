/** The scheduling engine: the individual placement checks, the enumeration of every legal
    placement of one subject, the depth-first placement of a list of obligations with undo,
    and the two entry points that build a schedule from the fixed sessions. */
module Scheduler {
  import opened Wrappers
  import opened Collections
  import opened Models

  // ---------------------------------------------------------------------------
  // Placement checks

  /** The room seats at least the subject's minimum audience. */
  function CheckRoomCapacity(subject: Subject, room: Room): bool {
    room.capacity >= subject.minCapacity
  }

  /** The room offers every feature the subject requires. */
  function CheckRoomFeatures(subject: Subject, room: Room): bool {
    subject.requiredFeatures <= room.features
  }

  /** Every lecturer of `lecturers` is available for `slot`; scans them in order. */
  function AllAvailable(lecturers: seq<Lecturer>, slot: TimeSlot): (r: bool)
    ensures r <==> forall l :: l in lecturers ==> l.IsAvailable(slot)
  {
    if lecturers == [] then true
    else
      assert lecturers == [lecturers[0]] + lecturers[1..];
      lecturers[0].IsAvailable(slot) && AllAvailable(lecturers[1..], slot)
  }

  /** Each required lecturer has an available slot that contains `slot`; a subject that
      requires no lecturer passes. */
  function CheckLecturerAvailability(subject: Subject, slot: TimeSlot): (r: bool)
    ensures r <==> forall l :: l in subject.requiredLecturers ==>
                      exists window :: window in l.availableSlots && slot.Within(window)
    ensures subject.requiredLecturers == [] ==> r
  {
    AllAvailable(subject.requiredLecturers, slot)
  }

  /** A subject without preferred days accepts any day; otherwise the slot's day must be
      one of them. */
  function CheckPreferredDays(subject: Subject, slot: TimeSlot): bool {
    match subject.preferredDays
    case None => true
    case Some(days) => slot.day in days
  }

  /** No session of `sessions` conflicts with `session`; scans them in order. */
  function CheckNoConflicts(sessions: seq<ScheduledSession>, session: ScheduledSession): (r: bool)
    ensures r <==> NoneConflict(sessions, session)
  {
    if sessions == [] then true
    else if session.ConflictsWith(sessions[0]) then false
    else
      assert forall i | 1 <= i < |sessions| :: sessions[i] == sessions[1..][i - 1];
      CheckNoConflicts(sessions[1..], session)
  }

  /** The constraint test: a 30-seat room with a projector suits a subject needing 25 seats
      and a projector; a 10-seat room without features does not. Without preferred days any
      day is accepted; preferring Monday accepts a Monday slot and rejects a Tuesday one. */
  lemma RoomChecksExample()
    ensures
      var lecturer := Lecturer("L1", "Dr. Smith", [TimeSlot(Monday, 9, 0, 60)], None);
      var subject := Subject("S1", "Anatomy", 60, [lecturer], 25, {"projector"}, None, 1);
      var room := Room("R1", "Room A", 30, {"projector"});
      var smallRoom := Room("R2", "Small Room", 10, {});
      && CheckRoomCapacity(subject, room) && !CheckRoomCapacity(subject, smallRoom)
      && CheckRoomFeatures(subject, room) && !CheckRoomFeatures(subject, smallRoom)
      && CheckLecturerAvailability(subject, TimeSlot(Monday, 9, 0, 60))
      && !CheckLecturerAvailability(subject, TimeSlot(Monday, 15, 0, 60))
      && CheckPreferredDays(subject, TimeSlot(Sunday, 15, 0, 60))
      && CheckPreferredDays(subject.(preferredDays := Some([Monday])), TimeSlot(Monday, 9, 0, 60))
      && !CheckPreferredDays(subject.(preferredDays := Some([Monday])), TimeSlot(Tuesday, 9, 0, 60))
  {
    var lecturer := Lecturer("L1", "Dr. Smith", [TimeSlot(Monday, 9, 0, 60)], None);
    var subject := Subject("S1", "Anatomy", 60, [lecturer], 25, {"projector"}, None, 1);
    assert "projector" in subject.requiredFeatures;
  }

  // ---------------------------------------------------------------------------
  // Candidate placements, in enumeration order week -> block -> slot -> room

  /** `slot` is one of the slots of one of `blocks`. */
  predicate InBlocks(blocks: seq<Block>, slot: TimeSlot) {
    exists b :: b in blocks && slot in b.timeSlots
  }

  /** A session the search may create for `subject`: that subject, and not fixed. */
  predicate NewSessionOf(s: ScheduledSession, subject: Subject) {
    s.subject == subject && !s.isFixed
  }

  /** The slot-level checks: lecturer availability and preferred days. */
  predicate SlotFits(subject: Subject, slot: TimeSlot) {
    CheckLecturerAvailability(subject, slot) && CheckPreferredDays(subject, slot)
  }

  /** The room-level checks: capacity, features, and no conflict with `sessions`. */
  predicate RoomFits(sessions: seq<ScheduledSession>, subject: Subject, s: ScheduledSession) {
    CheckRoomCapacity(subject, s.room) && CheckRoomFeatures(subject, s.room) && CheckNoConflicts(sessions, s)
  }

  /** The candidates at one slot of one week, one per suitable room of `rooms`, in room order. */
  function RoomCandidates(sessions: seq<ScheduledSession>, subject: Subject, week: Week, slot: TimeSlot,
                          rooms: seq<Room>): (r: seq<ScheduledSession>)
    ensures forall s :: s in r <==>
              NewSessionOf(s, subject) && s.week == week && s.timeSlot == slot && s.room in rooms &&
              RoomFits(sessions, subject, s)
    decreases |rooms|
  {
    if rooms == [] then []
    else
      var room := rooms[|rooms| - 1];
      var session := ScheduledSession(subject, slot, room, week, false);
      assert rooms == rooms[..|rooms| - 1] + [room];
      RoomCandidates(sessions, subject, week, slot, rooms[..|rooms| - 1]) +
      (if RoomFits(sessions, subject, session) then [session] else [])
  }

  /** The candidates at the slots `slots` of one week, slot by slot. */
  function SlotCandidates(sessions: seq<ScheduledSession>, subject: Subject, rooms: seq<Room>, week: Week,
                          slots: seq<TimeSlot>): (r: seq<ScheduledSession>)
    ensures forall s :: s in r <==>
              NewSessionOf(s, subject) && s.week == week && s.timeSlot in slots &&
              SlotFits(subject, s.timeSlot) && s.room in rooms && RoomFits(sessions, subject, s)
    decreases |slots|
  {
    if slots == [] then []
    else
      var slot := slots[|slots| - 1];
      assert slots == slots[..|slots| - 1] + [slot];
      SlotCandidates(sessions, subject, rooms, week, slots[..|slots| - 1]) +
      (if SlotFits(subject, slot) then RoomCandidates(sessions, subject, week, slot, rooms) else [])
  }

  /** The candidates in the blocks `blocks` of one week, block by block. */
  function BlockCandidates(sessions: seq<ScheduledSession>, subject: Subject, rooms: seq<Room>, week: Week,
                           blocks: seq<Block>): (r: seq<ScheduledSession>)
    ensures forall s :: s in r <==>
              NewSessionOf(s, subject) && s.week == week && InBlocks(blocks, s.timeSlot) &&
              SlotFits(subject, s.timeSlot) && s.room in rooms && RoomFits(sessions, subject, s)
    decreases |blocks|
  {
    if blocks == [] then []
    else
      var block := blocks[|blocks| - 1];
      assert blocks == blocks[..|blocks| - 1] + [block];
      BlockCandidates(sessions, subject, rooms, week, blocks[..|blocks| - 1]) +
      SlotCandidates(sessions, subject, rooms, week, block.timeSlots)
  }

  /** The candidates in the weeks `weeks`, week by week. */
  function WeekCandidates(sessions: seq<ScheduledSession>, subject: Subject, rooms: seq<Room>,
                          weeks: seq<Week>): (r: seq<ScheduledSession>)
    ensures forall s :: s in r <==>
              NewSessionOf(s, subject) && s.week in weeks && InBlocks(s.week.blocks, s.timeSlot) &&
              SlotFits(subject, s.timeSlot) && s.room in rooms && RoomFits(sessions, subject, s)
    decreases |weeks|
  {
    if weeks == [] then []
    else
      var week := weeks[|weeks| - 1];
      assert weeks == weeks[..|weeks| - 1] + [week];
      WeekCandidates(sessions, subject, rooms, weeks[..|weeks| - 1]) +
      BlockCandidates(sessions, subject, rooms, week, week.blocks)
  }

  /** The room loop of the enumeration at one slot of one week. */
  method PlacementsAtSlot(sessions: seq<ScheduledSession>, subject: Subject, week: Week, slot: TimeSlot,
                          rooms: seq<Room>) returns (placements: seq<ScheduledSession>)
    ensures placements == RoomCandidates(sessions, subject, week, slot, rooms)
  {
    placements := [];
    var ri := 0;
    while ri < |rooms|
      invariant 0 <= ri <= |rooms|
      invariant placements == RoomCandidates(sessions, subject, week, slot, rooms[..ri])
    {
      var room := rooms[ri];
      if CheckRoomCapacity(subject, room) && CheckRoomFeatures(subject, room) {
        var session := ScheduledSession(subject, slot, room, week, false);
        if CheckNoConflicts(sessions, session) {
          placements := placements + [session];
        }
      }
      assert rooms[..ri + 1][..ri] == rooms[..ri];
      ri := ri + 1;
    }
    assert rooms[..ri] == rooms;
  }

  /** The slot loop of the enumeration over the slots of one block; a slot that fails the
      lecturer or preferred-day check is skipped before any room is tried. */
  method PlacementsInBlock(sessions: seq<ScheduledSession>, subject: Subject, rooms: seq<Room>, week: Week,
                           slots: seq<TimeSlot>) returns (placements: seq<ScheduledSession>)
    ensures placements == SlotCandidates(sessions, subject, rooms, week, slots)
  {
    placements := [];
    var ti := 0;
    while ti < |slots|
      invariant 0 <= ti <= |slots|
      invariant placements == SlotCandidates(sessions, subject, rooms, week, slots[..ti])
    {
      var slot := slots[ti];
      if CheckLecturerAvailability(subject, slot) && CheckPreferredDays(subject, slot) {
        var atSlot := PlacementsAtSlot(sessions, subject, week, slot, rooms);
        placements := placements + atSlot;
      }
      assert slots[..ti + 1][..ti] == slots[..ti];
      ti := ti + 1;
    }
    assert slots[..ti] == slots;
  }

  /** The block loop of the enumeration over one week. */
  method PlacementsInWeek(sessions: seq<ScheduledSession>, subject: Subject, rooms: seq<Room>, week: Week)
    returns (placements: seq<ScheduledSession>)
    ensures placements == BlockCandidates(sessions, subject, rooms, week, week.blocks)
  {
    placements := [];
    var bi := 0;
    while bi < |week.blocks|
      invariant 0 <= bi <= |week.blocks|
      invariant placements == BlockCandidates(sessions, subject, rooms, week, week.blocks[..bi])
    {
      var inBlock := PlacementsInBlock(sessions, subject, rooms, week, week.blocks[bi].timeSlots);
      placements := placements + inBlock;
      assert week.blocks[..bi + 1][..bi] == week.blocks[..bi];
      bi := bi + 1;
    }
    assert week.blocks[..bi] == week.blocks;
  }

  // ---------------------------------------------------------------------------
  // Obligations: how many more sessions each subject needs

  /** The subjects of `sessions`, in order. */
  function SubjectsOf(sessions: seq<ScheduledSession>): seq<Subject> {
    seq(|sessions|, k requires 0 <= k < |sessions| => sessions[k].subject)
  }

  /** The number of sessions of `fixed` whose subject is `subject`. */
  function FixedCount(fixed: seq<ScheduledSession>, subject: Subject): (n: nat)
    ensures n == multiset(SubjectsOf(fixed))[subject]
    decreases |fixed|
  {
    if fixed == [] then 0
    else
      var init := fixed[..|fixed| - 1];
      assert SubjectsOf(fixed) == SubjectsOf(init) + [fixed[|fixed| - 1].subject];
      FixedCount(init, subject) + (if fixed[|fixed| - 1].subject == subject then 1 else 0)
  }

  /** How many sessions of `subject` remain to be placed: the sessions per week less the
      fixed sessions of that subject, and none when that is not positive. */
  function Remaining(subject: Subject, fixed: seq<ScheduledSession>): nat {
    if subject.sessionsPerWeek - FixedCount(fixed, subject) > 0
    then subject.sessionsPerWeek - FixedCount(fixed, subject)
    else 0
  }

  /** `subject`, `n` times over: as a multiset it holds `subject` exactly `n` times and
      nothing else. */
  function Repeat(subject: Subject, n: nat): (r: seq<Subject>)
    ensures |r| == n
    ensures multiset(r) == multiset{}[subject := n]
  {
    if n == 0 then [] else Repeat(subject, n - 1) + [subject]
  }

  /** The obligation list: subject by subject, each repeated as often as it remains to be placed. */
  function Obligations(subjects: seq<Subject>, fixed: seq<ScheduledSession>): seq<Subject>
    decreases |subjects|
  {
    if subjects == [] then []
    else
      var last := subjects[|subjects| - 1];
      Obligations(subjects[..|subjects| - 1], fixed) + Repeat(last, Remaining(last, fixed))
  }

  /** Taking one more subject appends its remaining copies to the obligation list. */
  lemma ObligationsStep(subjects: seq<Subject>, i: nat, fixed: seq<ScheduledSession>)
    requires i < |subjects|
    ensures Obligations(subjects[..i + 1], fixed) ==
            Obligations(subjects[..i], fixed) + Repeat(subjects[i], Remaining(subjects[i], fixed))
  {
    assert subjects[..i + 1][..i] == subjects[..i];
  }

  /** When no subject is listed twice, the obligation list holds each listed subject
      exactly as often as it remains to be placed, and nothing else. */
  lemma {:induction false} ObligationsCount(subjects: seq<Subject>, fixed: seq<ScheduledSession>)
    requires forall i, j | 0 <= i < j < |subjects| :: subjects[i] != subjects[j]
    ensures forall s :: multiset(Obligations(subjects, fixed))[s] ==
                          if s in subjects then Remaining(s, fixed) else 0
    decreases |subjects|
  {
    if subjects != [] {
      var init := subjects[..|subjects| - 1];
      var last := subjects[|subjects| - 1];
      ObligationsCount(init, fixed);
      assert subjects == init + [last];
      assert last !in init by {
        forall i | 0 <= i < |init| ensures init[i] != last {
          assert subjects[i] != subjects[|subjects| - 1];
        }
      }
    }
  }

  // ---------------------------------------------------------------------------
  // The algorithm

  /** The scheduling problem: the subjects, rooms and weeks to schedule over, and the
      fixed sessions that are placed first. */
  datatype SchedulingAlgorithm = SchedulingAlgorithm(subjects: seq<Subject>, rooms: seq<Room>,
                                                     weeks: seq<Week>, fixedSessions: seq<ScheduledSession>)
  {
    /** Every slot of every block of every week has positive length. */
    predicate CatalogSlotsPositive() {
      forall w, b, t | w in weeks && b in w.blocks && t in b.timeSlots :: t.durationMinutes > 0
    }

    /** `s` is a session the enumeration may offer for `subject` against `sessions`: a new,
        non-fixed session of that subject at a slot of a block of one of the weeks, in one of
        the rooms, passing every check and conflicting with none of `sessions`. */
    predicate IsLegalPlacement(sessions: seq<ScheduledSession>, subject: Subject, s: ScheduledSession) {
      && NewSessionOf(s, subject)
      && s.week in weeks && InBlocks(s.week.blocks, s.timeSlot) && s.room in rooms
      && CheckLecturerAvailability(subject, s.timeSlot) && CheckPreferredDays(subject, s.timeSlot)
      && CheckRoomCapacity(subject, s.room) && CheckRoomFeatures(subject, s.room)
      && CheckNoConflicts(sessions, s)
    }

    /** Every legal placement of `subject` against `sessions`, in the order week, block, slot,
        room. A placement is listed more than once when a week or room is listed twice or its
        slot lies in two blocks. */
    function Candidates(sessions: seq<ScheduledSession>, subject: Subject): (r: seq<ScheduledSession>)
      ensures forall s :: s in r <==> IsLegalPlacement(sessions, subject, s)
    {
      WeekCandidates(sessions, subject, rooms, weeks)
    }

    /** `added` places the obligations one by one after `base`: the k-th added session is a
        legal placement of the k-th obligation against everything placed before it. */
    predicate IsPlacement(base: seq<ScheduledSession>, added: seq<ScheduledSession>, obligations: seq<Subject>) {
      |added| == |obligations| &&
      forall k | 0 <= k < |added| :: IsLegalPlacement(base + added[..k], obligations[k], added[k])
    }

    /** No sequence of sessions places `obligations` after `base`. */
    ghost predicate Unplaceable(base: seq<ScheduledSession>, obligations: seq<Subject>) {
      forall added :: !IsPlacement(base, added, obligations)
    }

    /** `after` is `base` followed by a placement of `obligations`. */
    predicate PlacedAfter(base: seq<ScheduledSession>, after: seq<ScheduledSession>, obligations: seq<Subject>) {
      |base| <= |after| && after[..|base|] == base && IsPlacement(base, after[|base|..], obligations)
    }

    /** A legal placement in one of these weeks lies in a slot of positive length. */
    lemma LegalPlacementPositive(sessions: seq<ScheduledSession>, subject: Subject, s: ScheduledSession)
      requires CatalogSlotsPositive()
      requires IsLegalPlacement(sessions, subject, s)
      ensures s.timeSlot.durationMinutes > 0
    {
    }

    /** Extending a placement at its front. */
    lemma PlacementCons(base: seq<ScheduledSession>, x: ScheduledSession, rest: seq<ScheduledSession>,
                        subject: Subject, obligations: seq<Subject>)
      requires IsLegalPlacement(base, subject, x)
      requires IsPlacement(base + [x], rest, obligations)
      ensures IsPlacement(base, [x] + rest, [subject] + obligations)
    {
      var added := [x] + rest;
      forall k | 0 <= k < |added|
        ensures IsLegalPlacement(base + added[..k], ([subject] + obligations)[k], added[k])
      {
        if k > 0 {
          assert base + added[..k] == (base + [x]) + rest[..k - 1];
        } else {
          assert base + added[..k] == base;
        }
      }
    }

    /** Splitting a placement at its front: the first session is a legal placement of the
        first obligation, and the rest place the other obligations after it. */
    lemma PlacementUncons(base: seq<ScheduledSession>, added: seq<ScheduledSession>, obligations: seq<Subject>)
      requires obligations != []
      requires IsPlacement(base, added, obligations)
      ensures IsLegalPlacement(base, obligations[0], added[0])
      ensures IsPlacement(base + [added[0]], added[1..], obligations[1..])
    {
      assert base + added[..0] == base;
      forall k | 0 <= k < |added| - 1
        ensures IsLegalPlacement((base + [added[0]]) + added[1..][..k], obligations[1..][k], added[1..][k])
      {
        assert (base + [added[0]]) + added[1..][..k] == base + added[..k + 1];
      }
    }

    /** When no candidate for the first obligation can be followed by a placement of the
        rest, there is no placement of the obligations at all. */
    lemma NoPlacementWithoutCandidate(base: seq<ScheduledSession>, placements: seq<ScheduledSession>,
                                      obligations: seq<Subject>)
      requires obligations != []
      requires placements == Candidates(base, obligations[0])
      requires forall j | 0 <= j < |placements| :: Unplaceable(base + [placements[j]], obligations[1..])
      ensures Unplaceable(base, obligations)
    {
      forall added | IsPlacement(base, added, obligations)
        ensures false
      {
        PlacementHasCandidate(base, added, obligations);
      }
    }

    /** A placement of the obligations starts with one of the first obligation's candidates,
        followed by a placement of the rest. */
    lemma PlacementHasCandidate(base: seq<ScheduledSession>, added: seq<ScheduledSession>, obligations: seq<Subject>)
      requires obligations != []
      requires IsPlacement(base, added, obligations)
      ensures var placements := Candidates(base, obligations[0]);
              exists j | 0 <= j < |placements| :: IsPlacement(base + [placements[j]], added[1..], obligations[1..])
    {
      var placements := Candidates(base, obligations[0]);
      PlacementUncons(base, added, obligations);
      assert added[0] in placements;
      var j :| 0 <= j < |placements| && placements[j] == added[0];
      assert IsPlacement(base + [placements[j]], added[1..], obligations[1..]);
    }

    /** A placement keeps a conflict-free schedule conflict free, and every placed session is
        a new (non-fixed) session of its obligation's subject. */
    lemma {:induction false} PlacementPreservesValid(base: seq<ScheduledSession>, added: seq<ScheduledSession>,
                                                     obligations: seq<Subject>)
      requires PairwiseConflictFree(base)
      requires IsPlacement(base, added, obligations)
      ensures PairwiseConflictFree(base + added)
      ensures forall k | 0 <= k < |added| :: added[k].subject == obligations[k] && !added[k].isFixed
      decreases |added|
    {
      if added != [] {
        var n := |added| - 1;
        var init := added[..n];
        assert IsPlacement(base, init, obligations[..n]) by {
          forall k | 0 <= k < |init|
            ensures IsLegalPlacement(base + init[..k], obligations[..n][k], init[k])
          {
            assert init[..k] == added[..k];
          }
        }
        PlacementPreservesValid(base, init, obligations[..n]);
        assert IsLegalPlacement(base + added[..n], obligations[n], added[n]);
        AddPreservesValid(base + init, added[n]);
        assert base + added == (base + init) + [added[n]];
      }
    }

    /** Placing the first obligation and then the rest after it is a placement of all of them. */
    lemma PlacedAfterCons(base: seq<ScheduledSession>, session: ScheduledSession, after: seq<ScheduledSession>,
                          obligations: seq<Subject>)
      requires obligations != []
      requires IsLegalPlacement(base, obligations[0], session)
      requires PlacedAfter(base + [session], after, obligations[1..])
      ensures PlacedAfter(base, after, obligations)
      ensures PairwiseConflictFree(base) ==> PairwiseConflictFree(after)
    {
      assert after[..|base| + 1] == base + [session];
      assert after[..|base|] == base;
      PlacementCons(base, session, after[|base| + 1..], obligations[0], obligations[1..]);
      assert after[|base|..] == [session] + after[|base| + 1..];
      assert obligations == [obligations[0]] + obligations[1..];
      if PairwiseConflictFree(base) {
        PlacementPreservesValid(base, after[|base|..], obligations);
        assert after == base + after[|base|..];
      }
    }

    /** Lists every legal placement of `subject` against the current schedule, trying weeks,
        then their blocks, then the blocks' slots, then the rooms. */
    method GetPossiblePlacements(schedule: Schedule, subject: Subject) returns (placements: seq<ScheduledSession>)
      ensures placements == Candidates(schedule.sessions, subject)
    {
      placements := [];
      var wi := 0;
      while wi < |weeks|
        invariant 0 <= wi <= |weeks|
        invariant placements == WeekCandidates(schedule.sessions, subject, rooms, weeks[..wi])
      {
        var inWeek := PlacementsInWeek(schedule.sessions, subject, rooms, weeks[wi]);
        placements := placements + inWeek;
        assert weeks[..wi + 1][..wi] == weeks[..wi];
        wi := wi + 1;
      }
      assert weeks[..wi] == weeks;
    }
    /** Places the obligations depth first: for the first one, tries each candidate in turn,
        adds it, and places the rest; when the rest cannot be placed, removes it again. On
        success the schedule is its old contents followed by one legal placement per
        obligation, in obligation order. Since every candidate is tried, it fails only when
        no such placement exists, and then the schedule is exactly as it was. */
    method PlaceSubjects(schedule: Schedule, obligations: seq<Subject>) returns (ok: bool)
      requires CatalogSlotsPositive()
      modifies schedule
      ensures ok ==> PlacedAfter(old(schedule.sessions), schedule.sessions, obligations)
      ensures ok && PairwiseConflictFree(old(schedule.sessions)) ==> PairwiseConflictFree(schedule.sessions)
      ensures !ok ==> schedule.sessions == old(schedule.sessions)
      ensures !ok ==> Unplaceable(old(schedule.sessions), obligations)
      decreases |obligations|, 1
    {
      ghost var base := schedule.sessions;
      if obligations == [] {
        assert base[|base|..] == [];
        return true;
      }
      var subject := obligations[0];
      var remaining := obligations[1..];
      var placements := GetPossiblePlacements(schedule, subject);
      var i := 0;
      while i < |placements|
        invariant 0 <= i <= |placements|
        invariant schedule.sessions == base
        invariant forall j | 0 <= j < i :: Unplaceable(base + [placements[j]], remaining)
      {
        var session := placements[i];
        assert IsLegalPlacement(base, subject, session);
        LegalPlacementPositive(base, subject, session);
        ok := PlaceAfter(schedule, session, remaining);
        if ok {
          PlacedAfterCons(base, session, schedule.sessions, obligations);
          return true;
        }
        i := i + 1;
      }
      NoPlacementWithoutCandidate(base, placements, obligations);
      return false;
    }

    /** One step of the search: adds `session`, which conflicts with nothing, and places
        `remaining` after it; when that fails, removes `session` again. */
    method PlaceAfter(schedule: Schedule, session: ScheduledSession, remaining: seq<Subject>) returns (ok: bool)
      requires CatalogSlotsPositive()
      requires session.timeSlot.durationMinutes > 0
      requires NoneConflict(schedule.sessions, session)
      modifies schedule
      ensures ok ==> PlacedAfter(old(schedule.sessions) + [session], schedule.sessions, remaining)
      ensures !ok ==> schedule.sessions == old(schedule.sessions)
      ensures !ok ==> Unplaceable(old(schedule.sessions) + [session], remaining)
      decreases |remaining| + 1, 0
    {
      ghost var base := schedule.sessions;
      AddThenRemove(base, session);
      var added := schedule.AddSession(session);
      ok := false;
      if added {
        ok := PlaceSubjects(schedule, remaining);
        if !ok {
          schedule.RemoveSession(session);
        }
      }
    }

    /** The schedule seeded with the fixed sessions, each added by `add_session` in turn
        (so a fixed session that conflicts with an earlier one is dropped). */
    function Seed(): (r: seq<ScheduledSession>)
      ensures PairwiseConflictFree(r)
    {
      AddAllPreservesValid([], fixedSessions);
      AddAll([], fixedSessions)
    }

    /** The order in which the obligations are tried at attempt `k`: the shuffled order
        supplied for that attempt when randomizing, the subject order otherwise. */
    function AttemptOrder(k: int, randomize: bool, shuffles: seq<seq<Subject>>): seq<Subject> {
      if randomize && 0 <= k < |shuffles| then shuffles[k] else Obligations(subjects, fixedSessions)
    }

    /** Counts the fixed sessions whose subject is `subject`. */
    method CountFixed(subject: Subject) returns (fixedCount: nat)
      ensures fixedCount == FixedCount(fixedSessions, subject)
    {
      fixedCount := 0;
      var j := 0;
      while j < |fixedSessions|
        invariant 0 <= j <= |fixedSessions|
        invariant fixedCount == FixedCount(fixedSessions[..j], subject)
      {
        if fixedSessions[j].subject == subject {
          fixedCount := fixedCount + 1;
        }
        assert fixedSessions[..j + 1][..j] == fixedSessions[..j];
        j := j + 1;
      }
      assert fixedSessions[..j] == fixedSessions;
    }

    /** Appends `subject` to `obligations` once per step of `range(remaining)`, so not at
        all when `remaining` is not positive. */
    method AppendCopies(obligations: seq<Subject>, subject: Subject, remaining: int)
      returns (extended: seq<Subject>)
      ensures extended == obligations + Repeat(subject, if remaining > 0 then remaining else 0)
    {
      extended := obligations;
      var k := 0;
      while k < remaining
        invariant 0 <= k <= if remaining > 0 then remaining else 0
        invariant extended == obligations + Repeat(subject, k)
      {
        assert Repeat(subject, k + 1) == Repeat(subject, k) + [subject];
        extended := extended + [subject];
        k := k + 1;
      }
    }

    /** Builds the obligation list: for each subject, counts its fixed sessions and appends it
        as many more times as its sessions per week exceed that count. */
    method ObligationList() returns (obligations: seq<Subject>)
      ensures obligations == Obligations(subjects, fixedSessions)
    {
      obligations := [];
      var i := 0;
      while i < |subjects|
        invariant 0 <= i <= |subjects|
        invariant obligations == Obligations(subjects[..i], fixedSessions)
      {
        var subject := subjects[i];
        var fixedCount := CountFixed(subject);
        var remaining := subject.sessionsPerWeek - fixedCount;
        assert Remaining(subject, fixedSessions) == if remaining > 0 then remaining else 0;
        obligations := AppendCopies(obligations, subject, remaining);
        ObligationsStep(subjects, i, fixedSessions);
        i := i + 1;
      }
      assert subjects[..i] == subjects;
    }

    /** A new schedule holding the fixed sessions, each added by `add_session` in turn. */
    method SeedSchedule() returns (schedule: Schedule)
      ensures fresh(schedule)
      ensures schedule.sessions == Seed()
    {
      schedule := new Schedule([]);
      var f := 0;
      while f < |fixedSessions|
        invariant 0 <= f <= |fixedSessions|
        invariant fresh(schedule)
        invariant schedule.sessions == AddAll([], fixedSessions[..f])
      {
        var added := schedule.AddSession(fixedSessions[f]);
        assert fixedSessions[..f + 1][..f] == fixedSessions[..f];
        f := f + 1;
      }
      assert fixedSessions[..f] == fixedSessions;
    }

    /** One attempt: places `order` on a copy of `seed`, giving the copy when every obligation
        was placed. That happens exactly when some placement of `order` after `seed` exists. */
    method Attempt(seed: seq<ScheduledSession>, order: seq<Subject>) returns (placed: Option<Schedule>)
      requires CatalogSlotsPositive()
      requires PairwiseConflictFree(seed)
      ensures placed.Some? ==> fresh(placed.value)
      ensures placed.Some? <==> !Unplaceable(seed, order)
      ensures placed.Some? ==> PlacedAfter(seed, placed.value.sessions, order)
      ensures placed.Some? ==> PairwiseConflictFree(placed.value.sessions)
    {
      var testSchedule := new Schedule(seed);
      var success := PlaceSubjects(testSchedule, order);
      if success {
        assert IsPlacement(seed, testSchedule.sessions[|seed|..], order);
        return Some(testSchedule);
      }
      return None;
    }

    /** Seeds a schedule with the fixed sessions, then makes up to `maxAttempts` attempts to
        place all obligations on a copy of it, returning the first complete one. Otherwise it
        returns the seeded schedule, or nothing when that is empty. `shuffles` supplies the
        obligation order of each attempt when randomizing. */
    method GenerateSchedule(maxAttempts: int, randomize: bool, shuffles: seq<seq<Subject>>)
      returns (result: Option<Schedule>)
      requires CatalogSlotsPositive()
      requires randomize ==> maxAttempts <= |shuffles|
      requires randomize ==> forall k | 0 <= k < |shuffles| ::
                 multiset(shuffles[k]) == multiset(Obligations(subjects, fixedSessions))
      ensures result.Some? ==> fresh(result.value)
      ensures result.Some? ==> PairwiseConflictFree(result.value.sessions)
      ensures (exists k | 0 <= k < maxAttempts :: !Unplaceable(Seed(), AttemptOrder(k, randomize, shuffles))) ==>
                result.Some? &&
                exists k | 0 <= k < maxAttempts ::
                  && PlacedAfter(Seed(), result.value.sessions, AttemptOrder(k, randomize, shuffles))
                  && forall j | 0 <= j < k :: Unplaceable(Seed(), AttemptOrder(j, randomize, shuffles))
      ensures (forall k | 0 <= k < maxAttempts :: Unplaceable(Seed(), AttemptOrder(k, randomize, shuffles))) ==>
                if Seed() == [] then result.None? else result.Some? && result.value.sessions == Seed()
      ensures result.None? <==>
                Seed() == [] && forall k | 0 <= k < maxAttempts :: Unplaceable(Seed(), AttemptOrder(k, randomize, shuffles))
    {
      var schedule := SeedSchedule();
      var subjectsToSchedule := ObligationList();
      var attempt := 0;
      while attempt < maxAttempts
        invariant 0 <= attempt
        invariant schedule.sessions == Seed()
        invariant !randomize ==> subjectsToSchedule == Obligations(subjects, fixedSessions)
        invariant forall j | 0 <= j < attempt :: Unplaceable(Seed(), AttemptOrder(j, randomize, shuffles))
      {
        if randomize {
          subjectsToSchedule := shuffles[attempt];
        }
        assert subjectsToSchedule == AttemptOrder(attempt, randomize, shuffles);
        var placed := Attempt(schedule.sessions, subjectsToSchedule);
        if placed.Some? {
          assert PlacedAfter(Seed(), placed.value.sessions, AttemptOrder(attempt, randomize, shuffles));
          assert !Unplaceable(Seed(), AttemptOrder(attempt, randomize, shuffles));
          return placed;
        }
        attempt := attempt + 1;
      }
      assert forall k | 0 <= k < maxAttempts :: Unplaceable(Seed(), AttemptOrder(k, randomize, shuffles));
      if schedule.sessions != [] {
        return Some(schedule);
      }
      return None;
    }

    /** Rebuilds a schedule: adds the fixed sessions of `schedule` (in order, by `add_session`)
        to an empty schedule, then places the subjects of its other sessions, in order. The
        result holds either all of them or none, since a failed placement is undone. */
    method OptimizeSchedule(schedule: Schedule) returns (optimized: Schedule)
      requires CatalogSlotsPositive()
      ensures fresh(optimized)
      ensures PairwiseConflictFree(optimized.sessions)
      ensures var seed := AddAll([], Filter(schedule.sessions, (s: ScheduledSession) => s.isFixed));
              var toPlace := SubjectsOf(Filter(schedule.sessions, (s: ScheduledSession) => !s.isFixed));
              if Unplaceable(seed, toPlace) then optimized.sessions == seed
              else PlacedAfter(seed, optimized.sessions, toPlace)
    {
      optimized := new Schedule([]);
      var fixed := Filter(schedule.sessions, (s: ScheduledSession) => s.isFixed);
      var f := 0;
      while f < |fixed|
        invariant 0 <= f <= |fixed|
        invariant optimized.sessions == AddAll([], fixed[..f])
      {
        var added := optimized.AddSession(fixed[f]);
        assert fixed[..f + 1][..f] == fixed[..f];
        f := f + 1;
      }
      assert fixed[..f] == fixed;
      AddAllPreservesValid([], fixed);
      var nonFixed := Filter(schedule.sessions, (s: ScheduledSession) => !s.isFixed);
      var subjectsToReschedule := seq(|nonFixed|, k requires 0 <= k < |nonFixed| => nonFixed[k].subject);
      assert subjectsToReschedule == SubjectsOf(nonFixed);
      var placedAll := PlaceSubjects(optimized, subjectsToReschedule);
    }
  }
}
