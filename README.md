# Osteo scheduler timetable engine, in Dafny

This project models the core of the osteopathy course scheduler. The model covers four parts:

- **The data model.** It holds time slots, rooms, lecturers with slot-based availability, subjects, blocks and weeks. It also holds scheduled sessions, the rule for when two sessions conflict, and the `Schedule` list that `add_session`, `remove_session`, the `get_sessions_by_*` queries and `is_valid` work on.
- **The scheduling engine.** It holds:
  - the placement checks (capacity, features, lecturer availability, preferred days, no conflict);
  - the enumeration of every legal placement of one subject;
  - the depth-first placement of a list of obligations, which undoes a placement when it fails;
  - `generate_schedule`, which seeds the fixed sessions and tries up to `max_attempts` obligation orders;
  - `optimize_schedule`.
- **The scheduling helpers.** These are the standard slot grid, grouping slots into named blocks, and schedule statistics.
- **The date-restriction builder for lecturers.** It keeps available dates (each with morning/afternoon parts), unavailable dates and a default. Two convenience functions drive it from a list of dates or from date ranges.

The modules are:

- `Models` (`models.dfy`)
- `Scheduler` (`scheduler.dfy`)
- `SchedulingHelper` (`scheduling_helper.dfy`)
- `TimeRestrictions` (`time_restrictions.dfy`)
- two small supporting modules: `Wrappers` (the `Option` type) and `Collections` (an order-preserving `Filter`, a subsequence predicate, and the image set of a sequence).

Entities the source never updates in place are datatypes. As with the source's dataclasses, two entities are equal exactly when all their fields are equal. Three things are mutable:

- `Schedule` and `LecturerTimeRestrictionBuilder` are classes whose methods change their fields.
- The placement search, the attempt loop and the helpers are methods with loops.
- Each such method is specified by a function on values: `AddResult`, `RemoveFirst`, `Candidates`, `PlacedAfter`, `Obligations`, `StandardSlots`, `BlocksFor`, `MarkAvailable` and the other `Mark*`/`Apply*` folds. The lemmas are stated about those functions.

Two consequences of the source's equality and conflict rules:

- **Week equality.** Two weeks compare equal only when their blocks are equal too, as the dataclass equality in `models.py` does. It is not just number and year. Sessions in "the same week" must carry identical week values to conflict.
- **Self-conflict.** A session whose slot has positive length conflicts with an equal copy of itself, because it shares its room during its own slot (`ConflictsWithSelf`). The conflict rule does not exclude the reflexive case. A zero-length slot does not overlap itself, so such a session does not conflict with an equal copy of itself.

## Model

| member | source | states |
|---|---|---|
| Models.TimeSlot.OverlapsWith | models.py:40-50 | Slots on different days never overlap. For slots of positive length, overlapping means being on the same day with some minute of that day covered by both half-open intervals [start, start+duration). |
| Models.OverlapsSymmetric | models.py:40-50 | Overlap is symmetric. |
| Models.OverlapsSelf | models.py:45-50 | A slot overlaps itself exactly when its duration is positive. |
| Models.SomeWindowContains | models.py:84-98 | The search over the available slots succeeds exactly when some slot contains the requested one on the same day. |
| Models.Lecturer.IsAvailable | models.py:82-98 | A lecturer is available exactly when one of their available slots completely contains the slot on the same day. With no available slots they are never available. |
| Models.AvailabilityNeedsContainment | models.py:95-97 | Monday 9:00-10:00 availability admits that hour and rejects 15:00. It also rejects 9:30-10:30, which overlaps the window but is not contained in it. |
| Models.ScheduledSession.ConflictsWith | models.py:160-180 | Sessions of different weeks, or at non-overlapping slots, never conflict. Otherwise they conflict exactly when they share a resource: the room, or a lecturer both subjects require. |
| Models.ConflictsSymmetric | models.py:160-180 | The conflict relation is symmetric. |
| Models.ConflictsWithSelf | models.py:160-172 | A session whose slot has positive length conflicts with itself. |
| Models.ConflictMeansSharedResource | models.py:160-180 | For positive lengths, two sessions conflict exactly when they are in the same week and on the same day, share a minute, and share a resource. |
| Models.FirstIndexOf | models.py:196-199 | The index found is the first occurrence of the session. |
| Models.RemoveFirst | models.py:196-199 | Removal deletes the first equal session only. It is a no-op when the session is absent. The multiset loses exactly one copy. |
| Models.AddPreservesValid | models.py:188-194 | `add_session` keeps a conflict-free schedule conflict free. |
| Models.AddAllPreservesValid | models.py:188-194 | Any schedule built from a conflict-free one (e.g. the empty one) by `add_session` calls alone is conflict free. |
| Models.AddThenRemove | models.py:188-199 | If nothing conflicts with a session of positive length, adding it appends it, and removing it afterwards restores the original list exactly. |
| Models.Schedule.AddSession | models.py:188-194 | Reports success exactly when no existing session conflicts. On success the session is appended at the end; otherwise the list is unchanged. |
| Models.Schedule.RemoveSession | models.py:196-199 | The new list is the old one with its first equal session removed. |
| Models.Schedule.SessionsByWeek | models.py:201-203 | Returns the order-preserving sub-list of the sessions in that week, each with its original multiplicity. |
| Models.Schedule.SessionsByRoom | models.py:205-207 | Returns the order-preserving sub-list of the sessions in that room, each with its original multiplicity. |
| Models.Schedule.SessionsByLecturer | models.py:209-211 | Returns the order-preserving sub-list of the sessions whose subject requires the lecturer. |
| Models.Schedule.IsValid | models.py:213-219 | Returns true exactly when no earlier session conflicts with a later one. |
| Scheduler.AllAvailable | scheduler.py:31-33 | Passes exactly when every listed lecturer is available for the slot. |
| Scheduler.CheckLecturerAvailability | scheduler.py:31-33 | Passes exactly when each required lecturer has an available slot containing the slot. A subject without lecturers always passes. |
| Scheduler.CheckNoConflicts | scheduler.py:43-48 | Passes exactly when no existing session conflicts with the new one. |
| Scheduler.RoomChecksExample | scheduler.py:21-40 | On the data of the constraint test (test_system.py:133-157), the 30-seat projector room passes the capacity and feature checks and the 10-seat bare room fails both. The Monday 9:00 slot is available and 15:00 is not. Without preferred days a Sunday slot passes; preferring Monday passes a Monday slot and fails a Tuesday one. |
| Scheduler.RoomCandidates | scheduler.py:164-183 | At one slot, the candidates are exactly the new, non-fixed sessions in the listed rooms that pass capacity, features and no-conflict. |
| Scheduler.SlotCandidates | scheduler.py:155-183 | Over a list of slots, the candidates are exactly the sessions at those slots that pass the lecturer and preferred-day checks and the room-level checks. |
| Scheduler.BlockCandidates | scheduler.py:154-183 | Over the blocks of a week, the candidates are exactly the sessions at a slot of one of those blocks that pass every check. |
| Scheduler.WeekCandidates | scheduler.py:153-183 | Over the weeks, the candidates are exactly the sessions in one of the weeks, at a slot of one of its blocks, that pass every check. |
| Scheduler.PlacementsAtSlot | scheduler.py:164-183 | The room loop returns exactly the room-level candidates, in room order. |
| Scheduler.PlacementsInBlock | scheduler.py:155-183 | The slot loop skips slots that fail the lecturer or preferred-day check. It returns the candidates slot by slot. |
| Scheduler.PlacementsInWeek | scheduler.py:154-183 | The block loop returns the candidates block by block. |
| Scheduler.FixedCount | scheduler.py:94-97 | Counts how many fixed sessions have the subject (its multiplicity among their subjects). |
| Scheduler.Repeat | scheduler.py:99-100 | The list has length n and, as a multiset, holds the subject n times and nothing else. |
| Scheduler.ObligationsCount | scheduler.py:90-100 | With distinct subjects, the obligation list holds each subject max(0, sessions per week − its fixed sessions) times, and nothing else. |
| Scheduler.SchedulingAlgorithm.Candidates | scheduler.py:143-185 | The enumeration holds exactly the legal placements. Each is a new non-fixed session of the subject, in a listed week, at a slot of one of its blocks, in a listed room, passing all four checks and conflicting with no session of the schedule. |
| Scheduler.SchedulingAlgorithm.LegalPlacementPositive | scheduler.py:149-179 | With positive catalogue slots, every legal placement has a slot of positive length. |
| Scheduler.SchedulingAlgorithm.PlacementCons | scheduler.py:128-138 | A legal first placement followed by a placement of the rest is a placement of all obligations. |
| Scheduler.SchedulingAlgorithm.PlacementPreservesValid | scheduler.py:128-138 | Placing obligations one legal session at a time keeps a conflict-free schedule conflict free. Each placed session is a non-fixed session of its obligation's subject. |
| Scheduler.SchedulingAlgorithm.PlacementUncons | scheduler.py:128-138 | Conversely, a placement of a non-empty obligation list starts with a legal placement of the first obligation, followed by a placement of the rest. |
| Scheduler.SchedulingAlgorithm.PlacementHasCandidate | scheduler.py:131-136 | Every placement of the obligations starts with one of the enumerated candidates for the first obligation, and the rest is a placement after it. |
| Scheduler.SchedulingAlgorithm.NoPlacementWithoutCandidate | scheduler.py:131-141 | If no enumerated candidate for the first obligation can be followed by a placement of the rest, no placement of the obligations exists at all. This is why the depth-first search is exhaustive. |
| Scheduler.SchedulingAlgorithm.PlacedAfterCons | scheduler.py:134-138 | If the first obligation succeeds and the recursive call places the rest after it, the whole list is placed after the old contents, and validity is kept. |
| Scheduler.SchedulingAlgorithm.GetPossiblePlacements | scheduler.py:143-185 | Returns exactly the enumeration above, in week, block, slot, room order. |
| Scheduler.SchedulingAlgorithm.PlaceSubjects | scheduler.py:116-141 | On success the schedule is its old contents followed by one legal placement per obligation, in obligation order, and stays conflict free. It fails only when no such placement exists (`Unplaceable`), and then the schedule is exactly as before. |
| Scheduler.SchedulingAlgorithm.PlaceAfter | scheduler.py:135-139 | One step of the search, for a candidate that conflicts with nothing. If the rest can be placed after it, the schedule becomes the old contents, the candidate, and such a placement. Otherwise no placement of the rest after the candidate exists, and the candidate is removed again, restoring the old contents. |
| Scheduler.SchedulingAlgorithm.Seed | scheduler.py:84-88 | The schedule seeded by adding the fixed sessions one by one is conflict free. |
| Scheduler.SchedulingAlgorithm.CountFixed | scheduler.py:94-97 | The counting loop yields the number of fixed sessions of the subject. |
| Scheduler.SchedulingAlgorithm.AppendCopies | scheduler.py:99-100 | The `range` loop appends the subject max(0, remaining) times and keeps what was there before. |
| Scheduler.SchedulingAlgorithm.ObligationList | scheduler.py:90-100 | The list built is the obligation list: subject by subject, each repeated max(0, sessions per week − fixed count) times. |
| Scheduler.SchedulingAlgorithm.SeedSchedule | scheduler.py:84-88 | The new schedule holds exactly the fixed sessions that `add_session` accepts, in order. |
| Scheduler.SchedulingAlgorithm.Attempt | scheduler.py:107-111 | One attempt works on a new schedule holding a copy of the seed. It succeeds exactly when a placement of that order after the seed exists, and then yields the seed followed by such a placement, conflict free. |
| Scheduler.SchedulingAlgorithm.GenerateSchedule | scheduler.py:69-113 | Any returned schedule is a new object and conflict free. If some attempt's order admits a placement after the seed, the result is the seed followed by a placement in the order of the first such attempt. If none does, the result is the seed alone, or nothing when the seed is empty. So it returns nothing only when the seed is empty and no attempt's order admits a placement. |
| Scheduler.SchedulingAlgorithm.OptimizeSchedule | scheduler.py:187-207 | The result starts with the fixed sessions accepted by `add_session`. If the other sessions' subjects, in their order, can be placed after those, it holds such a full placement. Otherwise it holds nothing more. It is a new schedule and conflict free. |
| SchedulingHelper.HoursFrom | scheduler.py:241-248 | The hours visited form the progression start, start+step, … Each is below the end, and the next one would not be. It is empty exactly when the range is empty. |
| SchedulingHelper.DaySlots | scheduler.py:242-247 | One slot per hour on the day, each starting on the hour with the given duration. |
| SchedulingHelper.StandardSlots | scheduler.py:237-248 | The grid holds exactly the on-the-hour slots of the given duration, on the given days, at the visited hours. Its size is days × hours. |
| SchedulingHelper.HourSlots | scheduler.py:239-247 | The hour loop yields that day's slots in hour order. |
| SchedulingHelper.CreateStandardTimeSlots | scheduler.py:214-249 | The grid is day by day (Monday to Friday by default), each day's slots in hour order. |
| SchedulingHelper.DefaultGridSize | scheduler.py:214-236 | The default grid (8 to 18, 60 minutes, weekdays) has 50 slots. |
| SchedulingHelper.BlockId | scheduler.py:272 | The id has the name's length and contains no spaces and no capitals. Spaces become `_`, capitals become their lower-case letters, and other characters are kept. |
| SchedulingHelper.SlotsBetween | scheduler.py:266-269 | The block's slots are exactly the input slots starting in [start, end), as an order-preserving sub-list, each as often as it occurs in the input. |
| SchedulingHelper.CatchingDefinitions | scheduler.py:266-271 | Keeps, in order (as a subsequence of the definitions), exactly the definitions whose hours catch at least one slot, and no more of them than there are definitions. |
| SchedulingHelper.CatchingCounts | scheduler.py:266-271 | Each definition that catches a slot is kept as often as it is listed, and one that catches none is not kept. |
| SchedulingHelper.BlocksFor | scheduler.py:265-277 | There are no more blocks than definitions. Each block is non-empty, holds exactly the slots of some definition, and has that definition's name and derived id. Every definition that catches a slot yields its block. |
| SchedulingHelper.BlocksOfCatching | scheduler.py:265-277 | The blocks correspond one to one, in order, to the definitions that catch a slot: the k-th block holds the slots, name and derived id of the k-th catching definition. With the counts above, each listed catching definition yields exactly one block, in definition order. |
| SchedulingHelper.CreateBlocksFromSlots | scheduler.py:251-278 | The loop yields those blocks in definition order. |
| SchedulingHelper.MorningBlockExample | scheduler.py:272 | "Morning" gets id "morning" and "Late Afternoon" gets "late_afternoon". |
| SchedulingHelper.CollectLecturers | scheduler.py:291-293 | The update loop gathers exactly the lecturers required by the subject of some session. |
| SchedulingHelper.GetScheduleStatistics | scheduler.py:280-303 | An empty schedule gives zeros and no validity entry. Otherwise the counts are the number of sessions and of distinct rooms, lecturers and weeks, and the entry reports conflict-freedom. Rooms and weeks used are between 1 and the session count. |
| SchedulingHelper.UsedBounds | scheduler.py:289-295 | A non-empty schedule uses at least one and at most one room and one week per session. |
| TimeRestrictions.Buckets | time_restrictions.py:71-75 | The selection contains the morning exactly when that flag is set, and likewise the afternoon. It is empty exactly when neither is set. |
| TimeRestrictions.DateRange | time_restrictions.py:112-115 | The range holds exactly the dates from start to end, both included. |
| TimeRestrictions.MarkAvailable | time_restrictions.py:63-80 | The date becomes available and its map entry becomes exactly the selection. When nothing is selected the map is untouched. Unavailable dates and other entries are unchanged, and validity is kept. |
| TimeRestrictions.MarkUnavailable | time_restrictions.py:129-142 | The date becomes unavailable and leaves the available dates and the map. Nothing else changes, and validity is kept. |
| TimeRestrictions.AvailableRangeEffect | time_restrictions.py:111-117 | A range adds every date from start to end with the same selection, and nothing when start > end. It keeps every other entry and keeps validity. |
| TimeRestrictions.UnavailableRangeEffect | time_restrictions.py:169-175 | A range moves every date from start to end out of the available dates and the map and into the unavailable dates. |
| TimeRestrictions.BuildFrom | time_restrictions.py:203-224 | The record carries the lecturer id, type "lecturer", no slots, the builder's dates and map, and a default holding morning and afternoon exactly as flagged. |
| TimeRestrictions.LecturerTimeRestrictionBuilder.constructor | time_restrictions.py:32-44 | A new builder has no dates, an empty map and both defaults set. |
| TimeRestrictions.LecturerTimeRestrictionBuilder.AddAvailableDate | time_restrictions.py:46-80 | The new state is `MarkAvailable` of the old one. The map invariant (keys are available dates, values non-empty) is kept. |
| TimeRestrictions.LecturerTimeRestrictionBuilder.AddAvailableDateRange | time_restrictions.py:82-117 | Day by day, the new state is `MarkAvailable` applied to each date of the inclusive range. |
| TimeRestrictions.LecturerTimeRestrictionBuilder.AddUnavailableDate | time_restrictions.py:119-142 | The new state is `MarkUnavailable` of the old one. |
| TimeRestrictions.LecturerTimeRestrictionBuilder.AddUnavailableDateRange | time_restrictions.py:144-175 | Day by day, the new state is `MarkUnavailable` applied to each date of the inclusive range. |
| TimeRestrictions.LecturerTimeRestrictionBuilder.SetDefaultAvailability | time_restrictions.py:177-194 | Only the two default flags change. |
| TimeRestrictions.LecturerTimeRestrictionBuilder.Build | time_restrictions.py:196-224 | The record is the builder's current state and defaults, as `BuildFrom` describes. |
| TimeRestrictions.SpecsEffect | time_restrictions.py:254-262 | From a fresh builder, a date list makes available exactly the listed dates, marks none unavailable, and keeps the state valid. |
| TimeRestrictions.RangesEffect | time_restrictions.py:297-302 | From a fresh builder, the ranges make available exactly the union of the ranges. |
| TimeRestrictions.UnavailableEffect | time_restrictions.py:304-306 | The listed unavailable dates leave the available dates and join the unavailable ones. |
| TimeRestrictions.CreateLecturerAvailabilityFromList | time_restrictions.py:227-262 | The available dates are exactly the listed dates, with missing flags meaning true. No date is unavailable, and the default is both parts of the day. |
| TimeRestrictions.CreateLecturerAvailabilityFromRanges | time_restrictions.py:265-308 | The available dates are the union of the ranges minus the listed unavailable dates, which are applied after all ranges. The unavailable dates are exactly those listed. |

## Left out

- The Flask web layer, PDF export, JSON data loading, the command-line interface, example scripts and printed output are not part of this model.
- `random.shuffle` is not modelled as randomness. `GenerateSchedule` takes one obligation order per attempt as a parameter (`shuffles`), and each must be a permutation of the obligation list. Which permutation each attempt uses is not modelled.
- Scheduler.SchedulingAlgorithm.GenerateSchedule: when randomizing, the source shuffles the same list in place attempt after attempt. The model only knows that each attempt's order is some permutation of the obligations, not that it is derived from the previous attempt's order.
- Scheduler.SchedulingAlgorithm.PlaceSubjects: requires every slot of every block of every week to have positive length (`CatalogSlotsPositive`). With a zero-length slot, a candidate equal to an already placed session does not conflict with it. `remove_session` may then delete the earlier copy, so a failed placement restores the sessions but possibly in another order.
- Scheduler.SchedulingAlgorithm.GenerateSchedule: inherits that same requirement.
- Scheduler.SchedulingAlgorithm.OptimizeSchedule: inherits that same requirement.
- Scheduler.CheckNoConflicts: takes the schedule's session list rather than the `Schedule` object.
- Models.TimeSlot.OverlapsWith: the minute-based reading is stated for slots of positive length only. For zero or negative lengths the contract states only that different days never overlap.
- `SchedulingAlgorithm` with `fixed_sessions=None` is the same as an empty list; the model takes the list.
- `Lecturer.max_hours_per_week` and `Subject.duration_minutes` are carried but never consulted, as in the source.
- SchedulingHelper.CreateStandardTimeSlots: requires that the days are empty, the hour range is empty, or the duration is at least 60 minutes. Otherwise the source's hour loop never ends.
- SchedulingHelper.BlockId: models `str.lower()` on ASCII letters only. Unicode case mapping is not modelled.
- Block definitions are an ordered list of (name, start, end) entries standing for the source's insertion-ordered dictionary.
- Dates are day numbers, and the next day is `+ 1`. Parsing "YYYY-MM-DD" strings and the calendar arithmetic of `timedelta` are not modelled, nor are dates outside the calendar's range.
- The builder's set and dictionary fields are values. `build` in the source hands out the builder's own set and dict objects, so later builder calls would change an already built record. The model does not capture that aliasing.
- The builder methods return the builder for chaining; the model's methods return nothing.
- A date-list or range entry without its date key would pass `None` to the builder. The model requires the date to be present.
- `Availability`, `DateTimeRestriction` and `TimeOfDay` are used only as plain records. Their own behaviour (date lookups, parsing of times) is not part of this model.
- Python's unbounded integers match Dafny's `int`; no overflow is involved.
