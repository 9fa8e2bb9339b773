/** The date-based availability of a lecturer: a builder that collects available dates (each
    with the parts of the day it covers), unavailable dates and a default, and two
    conveniences that drive it from lists of dates or date ranges.

    A calendar date is modelled as its day number, so the day after `d` is `d + 1`. */
module TimeRestrictions {
  import opened Wrappers
  import opened Models

  type Date = int

  datatype TimeOfDay = Morning | Afternoon

  /** The parts of the day selected by the two flags. */
  function Buckets(morning: bool, afternoon: bool): (r: set<TimeOfDay>)
    ensures Morning in r <==> morning
    ensures Afternoon in r <==> afternoon
    ensures r == {} <==> !morning && !afternoon
  {
    (if morning then {Morning} else {}) + (if afternoon then {Afternoon} else {})
  }

  /** The dates from `start` to `end`, both included. */
  function DateRange(start: Date, end: Date): (r: set<Date>)
    ensures forall d :: d in r <==> start <= d <= end
    decreases end - start
  {
    if end < start then {} else DateRange(start, end - 1) + {end}
  }

  /** The record the builder produces: which dates are available (and when), which are not,
      and the parts of the day assumed for dates not listed. */
  datatype DateTimeRestriction = DateTimeRestriction(
    availableDates: set<Date>,
    unavailableDates: set<Date>,
    availableTimeOfDay: map<Date, set<TimeOfDay>>,
    defaultTimeOfDay: set<TimeOfDay>)

  datatype Availability = Availability(
    entityId: string,
    entityType: string,
    availableSlots: set<TimeSlot>,
    dateTimeRestrictions: DateTimeRestriction)

  // ---------------------------------------------------------------------------
  // The builder's date state as a value

  /** The dates and time-of-day map a builder has collected. */
  datatype RestrictionState = RestrictionState(
    availableDates: set<Date>,
    unavailableDates: set<Date>,
    dateTimeMap: map<Date, set<TimeOfDay>>)
  {
    /** Only available dates carry a time-of-day entry, and no entry is empty. */
    predicate Valid() {
      forall d | d in dateTimeMap :: d in availableDates && dateTimeMap[d] != {}
    }
  }

  const Empty := RestrictionState({}, {}, map[])

  /** Marks `date` available for the selected parts of the day. The date always becomes
      available; its map entry becomes exactly the selection, or is left alone when nothing is
      selected; the unavailable dates are untouched. */
  function MarkAvailable(st: RestrictionState, date: Date, morning: bool, afternoon: bool): (r: RestrictionState)
    ensures r.availableDates == st.availableDates + {date}
    ensures r.unavailableDates == st.unavailableDates
    ensures (morning || afternoon) ==> date in r.dateTimeMap && r.dateTimeMap[date] == Buckets(morning, afternoon)
    ensures !(morning || afternoon) ==> r.dateTimeMap == st.dateTimeMap
    ensures forall d | d != date :: (d in r.dateTimeMap <==> d in st.dateTimeMap) &&
                                    (d in r.dateTimeMap ==> r.dateTimeMap[d] == st.dateTimeMap[d])
    ensures st.Valid() ==> r.Valid()
  {
    var buckets := Buckets(morning, afternoon);
    RestrictionState(st.availableDates + {date}, st.unavailableDates,
                     if buckets != {} then st.dateTimeMap[date := buckets] else st.dateTimeMap)
  }

  /** Marks `date` unavailable: it joins the unavailable dates and leaves the available dates
      and the map; nothing else changes. */
  function MarkUnavailable(st: RestrictionState, date: Date): (r: RestrictionState)
    ensures r.availableDates == st.availableDates - {date}
    ensures r.unavailableDates == st.unavailableDates + {date}
    ensures date !in r.dateTimeMap
    ensures forall d | d != date :: (d in r.dateTimeMap <==> d in st.dateTimeMap) &&
                                    (d in r.dateTimeMap ==> r.dateTimeMap[d] == st.dateTimeMap[d])
    ensures st.Valid() ==> r.Valid()
  {
    RestrictionState(st.availableDates - {date}, st.unavailableDates + {date}, st.dateTimeMap - {date})
  }

  /** `MarkAvailable` applied to each date from `start` to `end` in increasing order. */
  function MarkAvailableRange(st: RestrictionState, start: Date, end: Date, morning: bool, afternoon: bool): RestrictionState
    decreases end - start
  {
    if end < start then st
    else MarkAvailable(MarkAvailableRange(st, start, end - 1, morning, afternoon), end, morning, afternoon)
  }

  /** `MarkUnavailable` applied to each date from `start` to `end` in increasing order. */
  function MarkUnavailableRange(st: RestrictionState, start: Date, end: Date): RestrictionState
    decreases end - start
  {
    if end < start then st
    else MarkUnavailable(MarkUnavailableRange(st, start, end - 1), end)
  }

  /** An available range adds every date of the range (none when `end < start`) with the same
      selection, leaves every other map entry, and keeps the state valid. */
  lemma {:induction false} AvailableRangeEffect(st: RestrictionState, start: Date, end: Date, morning: bool, afternoon: bool)
    ensures var r := MarkAvailableRange(st, start, end, morning, afternoon);
      && r.availableDates == st.availableDates + DateRange(start, end)
      && r.unavailableDates == st.unavailableDates
      && (forall d | start <= d <= end && (morning || afternoon) ::
            d in r.dateTimeMap && r.dateTimeMap[d] == Buckets(morning, afternoon))
      && (forall d | !(start <= d <= end && (morning || afternoon)) ::
            (d in r.dateTimeMap <==> d in st.dateTimeMap) &&
            (d in r.dateTimeMap ==> r.dateTimeMap[d] == st.dateTimeMap[d]))
      && (st.Valid() ==> r.Valid())
    decreases end - start
  {
    if start <= end {
      AvailableRangeEffect(st, start, end - 1, morning, afternoon);
      assert DateRange(start, end) == DateRange(start, end - 1) + {end};
    } else {
      assert DateRange(start, end) == {};
    }
  }

  /** An unavailable range moves every date of the range out of the available dates and the
      map and into the unavailable dates, and keeps the state valid. */
  lemma {:induction false} UnavailableRangeEffect(st: RestrictionState, start: Date, end: Date)
    ensures var r := MarkUnavailableRange(st, start, end);
      && r.availableDates == st.availableDates - DateRange(start, end)
      && r.unavailableDates == st.unavailableDates + DateRange(start, end)
      && (forall d | start <= d <= end :: d !in r.dateTimeMap)
      && (forall d | !(start <= d <= end) ::
            (d in r.dateTimeMap <==> d in st.dateTimeMap) &&
            (d in r.dateTimeMap ==> r.dateTimeMap[d] == st.dateTimeMap[d]))
      && (st.Valid() ==> r.Valid())
    decreases end - start
  {
    if start <= end {
      UnavailableRangeEffect(st, start, end - 1);
      assert DateRange(start, end) == DateRange(start, end - 1) + {end};
    } else {
      assert DateRange(start, end) == {};
    }
  }

  /** The record `build` produces from a state and the default flags. */
  function BuildFrom(lecturerId: string, st: RestrictionState, defaultMorning: bool, defaultAfternoon: bool): (r: Availability)
    ensures r.entityId == lecturerId && r.entityType == "lecturer" && r.availableSlots == {}
    ensures r.dateTimeRestrictions.availableDates == st.availableDates
    ensures r.dateTimeRestrictions.unavailableDates == st.unavailableDates
    ensures r.dateTimeRestrictions.availableTimeOfDay == st.dateTimeMap
    ensures Morning in r.dateTimeRestrictions.defaultTimeOfDay <==> defaultMorning
    ensures Afternoon in r.dateTimeRestrictions.defaultTimeOfDay <==> defaultAfternoon
  {
    Availability(lecturerId, "lecturer", {},
                 DateTimeRestriction(st.availableDates, st.unavailableDates, st.dateTimeMap,
                                     Buckets(defaultMorning, defaultAfternoon)))
  }

  // ---------------------------------------------------------------------------
  // The builder

  class LecturerTimeRestrictionBuilder {
    var lecturerId: string
    var availableDates: set<Date>
    var unavailableDates: set<Date>
    var dateTimeMap: map<Date, set<TimeOfDay>>
    var defaultMorning: bool
    var defaultAfternoon: bool

    /** The builder's date state. */
    function State(): RestrictionState
      reads this
    {
      RestrictionState(availableDates, unavailableDates, dateTimeMap)
    }

    predicate Valid()
      reads this
    {
      State().Valid()
    }

    /** A builder for `lecturerId` with no dates and both parts of the day as the default. */
    constructor (lecturerId: string)
      ensures this.lecturerId == lecturerId
      ensures State() == Empty
      ensures defaultMorning && defaultAfternoon
      ensures Valid()
    {
      this.lecturerId := lecturerId;
      availableDates := {};
      unavailableDates := {};
      dateTimeMap := map[];
      defaultMorning := true;
      defaultAfternoon := true;
    }

    method AddAvailableDate(date: Date, morning: bool, afternoon: bool)
      requires Valid()
      modifies this
      ensures State() == MarkAvailable(old(State()), date, morning, afternoon)
      ensures lecturerId == old(lecturerId)
      ensures defaultMorning == old(defaultMorning) && defaultAfternoon == old(defaultAfternoon)
      ensures Valid()
    {
      availableDates := availableDates + {date};
      var timeOfDaySet: set<TimeOfDay> := {};
      if morning {
        timeOfDaySet := timeOfDaySet + {Morning};
      }
      if afternoon {
        timeOfDaySet := timeOfDaySet + {Afternoon};
      }
      assert timeOfDaySet == Buckets(morning, afternoon);
      if timeOfDaySet != {} {
        dateTimeMap := dateTimeMap[date := timeOfDaySet];
      }
    }

    /** Marks every date from `start` to `end` (inclusive) available, one day at a time. */
    method AddAvailableDateRange(start: Date, end: Date, morning: bool, afternoon: bool)
      requires Valid()
      modifies this
      ensures State() == MarkAvailableRange(old(State()), start, end, morning, afternoon)
      ensures lecturerId == old(lecturerId)
      ensures defaultMorning == old(defaultMorning) && defaultAfternoon == old(defaultAfternoon)
      ensures Valid()
    {
      var current := start;
      while current <= end
        invariant start <= current && (current <= end + 1 || current == start)
        invariant State() == MarkAvailableRange(old(State()), start, current - 1, morning, afternoon)
        invariant lecturerId == old(lecturerId)
        invariant defaultMorning == old(defaultMorning) && defaultAfternoon == old(defaultAfternoon)
        invariant Valid()
        decreases end - current
      {
        AddAvailableDate(current, morning, afternoon);
        current := current + 1;
      }
    }

    method AddUnavailableDate(date: Date)
      requires Valid()
      modifies this
      ensures State() == MarkUnavailable(old(State()), date)
      ensures lecturerId == old(lecturerId)
      ensures defaultMorning == old(defaultMorning) && defaultAfternoon == old(defaultAfternoon)
      ensures Valid()
    {
      unavailableDates := unavailableDates + {date};
      if date in availableDates {
        availableDates := availableDates - {date};
      }
      if date in dateTimeMap {
        dateTimeMap := dateTimeMap - {date};
      }
    }

    /** Marks every date from `start` to `end` (inclusive) unavailable, one day at a time. */
    method AddUnavailableDateRange(start: Date, end: Date)
      requires Valid()
      modifies this
      ensures State() == MarkUnavailableRange(old(State()), start, end)
      ensures lecturerId == old(lecturerId)
      ensures defaultMorning == old(defaultMorning) && defaultAfternoon == old(defaultAfternoon)
      ensures Valid()
    {
      var current := start;
      while current <= end
        invariant start <= current && (current <= end + 1 || current == start)
        invariant State() == MarkUnavailableRange(old(State()), start, current - 1)
        invariant lecturerId == old(lecturerId)
        invariant defaultMorning == old(defaultMorning) && defaultAfternoon == old(defaultAfternoon)
        invariant Valid()
        decreases end - current
      {
        AddUnavailableDate(current);
        current := current + 1;
      }
    }

    method SetDefaultAvailability(morning: bool, afternoon: bool)
      modifies this
      ensures defaultMorning == morning && defaultAfternoon == afternoon
      ensures State() == old(State()) && lecturerId == old(lecturerId)
    {
      defaultMorning := morning;
      defaultAfternoon := afternoon;
    }

    /** The availability record: the collected dates and map, the default parts of the day,
        no time slots, and the lecturer's id with the entity type "lecturer". */
    function Build(): (r: Availability)
      reads this
      ensures r == BuildFrom(lecturerId, State(), defaultMorning, defaultAfternoon)
    {
      var defaultTimeOfDay := Buckets(defaultMorning, defaultAfternoon);
      Availability(lecturerId, "lecturer", {},
                   DateTimeRestriction(availableDates, unavailableDates, dateTimeMap, defaultTimeOfDay))
    }
  }

  // ---------------------------------------------------------------------------
  // Conveniences

  /** One entry of a date list; an absent flag means true. */
  datatype DateSpec = DateSpec(date: Date, morning: Option<bool>, afternoon: Option<bool>)

  /** One entry of a range list; an absent flag means true. */
  datatype RangeSpec = RangeSpec(start: Date, end: Date, morning: Option<bool>, afternoon: Option<bool>)

  /** The date specs applied in order. */
  function ApplySpecs(st: RestrictionState, specs: seq<DateSpec>): RestrictionState
    decreases |specs|
  {
    if specs == [] then st
    else
      var spec := specs[|specs| - 1];
      MarkAvailable(ApplySpecs(st, specs[..|specs| - 1]), spec.date, spec.morning.GetOr(true), spec.afternoon.GetOr(true))
  }

  /** The range specs applied in order. */
  function ApplyRanges(st: RestrictionState, ranges: seq<RangeSpec>): RestrictionState
    decreases |ranges|
  {
    if ranges == [] then st
    else
      var range := ranges[|ranges| - 1];
      MarkAvailableRange(ApplyRanges(st, ranges[..|ranges| - 1]), range.start, range.end,
                         range.morning.GetOr(true), range.afternoon.GetOr(true))
  }

  /** The unavailable dates applied in order. */
  function ApplyUnavailable(st: RestrictionState, dates: seq<Date>): RestrictionState
    decreases |dates|
  {
    if dates == [] then st
    else MarkUnavailable(ApplyUnavailable(st, dates[..|dates| - 1]), dates[|dates| - 1])
  }

  /** From an empty state, a date list makes available exactly the listed dates, marks none
      unavailable, and keeps the state valid. */
  lemma {:induction false} SpecsEffect(specs: seq<DateSpec>)
    ensures ApplySpecs(Empty, specs).availableDates == set s | s in specs :: s.date
    ensures ApplySpecs(Empty, specs).unavailableDates == {}
    ensures ApplySpecs(Empty, specs).Valid()
    decreases |specs|
  {
    if specs != [] {
      var init := specs[..|specs| - 1];
      SpecsEffect(init);
      assert specs == init + [specs[|specs| - 1]];
      assert (set s | s in specs :: s.date) == (set s | s in init :: s.date) + {specs[|specs| - 1].date};
    }
  }

  /** The available dates after the ranges: the union of the ranges. */
  function RangeDates(ranges: seq<RangeSpec>): set<Date>
    decreases |ranges|
  {
    if ranges == [] then {}
    else RangeDates(ranges[..|ranges| - 1]) + DateRange(ranges[|ranges| - 1].start, ranges[|ranges| - 1].end)
  }

  /** From an empty state, the ranges make available exactly the dates of the ranges and keep
      the state valid. */
  lemma {:induction false} RangesEffect(ranges: seq<RangeSpec>)
    ensures ApplyRanges(Empty, ranges).availableDates == RangeDates(ranges)
    ensures ApplyRanges(Empty, ranges).unavailableDates == {}
    ensures ApplyRanges(Empty, ranges).Valid()
    decreases |ranges|
  {
    if ranges != [] {
      var init := ranges[..|ranges| - 1];
      var range := ranges[|ranges| - 1];
      RangesEffect(init);
      AvailableRangeEffect(ApplyRanges(Empty, init), range.start, range.end,
                           range.morning.GetOr(true), range.afternoon.GetOr(true));
    }
  }

  /** Marking dates unavailable removes each of them from the available dates and adds it to
      the unavailable ones, and touches no other date. */
  lemma {:induction false} UnavailableEffect(st: RestrictionState, dates: seq<Date>)
    ensures ApplyUnavailable(st, dates).availableDates == st.availableDates - set d | d in dates
    ensures ApplyUnavailable(st, dates).unavailableDates == st.unavailableDates + set d | d in dates
    ensures st.Valid() ==> ApplyUnavailable(st, dates).Valid()
    decreases |dates|
  {
    if dates != [] {
      var init := dates[..|dates| - 1];
      UnavailableEffect(st, init);
      assert dates == init + [dates[|dates| - 1]];
      assert (set d | d in dates) == (set d | d in init) + {dates[|dates| - 1]};
    }
  }

  /** Builds a lecturer's availability from a list of dates, each with its parts of the day. */
  method CreateLecturerAvailabilityFromList(lecturerId: string, specs: seq<DateSpec>) returns (availability: Availability)
    ensures availability == BuildFrom(lecturerId, ApplySpecs(Empty, specs), true, true)
    ensures availability.dateTimeRestrictions.availableDates == set s | s in specs :: s.date
    ensures availability.dateTimeRestrictions.unavailableDates == {}
    ensures availability.dateTimeRestrictions.defaultTimeOfDay == {Morning, Afternoon}
  {
    var builder := new LecturerTimeRestrictionBuilder(lecturerId);
    var i := 0;
    while i < |specs|
      invariant 0 <= i <= |specs|
      invariant builder.State() == ApplySpecs(Empty, specs[..i]) && builder.Valid()
      invariant builder.lecturerId == lecturerId && builder.defaultMorning && builder.defaultAfternoon
    {
      var spec := specs[i];
      builder.AddAvailableDate(spec.date, spec.morning.GetOr(true), spec.afternoon.GetOr(true));
      assert specs[..i + 1][..i] == specs[..i];
      i := i + 1;
    }
    assert specs[..i] == specs;
    availability := builder.Build();
    SpecsEffect(specs);
  }

  /** Builds a lecturer's availability from date ranges, then marks the listed dates
      unavailable; no listed unavailable date stays available. */
  method CreateLecturerAvailabilityFromRanges(lecturerId: string, ranges: seq<RangeSpec>, unavailable: Option<seq<Date>>)
    returns (availability: Availability)
    ensures availability ==
              BuildFrom(lecturerId, ApplyUnavailable(ApplyRanges(Empty, ranges), unavailable.GetOr([])), true, true)
    ensures availability.dateTimeRestrictions.availableDates ==
              RangeDates(ranges) - set d | d in unavailable.GetOr([])
    ensures availability.dateTimeRestrictions.unavailableDates == set d | d in unavailable.GetOr([])
  {
    var builder := new LecturerTimeRestrictionBuilder(lecturerId);
    var i := 0;
    while i < |ranges|
      invariant 0 <= i <= |ranges|
      invariant builder.State() == ApplyRanges(Empty, ranges[..i])
      invariant builder.lecturerId == lecturerId && builder.defaultMorning && builder.defaultAfternoon
    {
      RangesEffect(ranges[..i]);
      var range := ranges[i];
      builder.AddAvailableDateRange(range.start, range.end, range.morning.GetOr(true), range.afternoon.GetOr(true));
      assert ranges[..i + 1][..i] == ranges[..i];
      i := i + 1;
    }
    assert ranges[..i] == ranges;
    RangesEffect(ranges);
    var dates := unavailable.GetOr([]);
    if unavailable.Some? && unavailable.value != [] {
      var j := 0;
      while j < |dates|
        invariant 0 <= j <= |dates|
        invariant builder.State() == ApplyUnavailable(ApplyRanges(Empty, ranges), dates[..j])
        invariant builder.lecturerId == lecturerId && builder.defaultMorning && builder.defaultAfternoon
      {
        UnavailableEffect(ApplyRanges(Empty, ranges), dates[..j]);
        builder.AddUnavailableDate(dates[j]);
        assert dates[..j + 1][..j] == dates[..j];
        j := j + 1;
      }
      assert dates[..j] == dates;
    }
    availability := builder.Build();
    UnavailableEffect(ApplyRanges(Empty, ranges), dates);
  }
}
