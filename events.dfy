/** Activity weighting (events.py): how much a GitHub event adds to the
    contribution calendar, the busiest day among a user's events, and the
    boundary table that turns data levels into commit counts. */
module Events {
  import opened Wrappers
  import opened PyDict
  import opened Calendar
  import Text

  /** A GitHub event, reduced to what the weighting reads: its type, the
      payload's `action`, `ref` and number of `commits`, the default branch
      of its repository and the day it was created. */
  datatype Event = Event(
    kind: string,
    action: string,
    ref: string,
    commits: nat,
    defaultBranch: string,
    created: Day)

  /** Raised by `max` on an empty sequence and by `range` with step 0. */
  datatype ValueError = ValueError

  // ---------------------------------------------------------------------
  // Calendar weight of one event.

  /** `__calendar_event_count`: a fork counts once; a push counts its
      commits when the last `/` segment of its ref is the default branch;
      an opened issue or pull request and a created review count once;
      everything else counts nothing. */
  function CalendarEventCount(e: Event): (n: nat)
    ensures n > 0 ==>
      e.kind in {"ForkEvent", "PushEvent", "IssuesEvent", "PullRequestEvent", "PullRequestReviewEvent"}
    ensures e.kind != "PushEvent" ==> n <= 1
    ensures e.kind == "PushEvent" ==> n <= e.commits
  {
    match e.kind
    case "ForkEvent" => 1
    case "PushEvent" =>
      if Text.LastPiece(e.ref, '/') == e.defaultBranch then e.commits else 0
    case "IssuesEvent" => if e.action == "opened" then 1 else 0
    case "PullRequestEvent" => if e.action == "opened" then 1 else 0
    case "PullRequestReviewEvent" => if e.action == "created" then 1 else 0
    case _ => 0
  }

  /** A fork always counts once; an opened issue or pull request and a
      created review count once, and otherwise nothing. */
  lemma CountedKinds(e: Event)
    ensures e.kind == "ForkEvent" ==> CalendarEventCount(e) == 1
    ensures e.kind in {"IssuesEvent", "PullRequestEvent"} ==>
      (CalendarEventCount(e) == 1 <==> e.action == "opened")
    ensures e.kind == "PullRequestReviewEvent" ==>
      (CalendarEventCount(e) == 1 <==> e.action == "created")
  {
  }

  /** A push to a default branch whose name has no `/` counts its commits
      exactly when the ref is that name or ends with `/` and that name
      (`refs/heads/main` for `main`); otherwise it counts nothing. */
  lemma PushCount(e: Event)
    requires e.kind == "PushEvent"
    requires '/' !in e.defaultBranch
    ensures var b := e.defaultBranch; var r := e.ref;
      CalendarEventCount(e) == if r == b || (|r| > |b| && r[|r| - |b| - 1] == '/' && r[|r| - |b|..] == b)
        then e.commits else 0
  {
    Text.LastPieceIs(e.ref, '/', e.defaultBranch);
  }

  /** A push to a default branch whose name holds a `/` never counts. */
  lemma PushToSlashedBranch(e: Event)
    requires e.kind == "PushEvent"
    requires '/' in e.defaultBranch
    ensures CalendarEventCount(e) == 0
  {
    Text.LastPieceLacksSeparator(e.ref, '/', e.defaultBranch);
  }

  // ---------------------------------------------------------------------
  // The busiest day.

  /** The one day the tally looks at: 2021-12-02. */
  const CountedDay: Day := 738126

  /** The day is 2021-12-02 (a Thursday). */
  lemma CountedDayIsDecember2nd2021()
    ensures Civil(CountedDay) == (2021, 12, 2)
    ensures IsoWeekday(CountedDay) == 4
  {
    // 2020 whole years of 365 days and 505 - 20 + 5 leap days, 334 days
    // of 2021 before December, and the second of December
    assert Calendar.ValidDate(2021, 12, 2);
    assert Calendar.Ordinal(2021, 12, 2) == 2020 * 365 + 490 + 334 + 2;
    Calendar.CivilOfOrdinal(2021, 12, 2);
  }

  /** The `defaultdict` after the loop over the first events: an event on
      the counted day adds its weight to that day, creating the entry
      first if needed; other events are skipped. */
  function Tally(events: seq<Event>): (r: Dict)
    ensures |r.keys| <= 1
    ensures forall day :: day in r.values ==> day == CountedDay
  {
    if events == [] then Empty()
    else
      var freq := Tally(events[..|events| - 1]);
      var e := events[|events| - 1];
      if e.created == CountedDay then
        assert |freq.keys| == 1 ==> freq.keys[0] in freq.values;
        Insert(freq, e.created, (if e.created in freq.values then freq.values[e.created] else 0) + CalendarEventCount(e))
      else freq
  }

  predicate AnyOn(events: seq<Event>, d: Day)
  {
    exists k :: 0 <= k < |events| && events[k].created == d
  }

  /** Some event is on day `d` iff one before the last is, or the last is. */
  lemma AnyOnSnoc(events: seq<Event>, d: Day)
    requires events != []
    ensures AnyOn(events, d) <==> AnyOn(events[..|events| - 1], d) || events[|events| - 1].created == d
  {
    var init := events[..|events| - 1];
    if AnyOn(init, d) {
      var k :| 0 <= k < |init| && init[k].created == d;
      assert events[k] == init[k];
    }
    if AnyOn(events, d) && events[|events| - 1].created != d {
      var k :| 0 <= k < |events| && events[k].created == d;
      assert init[k] == events[k];
    }
  }

  /** The summed weight of the events created on day `d`; a day with no
      events weighs nothing. */
  function DayTotal(events: seq<Event>, d: Day): (n: nat)
    ensures !AnyOn(events, d) ==> n == 0
  {
    if events == [] then 0
    else
      AnyOnSnoc(events, d);
      DayTotal(events[..|events| - 1], d)
        + (if events[|events| - 1].created == d then CalendarEventCount(events[|events| - 1]) else 0)
  }

  /** The tally holds one entry, the counted day with its total weight,
      when some event is on that day, and nothing otherwise. */
  lemma {:induction false} TallyHoldsCountedDay(events: seq<Event>)
    ensures Tally(events).keys == if AnyOn(events, CountedDay) then [CountedDay] else []
    ensures AnyOn(events, CountedDay) ==>
      Tally(events).values == map[CountedDay := DayTotal(events, CountedDay)]
  {
    if events != [] {
      var init := events[..|events| - 1];
      var e := events[|events| - 1];
      TallyHoldsCountedDay(init);
      AnyOnSnoc(events, CountedDay);
      var freq := Tally(init);
      var total := DayTotal(init, CountedDay);
      if e.created != CountedDay {
        assert Tally(events) == freq;
        assert DayTotal(events, CountedDay) == total;
      } else if AnyOn(init, CountedDay) {
        assert CountedDay in freq.values && freq.values[CountedDay] == total;
        assert Tally(events) == Insert(freq, CountedDay, total + CalendarEventCount(e));
      } else {
        assert freq.keys == [] && freq.values == map[];
        assert Tally(events) == Insert(freq, CountedDay, CalendarEventCount(e));
      }
    }
  }

  /** Python `max(items, key=count)`: the first item with the largest
      count; a `ValueError` when there are none. */
  method MaxByCount(items: seq<(Day, int)>) returns (r: Result<(Day, int), ValueError>)
    ensures r.Err? <==> items == []
    ensures r.Ok? ==>
      exists k :: && 0 <= k < |items| && items[k] == r.value
                  && (forall m :: 0 <= m < |items| ==> items[m].1 <= r.value.1)
                  && (forall m :: 0 <= m < k ==> items[m].1 < r.value.1)
  {
    if items == [] {
      return Err(ValueError);
    }
    var best := 0;
    for k := 1 to |items|
      invariant 0 <= best < k
      invariant forall m :: 0 <= m < k ==> items[m].1 <= items[best].1
      invariant forall m :: 0 <= m < best ==> items[m].1 < items[best].1
    {
      if items[k].1 > items[best].1 {
        best := k;
      }
    }
    r := Ok(items[best]);
  }

  /** `get_max_events_per_day` over the user's events: tally the weights
      per day, then take the item with the largest sum. */
  method MaxEventsPerDay(events: seq<Event>) returns (r: Result<(Day, int), ValueError>)
    ensures r.Err? <==> !AnyOn(events, CountedDay)
    ensures r.Ok? ==> r.value == (CountedDay, DayTotal(events, CountedDay))
  {
    var freq := Empty();
    for i := 0 to |events|
      invariant freq == Tally(events[..i])
    {
      var e := events[i];
      assert events[..i + 1][..i] == events[..i];
      if e.created == CountedDay {
        var current := if e.created in freq.values then freq.values[e.created] else 0;
        freq := Insert(freq, e.created, current + CalendarEventCount(e));
      }
    }
    assert events[..|events|] == events;
    TallyHoldsCountedDay(events);
    r := MaxByCount(Items(freq));
  }

  // ---------------------------------------------------------------------
  // The boundary table.

  /** The values of Python `range(start, stop, step)` for a non-zero
      step. */
  function RangeValues(start: int, stop: int, step: int): seq<int>
    requires step != 0
    decreases if step > 0 then stop - start else start - stop
  {
    if (step > 0 && start < stop) || (step < 0 && start > stop)
    then [start] + RangeValues(start + step, stop, step)
    else []
  }

  /** Python `range(start, stop, step)`: a `ValueError` for step 0. */
  function PyRange(start: int, stop: int, step: int): (r: Result<seq<int>, ValueError>)
    ensures r.Err? <==> step == 0
  {
    if step == 0 then Err(ValueError) else Ok(RangeValues(start, stop, step))
  }

  /** Python's definition of a range: value `i` is `start + i * step`, every
      value lies before `stop` in the step's direction, and the next one
      would not. */
  lemma RangeValuesMeaning(start: int, stop: int, step: int)
    requires step != 0
    ensures var r := RangeValues(start, stop, step);
      && (forall i :: 0 <= i < |r| ==> r[i] == start + i * step)
      && (forall i :: 0 <= i < |r| ==> if step > 0 then r[i] < stop else r[i] > stop)
      && (if step > 0 then start + |r| * step >= stop else start + |r| * step <= stop)
  {
    RangeValuesAt(start, stop, step);
    RangeValuesBefore(start, stop, step);
    RangeValuesEnd(start, stop, step);
  }

  /** Value `i` of a range is `start + i * step`. */
  lemma {:induction false} RangeValuesAt(start: int, stop: int, step: int)
    requires step != 0
    ensures forall i :: 0 <= i < |RangeValues(start, stop, step)| ==>
      RangeValues(start, stop, step)[i] == start + i * step
    decreases if step > 0 then stop - start else start - stop
  {
    var r := RangeValues(start, stop, step);
    if (step > 0 && start < stop) || (step < 0 && start > stop) {
      RangeValuesAt(start + step, stop, step);
      var rest := RangeValues(start + step, stop, step);
      assert r == [start] + rest;
      forall i | 1 <= i < |r| ensures r[i] == start + i * step {
        assert r[i] == rest[i - 1] == start + step + (i - 1) * step;
        assert start + step + (i - 1) * step == start + i * step;
      }
    }
  }

  /** Every value of a range lies before `stop` in the step's direction. */
  lemma {:induction false} RangeValuesBefore(start: int, stop: int, step: int)
    requires step != 0
    ensures forall i :: 0 <= i < |RangeValues(start, stop, step)| ==>
      if step > 0 then RangeValues(start, stop, step)[i] < stop else RangeValues(start, stop, step)[i] > stop
    decreases if step > 0 then stop - start else start - stop
  {
    var r := RangeValues(start, stop, step);
    if (step > 0 && start < stop) || (step < 0 && start > stop) {
      RangeValuesBefore(start + step, stop, step);
      var rest := RangeValues(start + step, stop, step);
      assert r == [start] + rest;
      forall i | 1 <= i < |r| ensures if step > 0 then r[i] < stop else r[i] > stop {
        assert r[i] == rest[i - 1];
      }
    }
  }

  /** The value after the last one of a range is at or past `stop`. */
  lemma {:induction false} RangeValuesEnd(start: int, stop: int, step: int)
    requires step != 0
    ensures var n := |RangeValues(start, stop, step)|;
      if step > 0 then start + n * step >= stop else start + n * step <= stop
    decreases if step > 0 then stop - start else start - stop
  {
    if (step > 0 && start < stop) || (step < 0 && start > stop) {
      RangeValuesEnd(start + step, stop, step);
      var n := |RangeValues(start + step, stop, step)|;
      assert |RangeValues(start, stop, step)| == n + 1;
      assert start + (n + 1) * step == start + step + n * step;
    }
  }

  /** `range(start, start + k * step, step)` is the `k` values
      `start, start + step, ..., start + (k - 1) * step`. */
  lemma {:induction false} RangeOfCount(start: int, k: nat, step: int)
    requires step != 0
    decreases k
    ensures |RangeValues(start, start + k * step, step)| == k
    ensures forall i :: 0 <= i < k ==> RangeValues(start, start + k * step, step)[i] == start + i * step
  {
    if k > 0 {
      assert start + k * step == (start + step) + (k - 1) * step;
      RangeOfCount(start + step, k - 1, step);
      var rest := RangeValues(start + step, start + k * step, step);
      forall i | 1 <= i < k ensures rest[i - 1] == start + i * step {
        assert start + step + (i - 1) * step == start + i * step;
      }
    } else {
      assert start + k * step == start;
    }
  }

  /** Python `//` on an integer and a positive divisor rounds down, as
      Dafny's `/` does then. */
  function FloorDiv(a: int, b: int): int
    requires b > 0
  {
    a / b
  }

  /** `get_commits_pre_data_level` as written: `range(start, start + step * 4,
      step)` with `step` the maximum (diluting) or a quarter of it, and
      `start` the maximum (diluting) or 0. */
  function CommitsPerDataLevel(maxPerDay: int, dilute: bool): (r: Result<seq<int>, ValueError>)
    ensures r.Err? <==> if dilute then maxPerDay == 0 else 0 <= maxPerDay < 4
    ensures r.Ok? ==> |r.value| == 4
  {
    var step := if dilute then maxPerDay else FloorDiv(maxPerDay, 4);
    var start := if dilute then maxPerDay else 0;
    if step == 0 then PyRange(start, start + step * 4, step)
    else
      RangeOfCount(start, 4, step);
      assert start + step * 4 == start + 4 * step;
      PyRange(start, start + step * 4, step)
  }

  /** The table fails exactly when its step is 0, and otherwise holds the
      four values `start + l * step` for `l` in 0..3, increasing when the
      maximum is positive. */
  lemma CommitsPerDataLevelValues(maxPerDay: int, dilute: bool)
    ensures var step := if dilute then maxPerDay else FloorDiv(maxPerDay, 4);
      var start := if dilute then maxPerDay else 0;
      var r := CommitsPerDataLevel(maxPerDay, dilute);
      && (r.Err? <==> step == 0)
      && (r.Err? <==> if dilute then maxPerDay == 0 else 0 <= maxPerDay < 4)
      && (r.Ok? ==> |r.value| == 4 && forall l :: 0 <= l < 4 ==> r.value[l] == start + l * step)
      && (r.Ok? && maxPerDay > 0 ==> forall i, j :: 0 <= i < j < 4 ==> r.value[i] < r.value[j])
  {
    var step := if dilute then maxPerDay else FloorDiv(maxPerDay, 4);
    var start := if dilute then maxPerDay else 0;
    if step != 0 {
      assert start + step * 4 == start + 4 * step;
      RangeOfCount(start, 4, step);
      var r := RangeValues(start, start + 4 * step, step);
      assert r[1] == start + step && r[2] == start + 2 * step && r[3] == start + 3 * step;
    }
  }

  /** The levels 0..4 that a rendering produces fit the table only when it
      has five entries: with the four entries of `CommitsPerDataLevel`, a
      map holding level 4 fails to scale. */
  lemma FourEntryTableRejectsLevel4(maxPerDay: int, dilute: bool, d: Dict, day: Day)
    requires CommitsPerDataLevel(maxPerDay, dilute).Ok?
    requires day in d.values && d.values[day] == 4
    ensures Scale(CommitsPerDataLevel(maxPerDay, dilute).value, d).Err?
  {
    CommitsPerDataLevelValues(maxPerDay, dilute);
  }

  /** The boundary table the scaling needs: one count per data level
      0..4, `range(start, start + step * 5, step)`. */
  function BoundariesPerDataLevel(maxPerDay: int, dilute: bool): (r: Result<seq<int>, ValueError>)
    ensures r.Err? <==> if dilute then maxPerDay == 0 else 0 <= maxPerDay < 4
    ensures r.Ok? ==> |r.value| == 5
  {
    var step := if dilute then maxPerDay else FloorDiv(maxPerDay, 4);
    var start := if dilute then maxPerDay else 0;
    if step == 0 then PyRange(start, start + step * 5, step)
    else
      RangeOfCount(start, 5, step);
      assert start + step * 5 == start + 5 * step;
      PyRange(start, start + step * 5, step)
  }

  /** The five-entry table fails exactly when its step is 0; otherwise
      level `l` gets `start + l * step` commits, and every map whose levels
      lie in 0..4 scales, each level replaced by its count. */
  lemma BoundariesScaleEveryLevel(maxPerDay: int, dilute: bool, d: Dict)
    requires forall day :: day in d.values ==> 0 <= d.values[day] <= 4
    ensures var step := if dilute then maxPerDay else FloorDiv(maxPerDay, 4);
      var start := if dilute then maxPerDay else 0;
      var b := BoundariesPerDataLevel(maxPerDay, dilute);
      && (b.Err? <==> step == 0)
      && (b.Ok? ==> |b.value| == 5 && forall l :: 0 <= l < 5 ==> b.value[l] == start + l * step)
      && (b.Ok? ==>
            && Scale(b.value, d).Ok?
            && Scale(b.value, d).value.keys == d.keys
            && forall day :: day in d.values ==>
                 Scale(b.value, d).value.values[day] == start + d.values[day] * step)
  {
    var step := if dilute then maxPerDay else FloorDiv(maxPerDay, 4);
    var start := if dilute then maxPerDay else 0;
    if step != 0 {
      assert start + step * 5 == start + 5 * step;
      RangeOfCount(start, 5, step);
      ScaleReplacesLevels(BoundariesPerDataLevel(maxPerDay, dilute).value, d);
    }
  }
}
