/** Workout records: the `Workout` base class and its `Running` and `Cycling`
    subclasses, as a tagged datatype over real numbers, together with the validation
    the app applies to form input before it builds one. */
module Workouts {
  import opened JsValues

  /** The `type` discriminant of a record. */
  datatype WorkoutType = RunningType | CyclingType {
    /** The string stored in the record's `type` field. */
    function Name(): string {
      if RunningType? then "running" else "cycling"
    }
  }

  /** `new Date().getMonth()` (0 to 11) and `new Date().getDate()` at creation. */
  type MonthIndex = m: int | 0 <= m < 12

  datatype CalendarDay = CalendarDay(month: MonthIndex, day: nat)

  /** The clicked map point, stored as `[lat, lng]`. */
  datatype Coords = Coords(lat: real, lng: real)

  /** A stored workout. `id` is the `Date.now()` timestamp at creation (the source keeps
      it as its decimal string, which compares equal exactly when the numbers do). */
  datatype Workout =
    | Running(id: nat, date: CalendarDay, coords: Coords, distance: real, duration: real,
              cadence: real, pace: real, description: string)
    | Cycling(id: nat, date: CalendarDay, coords: Coords, distance: real, duration: real,
              elevationGain: real, speed: real, description: string)
  {
    function Type(): WorkoutType {
      if Running? then RunningType else CyclingType
    }
  }

  /** `validateDataMethod(...inputs)`: every input is finite (`Number.isFinite`) and
      every input is greater than zero. */
  function ValidateData(inputs: seq<Num>): (r: bool)
    ensures r <==> forall i :: 0 <= i < |inputs| ==> IsPositiveFinite(inputs[i])
  {
    AllFinite(inputs) && AllPositive(inputs)
  }

  /** The calls the app makes: two shared fields, one type-specific field, or all three. */
  lemma ValidateDataOfFields(a: Num, b: Num, c: Num)
    ensures ValidateData([a, b, c]) <==> IsPositiveFinite(a) && IsPositiveFinite(b) && IsPositiveFinite(c)
    ensures ValidateData([a, b]) <==> IsPositiveFinite(a) && IsPositiveFinite(b)
    ensures ValidateData([c]) <==> IsPositiveFinite(c)
  {
    var three, two, one := [a, b, c], [a, b], [c];
    assert three[0] == a && three[1] == b && three[2] == c;
    assert two[0] == a && two[1] == b;
    assert one[0] == c;
  }

  /** `inputs.every((inp) => Number.isFinite(inp))`. */
  function AllFinite(inputs: seq<Num>): (r: bool)
    ensures r <==> forall i :: 0 <= i < |inputs| ==> inputs[i].Finite?
  {
    |inputs| == 0 || (inputs[0].Finite? && AllFinite(inputs[1..]))
  }

  /** `inputs.every((inp) => inp > 0)`; +Infinity passes. */
  function AllPositive(inputs: seq<Num>): (r: bool)
    ensures r <==> forall i :: 0 <= i < |inputs| ==> IsPositive(inputs[i])
  {
    |inputs| == 0 || (IsPositive(inputs[0]) && AllPositive(inputs[1..]))
  }

  /** `calcPace`: minutes per kilometre. */
  function CalcPace(duration: real, distance: real): (pace: real)
    requires distance != 0.0
    ensures pace * distance == duration
  {
    duration / distance
  }

  /** `calcSpeed`: kilometres per hour, from minutes. */
  function CalcSpeed(distance: real, duration: real): (speed: real)
    requires duration != 0.0
    ensures speed * duration == distance * 60.0
  {
    var hours := duration / 60.0;
    assert hours * 60.0 == duration;
    distance / hours
  }

  const Months: seq<string> := [
    "January", "February", "March", "April", "May", "June",
    "July", "August", "September", "October", "November", "December"
  ]

  /** `_setDescription`: the capitalised type, then " on ", the month name, a space and
      the day (DescriptionTail). */
  function Describe(t: WorkoutType, date: CalendarDay): string {
    Capitalize(t.Name()) + DescriptionTail(date)
  }

  /** The capitalised type word a description starts with. */
  function TypeWord(t: WorkoutType): (w: string)
    ensures w == if t == RunningType then "Running" else "Cycling"
  {
    var w := Capitalize(t.Name());
    assert w == [ToUpper(t.Name()[0])] + t.Name()[1..];
    w
  }

  /** Everything after the type word in a description: " on ", the month name, a space
      and the day. */
  function DescriptionTail(date: CalendarDay): string {
    " on " + Months[date.month] + " " + DecimalString(date.day)
  }

  /** No month name holds a capital C or a capital R. */
  lemma MonthNameLetters(m: MonthIndex)
    ensures 'C' !in Months[m] && 'R' !in Months[m]
  {
    var name := Months[m];
    if m < 6 {
      assert name in {"January", "February", "March", "April", "May", "June"};
    } else {
      assert name in {"July", "August", "September", "October", "November", "December"};
    }
  }

  /** No decimal rendering holds a letter. */
  lemma DigitsHaveNoLetters(n: nat)
    ensures 'C' !in DecimalString(n) && 'R' !in DecimalString(n)
  {
    var digits := DecimalString(n);
    forall i | 0 <= i < |digits| ensures digits[i] != 'C' && digits[i] != 'R' {
      assert IsDigit(digits[i]);
    }
  }

  /** A description is the type word followed by the date part; the date part has
      neither a capital C nor a capital R, so it never contains "Cycling" or "Running".
      This is what makes the in-place rewrite of the type word safe. */
  lemma DescribeParts(t: WorkoutType, date: CalendarDay)
    ensures Describe(t, date) == TypeWord(t) + DescriptionTail(date)
    ensures 'C' !in DescriptionTail(date) && 'R' !in DescriptionTail(date)
  {
    MonthNameLetters(date.month);
    DigitsHaveNoLetters(date.day);
    assert 'C' !in " on " && 'R' !in " on ";
    assert 'C' !in " " && 'R' !in " ";
  }

  /** Two records with the same generated description are of the same type. */
  lemma DescribeDetermines(t: WorkoutType, date: CalendarDay, t': WorkoutType, date': CalendarDay)
    requires Describe(t, date) == Describe(t', date')
    ensures t == t'
  {
    DescribeParts(t, date);
    DescribeParts(t', date');
    assert Describe(t, date)[0] == TypeWord(t)[0];
    assert Describe(t', date')[0] == TypeWord(t')[0];
  }

  /** `new Running(coords, distance, duration, cadence)` created at `id` on `date`. */
  function NewRunning(id: nat, date: CalendarDay, coords: Coords,
                      distance: real, duration: real, cadence: real): (w: Workout)
    requires distance != 0.0
    ensures w.Type() == RunningType && w.id == id && w.date == date && w.coords == coords
    ensures w.distance == distance && w.duration == duration && w.cadence == cadence
    ensures w.pace * distance == duration
    ensures w.description == Describe(RunningType, date)
  {
    Running(id, date, coords, distance, duration, cadence, CalcPace(duration, distance),
            Describe(RunningType, date))
  }

  /** `new Cycling(coords, distance, duration, elevationGain)` created at `id` on `date`. */
  function NewCycling(id: nat, date: CalendarDay, coords: Coords,
                      distance: real, duration: real, elevationGain: real): (w: Workout)
    requires duration != 0.0
    ensures w.Type() == CyclingType && w.id == id && w.date == date && w.coords == coords
    ensures w.distance == distance && w.duration == duration && w.elevationGain == elevationGain
    ensures w.speed * duration == distance * 60.0
    ensures w.description == Describe(CyclingType, date)
  {
    Cycling(id, date, coords, distance, duration, elevationGain,
            CalcSpeed(distance, duration), Describe(CyclingType, date))
  }

  /** The record the form builds for type `t`; `extra` is the cadence of a run or the
      elevation gain of a ride. */
  function NewWorkout(t: WorkoutType, id: nat, date: CalendarDay, coords: Coords,
                      distance: real, duration: real, extra: real): (w: Workout)
    requires t == RunningType ==> distance != 0.0
    requires t == CyclingType ==> duration != 0.0
    ensures w.Type() == t && w.id == id && w.date == date && w.coords == coords
    ensures w.distance == distance && w.duration == duration && Extra(w) == extra
    ensures distance > 0.0 && duration > 0.0 && extra > 0.0 ==> WellFormed(w)
  {
    if t == RunningType then NewRunning(id, date, coords, distance, duration, extra)
    else NewCycling(id, date, coords, distance, duration, extra)
  }

  /** The type-specific input of a record: cadence or elevation gain. */
  function Extra(w: Workout): real {
    if w.Running? then w.cadence else w.elevationGain
  }

  /** What every record the app builds satisfies: positive inputs, the derived field
      computed from them, and the description generated for its type and date. */
  predicate WellFormed(w: Workout) {
    && w.distance > 0.0
    && w.duration > 0.0
    && Extra(w) > 0.0
    && (w.Running? ==> w.pace == CalcPace(w.duration, w.distance))
    && (w.Cycling? ==> w.speed == CalcSpeed(w.distance, w.duration))
    && w.description == Describe(w.Type(), w.date)
  }

  predicate AllWellFormed(ws: seq<Workout>) {
    forall w | w in ws :: WellFormed(w)
  }
}
