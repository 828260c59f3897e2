/** The edit patch `App.editedWorkoutData`: how it is copied from a record when an
    edit starts, overwritten by form changes, and checked and rewritten on submission
    before it replaces the record. */
module Editing {
  import opened JsValues
  import opened Workouts

  /** The fields of a patch that only the copied record supplies. */
  datatype Origin = Origin(id: nat, date: CalendarDay, coords: Coords, description: string)

  /** `editedWorkoutData`. `Blank` is the empty object `{}`. An `Edit` holds the fields
      the form writes and, when it was copied from a record, that record's `Origin`; a
      patch made from `{}` by a form change has none. `NonFinite` stands for a field
      that is missing or `false` as well as for NaN. */
  datatype Patch =
    | Blank
    | Edit(origin: Option<Origin>, workoutType: WorkoutType, distance: Num, duration: Num,
           cadence: Num, elevationGain: Num, pace: Num, speed: Num)
  {
    /** The field the type-specific validation looks at. */
    function SpecificInput(): Num
      requires Edit?
    {
      if workoutType == RunningType then cadence else elevationGain
    }
  }

  function OriginOf(w: Workout): Origin {
    Origin(w.id, w.date, w.coords, w.description)
  }

  /** `{ ...workout }`: the patch an edit starts from. */
  function PatchOf(w: Workout): (p: Patch)
    ensures p.Edit? && p.origin == Some(OriginOf(w)) && p.workoutType == w.Type()
    ensures p.distance == Finite(w.distance) && p.duration == Finite(w.duration)
    ensures p.SpecificInput() == Finite(Extra(w))
  {
    match w
    case Running(_, _, _, distance, duration, cadence, pace, _) =>
      Edit(Some(OriginOf(w)), RunningType, Finite(distance), Finite(duration),
           Finite(cadence), NonFinite, Finite(pace), NonFinite)
    case Cycling(_, _, _, distance, duration, elevationGain, speed, _) =>
      Edit(Some(OriginOf(w)), CyclingType, Finite(distance), Finite(duration),
           NonFinite, Finite(elevationGain), NonFinite, Finite(speed))
  }

  /** `formChangeListener`: `{ ...editedWorkoutData, type, distance, duration, cadence,
      elevationGain }`. Only the five form fields are overwritten, so the origin (and
      with it the id) and the derived pace and speed stay as they were. */
  function ApplyFormChange(p: Patch, t: WorkoutType, distance: Num, duration: Num,
                           cadence: Num, elevationGain: Num): (r: Patch)
    ensures r.Edit? && r.workoutType == t && r.distance == distance && r.duration == duration
    ensures r.cadence == cadence && r.elevationGain == elevationGain
    ensures r.origin == (if p.Edit? then p.origin else None)
    ensures p.Edit? ==> r.pace == p.pace && r.speed == p.speed
  {
    match p
    case Blank => Edit(None, t, distance, duration, cadence, elevationGain, NonFinite, NonFinite)
    case Edit(origin, _, _, _, _, _, pace, speed) =>
      Edit(origin, t, distance, duration, cadence, elevationGain, pace, speed)
  }

  /** `description.replace("Cycling", "Running")` when the patch is a run, and
      `description.replace("Running", "Cycling")` when it is a ride. */
  function RetypeDescription(description: string, t: WorkoutType): string {
    if t == RunningType then ReplaceFirst(description, "Cycling", "Running")
    else ReplaceFirst(description, "Running", "Cycling")
  }

  /** Rewriting the type word of a generated description gives exactly the description
      generated for the new type, whichever type the record had before. */
  lemma RetypeDescribe(t0: WorkoutType, t: WorkoutType, date: CalendarDay)
    ensures RetypeDescription(Describe(t0, date), t) == Describe(t, date)
  {
    DescribeParts(t0, date);
    DescribeParts(t, date);
    var tail := DescriptionTail(date);
    var pattern := if t == RunningType then "Cycling" else "Running";
    if t0 == t {
      assert pattern[0] !in TypeWord(t);
      assert pattern[0] !in Describe(t0, date);
      ReplaceFirstWithoutLead(Describe(t0, date), pattern, TypeWord(t));
    } else {
      var s := Describe(t0, date);
      assert s == pattern + tail;
      assert s[..|pattern|] == pattern;
      assert s[|pattern|..] == tail;
    }
  }

  /** A patch origin whose description was generated for one of the two types. */
  predicate DescribedAsEither(o: Origin) {
    o.description == Describe(RunningType, o.date) || o.description == Describe(CyclingType, o.date)
  }

  /** What the edit submission computes from the patch. `Rejected` and `Accepted` carry
      the patch as the handler leaves it (it rewrites the patch before it validates);
      `Accepted` also carries the record put into the list. `Threw` is the TypeError
      raised when a patch without a description reaches `description.replace`. */
  datatype EditStep = Rejected(patch: Patch) | Accepted(patch: Patch, record: Workout) | Threw

  /** The body of `updateWorkoutMethod`, up to the alert or the splice: validate the
      shared and the type-specific fields, blank out the other type's fields, rewrite
      the description's type word and recompute pace or speed. */
  function CheckEdit(p: Patch): (r: EditStep)
    ensures r.Threw? <==> p.Edit? && p.origin.None?
    ensures r.Accepted? <==> p.Edit? && p.origin.Some?
                             && ValidateData([p.distance, p.duration, p.SpecificInput()])
    ensures p.Blank? ==> r == Rejected(Blank)
    ensures p.Edit? && !r.Threw? ==>
              && r.patch.Edit? && r.patch.origin.Some?
              && r.patch.origin.value.id == p.origin.value.id
              && r.patch.origin.value.date == p.origin.value.date
              && r.patch.origin.value ==
                   p.origin.value.(description := RetypeDescription(p.origin.value.description, p.workoutType))
              && r.patch.workoutType == p.workoutType
              && r.patch.distance == p.distance && r.patch.duration == p.duration
              && r.patch.SpecificInput() == p.SpecificInput()
    ensures p.Edit? && !r.Threw? && p.workoutType == RunningType ==>
              && r.patch.elevationGain == NonFinite && r.patch.speed == NonFinite
              && r.patch.pace == Div(p.duration, p.distance)
    ensures p.Edit? && !r.Threw? && p.workoutType == CyclingType ==>
              && r.patch.cadence == NonFinite && r.patch.pace == NonFinite
              && r.patch.speed == Div(p.distance, Div(p.duration, Finite(60.0)))
    ensures p.Edit? && !r.Threw? && DescribedAsEither(p.origin.value) ==>
              r.patch.origin.value.description == Describe(p.workoutType, p.origin.value.date)
    ensures r.Accepted? ==> PatchOf(r.record) == r.patch && r.record.id == p.origin.value.id
    ensures r.Accepted? && DescribedAsEither(p.origin.value) ==>
              var o := p.origin.value;
              && r.record == NewWorkout(p.workoutType, o.id, o.date, o.coords, p.distance.value,
                                        p.duration.value, p.SpecificInput().value)
              && WellFormed(r.record)
  {
    match p
    case Blank => Rejected(Blank)
    case Edit(None, _, _, _, _, _, _, _) => Threw
    case Edit(Some(o), t, distance, duration, cadence, elevationGain, _, _) =>
      var shared := ValidateData([distance, duration]);
      var valid := shared && ValidateData([p.SpecificInput()]);
      ValidateDataOfFields(distance, duration, p.SpecificInput());
      var o' := o.(description := RetypeDescription(o.description, t));
      assert DescribedAsEither(o) ==> o'.description == Describe(t, o.date) by {
        if o.description == Describe(RunningType, o.date) {
          RetypeDescribe(RunningType, t, o.date);
        } else if o.description == Describe(CyclingType, o.date) {
          RetypeDescribe(CyclingType, t, o.date);
        }
      }
      var rewritten :=
        if t == RunningType then
          Edit(Some(o'), t, distance, duration, cadence, NonFinite, Div(duration, distance), NonFinite)
        else
          Edit(Some(o'), t, distance, duration, NonFinite, elevationGain, NonFinite,
               Div(distance, Div(duration, Finite(60.0))));
      if !valid then Rejected(rewritten)
      else
        var record :=
          if t == RunningType then
            Running(o.id, o.date, o.coords, distance.value, duration.value, cadence.value,
                    CalcPace(duration.value, distance.value), o'.description)
          else
            Cycling(o.id, o.date, o.coords, distance.value, duration.value, elevationGain.value,
                    CalcSpeed(distance.value, duration.value), o'.description);
        Accepted(rewritten, record)
  }

  /** Opening an edit and submitting it untouched gives back the very same record. */
  lemma UntouchedEditKeepsRecord(w: Workout)
    requires WellFormed(w)
    ensures CheckEdit(PatchOf(w)) == Accepted(PatchOf(w), w)
  {
    var r := CheckEdit(PatchOf(w));
    assert DescribedAsEither(OriginOf(w));
    assert r.Accepted?;
    assert r.record == w;
  }

  /** An edit that passes validation yields exactly the record a fresh construction of
      the chosen type would, keeping the id, the date and the coordinates: rewriting
      the description in place (rather than regenerating it) loses nothing. */
  lemma EditRebuildsRecord(w: Workout, t: WorkoutType, distance: Num, duration: Num,
                           cadence: Num, elevationGain: Num)
    requires WellFormed(w)
    requires ValidateData([distance, duration, if t == RunningType then cadence else elevationGain])
    ensures var r := CheckEdit(ApplyFormChange(PatchOf(w), t, distance, duration, cadence, elevationGain));
            && r.Accepted?
            && r.record == NewWorkout(t, w.id, w.date, w.coords, distance.value, duration.value,
                                      (if t == RunningType then cadence else elevationGain).value)
  {
    var p := ApplyFormChange(PatchOf(w), t, distance, duration, cadence, elevationGain);
    assert p.origin.value == OriginOf(w);
    assert DescribedAsEither(p.origin.value);
    assert [p.distance, p.duration, p.SpecificInput()]
        == [distance, duration, if t == RunningType then cadence else elevationGain];
  }
}
