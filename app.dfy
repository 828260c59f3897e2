/** The `App` controller: the workout list, the form-mode fields (`#mapEvent`,
    `isBeingEditedId`, `editedWorkoutData`), the sort preference and browser storage,
    with one method per event handler. The map widget, the DOM and the geolocation
    request are outside the model. */
module Mapty {
  import opened JsValues
  import opened Workouts
  import opened Collection
  import opened Editing

  /** What `localStorage` holds under the app's keys: the list itself, not its JSON
      text, under "workouts", and the sort key string under "sort". */
  datatype Stored = WorkoutList(items: seq<Workout>) | Text(text: string)

  const WorkoutsKey: string := "workouts"
  const SortKeyName: string := "sort"
  const DefaultSort: string := "time-created"

  /** How a handler ended: it returned at its first guard, it raised the
      "inputs have to be positive numbers!" alert, it did its work, or it died on a
      TypeError part way. */
  datatype Outcome = Ignored | Alerted | Applied | Crashed

  /** Which part of a list entry a click landed on. */
  datatype ListTarget = EditButton | DeleteButton | EntryBody

  /** `JSON.parse(localStorage.getItem("workouts"))`, when it gives a list. */
  function StoredWorkouts(storage: map<string, Stored>): Option<seq<Workout>> {
    if WorkoutsKey in storage && storage[WorkoutsKey].WorkoutList? then
      Some(storage[WorkoutsKey].items)
    else None
  }

  /** `localStorage` after `_setLocalStorage`. */
  function Persisted(storage: map<string, Stored>, workouts: seq<Workout>, sortBy: string): map<string, Stored> {
    storage[WorkoutsKey := WorkoutList(workouts)][SortKeyName := Text(sortBy)]
  }

  /** The list `sortByMethod` leaves: sorted by the selected key, or as it was when the
      key is none of the three. */
  function ApplySort(workouts: seq<Workout>, sortBy: string): seq<Workout> {
    match ParseSortKey(sortBy)
    case Some(k) => SortBy(workouts, k)
    case None => workouts
  }

  /** Saved storage reads back the saved list and sort choice. */
  lemma PersistedReadsBack(storage: map<string, Stored>, workouts: seq<Workout>, sortBy: string)
    ensures StoredWorkouts(Persisted(storage, workouts, sortBy)) == Some(workouts)
    ensures SortKeyName in Persisted(storage, workouts, sortBy)
    ensures Persisted(storage, workouts, sortBy)[SortKeyName] == Text(sortBy)
  {
    assert SortKeyName != WorkoutsKey by { assert SortKeyName[0] != WorkoutsKey[0]; }
  }

  /** What `sortByMethod` promises about the list it leaves: the same records, in the
      order of the selected key when there is one, all still well formed, with ids
      still distinct. */
  lemma ApplySortFacts(workouts: seq<Workout>, sortBy: string)
    ensures multiset(ApplySort(workouts, sortBy)) == multiset(workouts)
    ensures ParseSortKey(sortBy).Some? ==> SortedBy(ApplySort(workouts, sortBy), ParseSortKey(sortBy).value)
    ensures AllWellFormed(workouts) ==> AllWellFormed(ApplySort(workouts, sortBy))
    ensures DistinctIds(workouts) ==> DistinctIds(ApplySort(workouts, sortBy))
  {
    match ParseSortKey(sortBy)
    case Some(k) =>
      SortBySorted(workouts, k);
      if AllWellFormed(workouts) {
        SortKeepsWellFormed(workouts, k);
      }
      if DistinctIds(workouts) {
        SortByDistinct(workouts, k);
      }
    case None =>
  }

  /** What replacing a record by one carrying its id keeps: well-formedness and
      distinct ids. */
  lemma ReplaceFacts(workouts: seq<Workout>, record: Workout)
    ensures AllWellFormed(workouts) && WellFormed(record) ==>
              AllWellFormed(ReplaceById(workouts, record.id, record))
    ensures DistinctIds(workouts) ==> DistinctIds(ReplaceById(workouts, record.id, record))
  {
    if DistinctIds(workouts) {
      ReplaceByIdDistinct(workouts, record.id, record);
    }
    if AllWellFormed(workouts) && WellFormed(record) {
      CollectionKeepsWellFormed(workouts, record.id, record, ByTimeCreated);
    }
  }

  /** The stored list, if there is one, holds well-formed records. */
  predicate StorageWellFormed(storage: map<string, Stored>) {
    StoredWorkouts(storage).Some? ==> AllWellFormed(StoredWorkouts(storage).value)
  }

  /** The patch was copied from a record (so its description was generated for some
      type), and while an edit is open it belongs to the record being edited. */
  predicate PatchConsistent(p: Patch, editing: Option<nat>) {
    && (p.Edit? && p.origin.Some? ==> DescribedAsEither(p.origin.value))
    && (p.Edit? && p.origin.Some? && editing.Some? ==> p.origin.value.id == editing.value)
  }

  /** Checking a consistent patch keeps it consistent with the open edit, and an
      accepted patch yields a well-formed record that carries the patch's id. */
  lemma CheckEditKeepsConsistency(p: Patch, editing: Option<nat>)
    requires PatchConsistent(p, editing)
    ensures !CheckEdit(p).Threw? ==> PatchConsistent(CheckEdit(p).patch, editing)
    ensures CheckEdit(p).Accepted? ==>
              && WellFormed(CheckEdit(p).record)
              && CheckEdit(p).record.id == CheckEdit(p).patch.origin.value.id
  {
  }

  class App {
    /** `#mapEvent`: the coordinates of the pending map click; None for `undefined`
        and for the `false` an edit stores. */
    var mapEvent: Option<Coords>
    /** `#workouts`. */
    var workouts: seq<Workout>
    var sortBy: string
    /** `isBeingEditedId`: None for `false`. */
    var isBeingEditedId: Option<nat>
    var editedWorkoutData: Patch
    /** The browser's `localStorage`. */
    var storage: map<string, Stored>

    /** Every record in the list and in storage is well formed and the patch matches
        the edit in progress. */
    ghost predicate Valid()
      reads this
    {
      && AllWellFormed(workouts)
      && StorageWellFormed(storage)
      && PatchConsistent(editedWorkoutData, isBeingEditedId)
    }

    /** No two records share an id, in the list or in the stored list. Ids are
        `Date.now()` values; a new record keeps this only when its timestamp is new,
        which is why this is kept apart from `Valid()`. */
    ghost predicate IdsDistinct()
      reads this
    {
      && DistinctIds(workouts)
      && (StoredWorkouts(storage).Some? ==> DistinctIds(StoredWorkouts(storage).value))
    }

    /** `new App()` over the storage the browser already holds: the field initialisers,
        then `_getLocalStorage` (the geolocation request is not modelled). */
    constructor (initialStorage: map<string, Stored>)
      ensures mapEvent == None && isBeingEditedId == None && editedWorkoutData == Blank
      ensures sortBy == DefaultSort
      ensures StoredWorkouts(initialStorage).None? ==>
                workouts == [] && storage == initialStorage
      ensures StoredWorkouts(initialStorage).Some? ==>
                && workouts == SortBy(StoredWorkouts(initialStorage).value, ByTimeCreated)
                && storage == initialStorage[SortKeyName := Text(DefaultSort)]
      ensures StorageWellFormed(initialStorage) ==> Valid()
      ensures (StoredWorkouts(initialStorage).Some? ==> DistinctIds(StoredWorkouts(initialStorage).value)) ==>
                IdsDistinct()
    {
      mapEvent := None;
      workouts := [];
      sortBy := DefaultSort;
      isBeingEditedId := None;
      editedWorkoutData := Blank;
      storage := initialStorage;
      new;
      LoadFromStorage();
    }

    /** `_getLocalStorage`. With no stored list nothing changes. Otherwise the stored
        list replaces the list and the stored sort key is read, but the call
        `sortByMethod()` that follows has no event, so it resets the key to
        "time-created", writes that back to storage and sorts by id. */
    method LoadFromStorage()
      modifies this
      ensures mapEvent == old(mapEvent) && isBeingEditedId == old(isBeingEditedId)
      ensures editedWorkoutData == old(editedWorkoutData)
      ensures StoredWorkouts(old(storage)).None? ==>
                workouts == old(workouts) && sortBy == old(sortBy) && storage == old(storage)
      ensures StoredWorkouts(old(storage)).Some? ==>
                && workouts == SortBy(StoredWorkouts(old(storage)).value, ByTimeCreated)
                && sortBy == DefaultSort
                && storage == old(storage)[SortKeyName := Text(DefaultSort)]
      ensures old(AllWellFormed(workouts)) && StorageWellFormed(old(storage)) ==> AllWellFormed(workouts)
      ensures StorageWellFormed(old(storage)) ==> StorageWellFormed(storage)
      ensures old(IdsDistinct()) ==> IdsDistinct()
    {
      var data := StoredWorkouts(storage);
      var sort := if SortKeyName in storage && storage[SortKeyName].Text? && storage[SortKeyName].text != ""
                  then storage[SortKeyName].text else DefaultSort;
      if data.None? {
        return;
      }
      workouts := data.value;
      sortBy := sort;
      SortByMethod(None);
    }

    /** `_setLocalStorage`: both keys are written. */
    method Persist()
      modifies this
      ensures storage == Persisted(old(storage), workouts, sortBy)
      ensures mapEvent == old(mapEvent) && workouts == old(workouts) && sortBy == old(sortBy)
      ensures isBeingEditedId == old(isBeingEditedId) && editedWorkoutData == old(editedWorkoutData)
      ensures AllWellFormed(workouts) ==> StorageWellFormed(storage)
      ensures DistinctIds(workouts) ==> IdsDistinct()
    {
      PersistedReadsBack(storage, workouts, sortBy);
      storage := storage[WorkoutsKey := WorkoutList(workouts)];
      storage := storage[SortKeyName := Text(sortBy)];
    }

    /** `localStorage.setItem("sort", this.sortBy)`: the stored list is left alone. */
    method StoreSortKey()
      modifies this
      ensures storage == old(storage)[SortKeyName := Text(sortBy)]
      ensures StoredWorkouts(storage) == StoredWorkouts(old(storage))
      ensures mapEvent == old(mapEvent) && workouts == old(workouts) && sortBy == old(sortBy)
      ensures isBeingEditedId == old(isBeingEditedId) && editedWorkoutData == old(editedWorkoutData)
    {
      assert SortKeyName != WorkoutsKey by { assert SortKeyName[0] != WorkoutsKey[0]; }
      storage := storage[SortKeyName := Text(sortBy)];
    }

    /** `sortByMethod(event)`: `choice` is the selector's value, None when called without
        an event. The key is stored (only the key: the list is written back by the next
        change), and the list is sorted when the key is one of the three. */
    method SortByMethod(choice: Option<string>)
      modifies this
      ensures sortBy == (if choice.Some? then choice.value else DefaultSort)
      ensures storage == old(storage)[SortKeyName := Text(sortBy)]
      ensures workouts == ApplySort(old(workouts), sortBy)
      ensures multiset(workouts) == multiset(old(workouts))
      ensures ParseSortKey(sortBy).Some? ==> SortedBy(workouts, ParseSortKey(sortBy).value)
      ensures mapEvent == old(mapEvent) && isBeingEditedId == old(isBeingEditedId)
      ensures editedWorkoutData == old(editedWorkoutData)
      ensures old(AllWellFormed(workouts)) ==> AllWellFormed(workouts)
      ensures StorageWellFormed(old(storage)) ==> StorageWellFormed(storage)
      ensures old(IdsDistinct()) ==> IdsDistinct()
    {
      sortBy := if choice.Some? then choice.value else DefaultSort;
      StoreSortKey();
      ApplySortFacts(workouts, sortBy);
      var key := ParseSortKey(sortBy);
      if key.Some? {
        workouts := SortBy(workouts, key.value);
      }
    }

    /** `_mapEventHandler`: the click is always recorded, even while an edit is open;
        the form is shown (`showsForm`) only when no edit is open. */
    method MapClick(lat: real, lng: real) returns (showsForm: bool)
      modifies this
      ensures mapEvent == Some(Coords(lat, lng))
      ensures showsForm <==> old(isBeingEditedId).None?
      ensures workouts == old(workouts) && sortBy == old(sortBy) && storage == old(storage)
      ensures isBeingEditedId == old(isBeingEditedId) && editedWorkoutData == old(editedWorkoutData)
      ensures old(Valid()) ==> Valid()
      ensures old(IdsDistinct()) ==> IdsDistinct()
    {
      mapEvent := Some(Coords(lat, lng));
      if isBeingEditedId.Some? {
        return false;
      }
      showsForm := true;
    }

    /** `_newWorkout` with the form's values; `now` is `Date.now()` and `date` today's
        month and day. Nothing happens without a recorded map click; invalid input
        raises the alert and changes nothing; otherwise one record at the clicked point
        is appended and everything is saved. The click stays recorded. */
    method NewWorkoutSubmit(t: WorkoutType, distance: Num, duration: Num, cadence: Num,
                            elevation: Num, now: nat, date: CalendarDay) returns (outcome: Outcome)
      modifies this
      ensures outcome == Ignored <==> old(mapEvent).None?
      ensures outcome == Alerted <==>
                old(mapEvent).Some? &&
                !ValidateData([distance, duration, if t == RunningType then cadence else elevation])
      ensures outcome != Applied ==> workouts == old(workouts) && storage == old(storage)
      ensures outcome == Applied ==>
                var extra := if t == RunningType then cadence else elevation;
                && IsPositiveFinite(distance) && IsPositiveFinite(duration) && IsPositiveFinite(extra)
                && workouts == old(workouts) + [NewWorkout(t, now, date, old(mapEvent).value,
                                                           distance.value, duration.value, extra.value)]
                && storage == Persisted(old(storage), workouts, sortBy)
      ensures outcome == Ignored || outcome == Alerted || outcome == Applied
      ensures mapEvent == old(mapEvent) && sortBy == old(sortBy)
      ensures isBeingEditedId == old(isBeingEditedId) && editedWorkoutData == old(editedWorkoutData)
      ensures old(Valid()) ==> Valid()
      ensures old(IdsDistinct()) && (forall w | w in old(workouts) :: w.id != now) ==> IdsDistinct()
    {
      if mapEvent.None? {
        return Ignored;
      }
      var coords := mapEvent.value;
      var w: Workout;
      if t == RunningType {
        ValidateDataOfFields(distance, duration, cadence);
        if !ValidateData([distance, duration, cadence]) {
          return Alerted;
        }
        w := NewRunning(now, date, coords, distance.value, duration.value, cadence.value);
      } else {
        ValidateDataOfFields(distance, duration, elevation);
        if !ValidateData([distance, duration, elevation]) {
          return Alerted;
        }
        w := NewCycling(now, date, coords, distance.value, duration.value, elevation.value);
      }
      if DistinctIds(workouts) && forall x | x in workouts :: x.id != w.id {
        AppendDistinct(workouts, w);
      }
      workouts := workouts + [w];
      Persist();
      outcome := Applied;
    }

    /** `startEditingWorkout` for the entry with id `id`. Ignored while an edit is open.
        Otherwise the edit opens on that id with a copy of the record, and the pending
        map click is cleared. If the id is not in the list, `{ ...undefined }` leaves an
        empty patch; the form is shown, then reading `workoutData.type` throws a
        TypeError, before the click is cleared. */
    method StartEditingWorkout(id: nat) returns (outcome: Outcome)
      modifies this
      ensures old(isBeingEditedId).Some? ==>
                && outcome == Ignored && isBeingEditedId == old(isBeingEditedId)
                && editedWorkoutData == old(editedWorkoutData) && mapEvent == old(mapEvent)
      ensures old(isBeingEditedId).None? && HasId(workouts, id) ==>
                && outcome == Applied && isBeingEditedId == Some(id)
                && editedWorkoutData == PatchOf(workouts[FindIndex(workouts, id)])
                && mapEvent == None
      ensures old(isBeingEditedId).None? && !HasId(workouts, id) ==>
                && outcome == Crashed && isBeingEditedId == Some(id) && editedWorkoutData == Blank
                && mapEvent == old(mapEvent)
      ensures workouts == old(workouts) && sortBy == old(sortBy) && storage == old(storage)
      ensures old(Valid()) ==> Valid()
      ensures old(IdsDistinct()) ==> IdsDistinct()
    {
      if isBeingEditedId.Some? {
        return Ignored;
      }
      var i := FindIndex(workouts, id);
      isBeingEditedId := Some(id);
      if i < 0 {
        editedWorkoutData := Blank;
        return Crashed;
      }
      assert workouts[i] in workouts;
      editedWorkoutData := PatchOf(workouts[i]);
      mapEvent := None;
      outcome := Applied;
    }

    /** `formChangeListener` with the form's current values: only while an edit is
        open, the five form fields of the patch are overwritten. */
    method FormChange(t: WorkoutType, distance: Num, duration: Num, cadence: Num, elevation: Num)
      modifies this
      ensures old(isBeingEditedId).None? ==> editedWorkoutData == old(editedWorkoutData)
      ensures old(isBeingEditedId).Some? ==>
                editedWorkoutData == ApplyFormChange(old(editedWorkoutData), t, distance, duration, cadence, elevation)
      ensures mapEvent == old(mapEvent) && workouts == old(workouts) && sortBy == old(sortBy)
      ensures storage == old(storage) && isBeingEditedId == old(isBeingEditedId)
      ensures old(Valid()) ==> Valid()
      ensures old(IdsDistinct()) ==> IdsDistinct()
    {
      if isBeingEditedId.None? {
        return;
      }
      editedWorkoutData := ApplyFormChange(editedWorkoutData, t, distance, duration, cadence, elevation);
    }

    /** `updateWorkoutMethod`. Nothing happens while a map click is recorded. On invalid
        data the alert is raised and only the rewritten patch is kept: the list, the
        storage and the open edit stay. On valid data the record with the patch's id
        is replaced, everything is saved and the edit is closed. If no record has that
        id, `splice(-1, 1, ...)` overwrites the last entry (the rules of ReplaceById)
        and the rendering of `this.#workouts[-1]` that follows throws, so nothing is
        saved and the edit stays open. */
    method UpdateWorkoutSubmit() returns (outcome: Outcome)
      modifies this
      ensures old(mapEvent).Some? ==> outcome == Ignored
      ensures old(mapEvent).None? ==>
                var step := CheckEdit(old(editedWorkoutData));
                && (step.Threw? ==> outcome == Crashed)
                && (step.Rejected? ==> outcome == Alerted)
                && (step.Accepted? ==>
                      outcome == (if HasId(old(workouts), step.record.id) then Applied else Crashed))
      ensures outcome == Ignored || outcome == Alerted || CheckEdit(old(editedWorkoutData)).Threw? ==>
                && workouts == old(workouts) && storage == old(storage)
                && isBeingEditedId == old(isBeingEditedId)
      ensures outcome == Alerted ==> editedWorkoutData == CheckEdit(old(editedWorkoutData)).patch
      ensures outcome == Ignored || CheckEdit(old(editedWorkoutData)).Threw? ==>
                editedWorkoutData == old(editedWorkoutData)
      ensures outcome != Ignored && CheckEdit(old(editedWorkoutData)).Accepted? ==>
                var step := CheckEdit(old(editedWorkoutData));
                && editedWorkoutData == step.patch
                && workouts == ReplaceById(old(workouts), step.record.id, step.record)
                && (outcome == Applied ==>
                      storage == Persisted(old(storage), workouts, sortBy) && isBeingEditedId == None)
                && (outcome == Crashed ==>
                      storage == old(storage) && isBeingEditedId == old(isBeingEditedId))
      ensures mapEvent == old(mapEvent) && sortBy == old(sortBy)
      ensures old(Valid()) ==> Valid()
      ensures old(IdsDistinct()) ==> IdsDistinct()
    {
      if mapEvent.Some? {
        return Ignored;
      }
      var step := CheckEdit(editedWorkoutData);
      if step.Threw? {
        return Crashed;
      }
      ghost var wasValid := Valid();
      if wasValid {
        CheckEditKeepsConsistency(editedWorkoutData, isBeingEditedId);
      }
      editedWorkoutData := step.patch;
      if step.Rejected? {
        return Alerted;
      }
      var saved := SaveEditedRecord(step.record);
      outcome := if saved then Applied else Crashed;
    }

    /** The end of `updateWorkoutMethod` once the patch has passed: the record with the
        edited id is replaced and, if it was found, everything is saved and the edit is
        closed. If it was not, `splice(-1, 1, ...)` overwrote the last entry and the
        rendering of `this.#workouts[-1]` throws before anything is saved. */
    method SaveEditedRecord(record: Workout) returns (saved: bool)
      modifies this
      ensures saved <==> HasId(old(workouts), record.id)
      ensures workouts == ReplaceById(old(workouts), record.id, record)
      ensures saved ==> storage == Persisted(old(storage), workouts, sortBy) && isBeingEditedId == None
      ensures !saved ==> storage == old(storage) && isBeingEditedId == old(isBeingEditedId)
      ensures mapEvent == old(mapEvent) && sortBy == old(sortBy)
      ensures editedWorkoutData == old(editedWorkoutData)
      ensures old(AllWellFormed(workouts)) && WellFormed(record) ==> AllWellFormed(workouts)
      ensures StorageWellFormed(old(storage)) && old(AllWellFormed(workouts)) && WellFormed(record) ==>
                StorageWellFormed(storage)
      ensures old(IdsDistinct()) ==> IdsDistinct()
    {
      ReplaceFacts(workouts, record);
      var i := FindIndex(workouts, record.id);
      workouts := Splice(workouts, i, 1, [record]);
      if i < 0 {
        return false;
      }
      Persist();
      isBeingEditedId := None;
      saved := true;
    }

    /** `_deleteWorkout` for the entry with id `id`: the record goes (by the rules of
        DeleteById) and everything is saved. */
    method DeleteWorkout(id: nat)
      modifies this
      ensures workouts == DeleteById(old(workouts), id)
      ensures storage == Persisted(old(storage), workouts, sortBy)
      ensures mapEvent == old(mapEvent) && sortBy == old(sortBy)
      ensures isBeingEditedId == old(isBeingEditedId) && editedWorkoutData == old(editedWorkoutData)
      ensures old(Valid()) ==> Valid()
      ensures old(IdsDistinct()) ==> IdsDistinct()
    {
      if DistinctIds(workouts) {
        DeleteByIdDistinct(workouts, id);
      }
      var i := FindIndex(workouts, id);
      workouts := Splice(workouts, i, 1, []);
      Persist();
    }

    /** `reset`: unless confirmed nothing happens. Otherwise both keys are removed and
        the page reloads, which starts a fresh App over what is left of the storage;
        with no stored list that App starts empty. */
    method Reset(confirmed: bool)
      modifies this
      ensures !confirmed ==>
                && workouts == old(workouts) && storage == old(storage) && sortBy == old(sortBy)
                && mapEvent == old(mapEvent) && isBeingEditedId == old(isBeingEditedId)
                && editedWorkoutData == old(editedWorkoutData)
      ensures confirmed ==>
                && storage == old(storage) - {WorkoutsKey, SortKeyName}
                && workouts == [] && sortBy == DefaultSort
                && mapEvent == None && isBeingEditedId == None && editedWorkoutData == Blank
      ensures old(Valid()) ==> Valid()
      ensures old(IdsDistinct()) ==> IdsDistinct()
    {
      if !confirmed {
        return;
      }
      storage := storage - {WorkoutsKey, SortKeyName};
      mapEvent := None;
      workouts := [];
      sortBy := DefaultSort;
      isBeingEditedId := None;
      editedWorkoutData := Blank;
      LoadFromStorage();
    }

    /** A click in the workout list runs `startEditingWorkout`, `_moveToPopup` and
        `_deleteWorkout` in that order; each acts only on its own target, and the
        map pan of `_moveToPopup` is not modelled. */
    method ListClick(target: ListTarget, id: nat) returns (outcome: Outcome)
      modifies this
      ensures target == EntryBody ==>
                && outcome == Ignored
                && workouts == old(workouts) && storage == old(storage)
                && isBeingEditedId == old(isBeingEditedId) && mapEvent == old(mapEvent)
      ensures target == DeleteButton ==>
                && outcome == Applied && workouts == DeleteById(old(workouts), id)
                && storage == Persisted(old(storage), workouts, sortBy)
                && isBeingEditedId == old(isBeingEditedId) && mapEvent == old(mapEvent)
      ensures target != EditButton ==> editedWorkoutData == old(editedWorkoutData)
      ensures target == EditButton ==> workouts == old(workouts) && storage == old(storage)
      ensures target == EditButton && old(isBeingEditedId).Some? ==>
                && outcome == Ignored && isBeingEditedId == old(isBeingEditedId)
                && editedWorkoutData == old(editedWorkoutData) && mapEvent == old(mapEvent)
      ensures target == EditButton && old(isBeingEditedId).None? && HasId(old(workouts), id) ==>
                && outcome == Applied && isBeingEditedId == Some(id)
                && editedWorkoutData == PatchOf(old(workouts)[FindIndex(old(workouts), id)])
                && mapEvent == None
      ensures target == EditButton && old(isBeingEditedId).None? && !HasId(old(workouts), id) ==>
                && outcome == Crashed && isBeingEditedId == Some(id) && editedWorkoutData == Blank
                && mapEvent == old(mapEvent)
      ensures sortBy == old(sortBy)
      ensures old(Valid()) ==> Valid()
      ensures old(IdsDistinct()) ==> IdsDistinct()
    {
      outcome := Ignored;
      if target == EditButton {
        outcome := StartEditingWorkout(id);
      }
      if target == DeleteButton {
        DeleteWorkout(id);
        outcome := Applied;
      }
    }

    /** A form submission runs both listeners in the order they were attached:
        `updateWorkoutMethod`, then `_newWorkout`. The recorded map click decides which
        of the two acts; the other returns at once. */
    method Submit(t: WorkoutType, distance: Num, duration: Num, cadence: Num, elevation: Num,
                  now: nat, date: CalendarDay) returns (edit: Outcome, add: Outcome)
      modifies this
      ensures edit == Ignored || add == Ignored
      ensures add == Ignored <==> old(mapEvent).None?
      ensures edit == Ignored <==> old(mapEvent).Some?
      ensures add == Alerted <==>
                old(mapEvent).Some? &&
                !ValidateData([distance, duration, if t == RunningType then cadence else elevation])
      ensures add != Crashed
      ensures old(mapEvent).Some? ==>
                && isBeingEditedId == old(isBeingEditedId) && editedWorkoutData == old(editedWorkoutData)
                && (add == Alerted ==> workouts == old(workouts) && storage == old(storage))
                && (add == Applied ==>
                      var extra := if t == RunningType then cadence else elevation;
                      && IsPositiveFinite(distance) && IsPositiveFinite(duration) && IsPositiveFinite(extra)
                      && workouts == old(workouts) + [NewWorkout(t, now, date, old(mapEvent).value,
                                                                 distance.value, duration.value, extra.value)]
                      && storage == Persisted(old(storage), workouts, sortBy))
      ensures old(mapEvent).None? ==>
                var step := CheckEdit(old(editedWorkoutData));
                && (step.Threw? ==>
                      && edit == Crashed && workouts == old(workouts) && storage == old(storage)
                      && isBeingEditedId == old(isBeingEditedId)
                      && editedWorkoutData == old(editedWorkoutData))
                && (step.Rejected? ==>
                      && edit == Alerted && workouts == old(workouts) && storage == old(storage)
                      && isBeingEditedId == old(isBeingEditedId) && editedWorkoutData == step.patch)
                && (step.Accepted? ==>
                      && edit == (if HasId(old(workouts), step.record.id) then Applied else Crashed)
                      && editedWorkoutData == step.patch
                      && workouts == ReplaceById(old(workouts), step.record.id, step.record)
                      && (edit == Applied ==>
                            storage == Persisted(old(storage), workouts, sortBy) && isBeingEditedId == None)
                      && (edit == Crashed ==>
                            storage == old(storage) && isBeingEditedId == old(isBeingEditedId)))
      ensures mapEvent == old(mapEvent) && sortBy == old(sortBy)
      ensures old(Valid()) ==> Valid()
      ensures old(IdsDistinct()) && (old(mapEvent).None? || forall w | w in old(workouts) :: w.id != now) ==>
                IdsDistinct()
    {
      edit := UpdateWorkoutSubmit();
      add := NewWorkoutSubmit(t, distance, duration, cadence, elevation, now, date);
    }
  }

  /** Opening an edit on a listed record and submitting the form untouched gives the
      list back as it was, saved, with the edit closed. */
  method EditUntouched(app: App, id: nat) returns (start: Outcome, saved: Outcome)
    requires app.Valid() && app.isBeingEditedId.None? && HasId(app.workouts, id)
    modifies app
    ensures start == Applied && saved == Applied
    ensures app.workouts == old(app.workouts)
    ensures app.storage == Persisted(old(app.storage), old(app.workouts), old(app.sortBy))
    ensures app.isBeingEditedId == None && app.mapEvent == None
    ensures app.Valid()
  {
    var w := app.workouts[FindIndex(app.workouts, id)];
    assert w in app.workouts;
    UntouchedEditKeepsRecord(w);
    start := app.StartEditingWorkout(id);
    saved := app.UpdateWorkoutSubmit();
  }

  /** A map click while an edit is open is still recorded, so the next submission adds
      a new record at the clicked point and leaves the edit open; the edit cannot be
      submitted while the click stays recorded. */
  method MapClickDuringEdit(app: App, lat: real, lng: real, t: WorkoutType, distance: Num,
                            duration: Num, cadence: Num, elevation: Num, now: nat,
                            date: CalendarDay) returns (showsForm: bool, edit: Outcome, add: Outcome)
    requires app.isBeingEditedId.Some?
    modifies app
    ensures !showsForm && edit == Ignored && add != Ignored
    ensures app.mapEvent == Some(Coords(lat, lng))
    ensures app.isBeingEditedId == old(app.isBeingEditedId)
    ensures app.editedWorkoutData == old(app.editedWorkoutData)
    ensures add == Applied ==>
              |app.workouts| == |old(app.workouts)| + 1
              && app.workouts[..|old(app.workouts)|] == old(app.workouts)
              && app.workouts[|old(app.workouts)|].coords == Coords(lat, lng)
    ensures add == Applied <==> ValidateData([distance, duration, if t == RunningType then cadence else elevation])
    ensures add == Alerted ==> app.workouts == old(app.workouts)
  {
    showsForm := app.MapClick(lat, lng);
    edit, add := app.Submit(t, distance, duration, cadence, elevation, now, date);
  }

  /** Whatever key the list was sorted and saved under, a reload re-sorts it by id and
      the sort choice is lost: sorting by a key and then by id is sorting by id when
      ids are distinct. */
  method ReloadAfterSort(app: App, choice: string) returns (reloaded: App)
    requires DistinctIds(app.workouts)
    modifies app
    ensures reloaded.workouts == SortBy(old(app.workouts), ByTimeCreated)
    ensures reloaded.sortBy == DefaultSort
    ensures SortKeyName in reloaded.storage && reloaded.storage[SortKeyName] == Text(DefaultSort)
  {
    ghost var before := app.workouts;
    app.SortByMethod(Some(choice));
    app.Persist();
    assert StoredWorkouts(app.storage) == Some(app.workouts);
    match ParseSortKey(choice) {
      case Some(k) => ResortByIdForgetsKey(before, k);
      case None =>
    }
    reloaded := new App(app.storage);
  }
}
