# Mapty workout logger — a Dafny model

Mapty is a browser app for logging runs and rides. You click the map, fill in a form, and a
workout record is created at the clicked point. From the list you can edit or delete it,
and you can sort the list by creation time, distance or duration. The list and the sort
choice are kept in browser storage. All of the logic lives in `script.js`. This project
models its non-visual core:

- **Workout records** (module `Workouts`). The `Running` and `Cycling` classes become one
  tagged datatype over `real`. For each record the model defines:
  - the derived pace (minutes per km) or speed (km per hour);
  - the generated description ("Running on April 3");
  - the input check `validateDataMethod`.
- **The collection** (module `Collection`). This covers:
  - `findIndex` by id, with its −1 answer for an absent id;
  - replacing and deleting through `splice`, including what `splice(-1, …)` does to the
    last entry;
  - the comparator sort by id, distance or duration.

  JavaScript's sort is stable, so it is modelled as a stable insertion sort. The model
  proves that the sort is ordered, is a permutation, and keeps equal keys in their original
  order. It also proves that it is the only arrangement with those properties.
- **The edit patch** (module `Editing`). This is `editedWorkoutData`: it is copied from a
  record when an edit starts, and the form overwrites its five fields. On submission it is
  checked, its type-specific fields are rewritten, and its description's type word is
  replaced.
- **The controller** (module `Mapty`, class `App`). Its fields are those of the source:
  - `#mapEvent`, `#workouts`, `sortBy`, `isBeingEditedId` and `editedWorkoutData`;
  - `localStorage`, as a map from key to the stored value.

  Each event handler is a method, and each method's contract states the whole new state. A
  `Valid()` invariant is preserved by every handler. It says that:
  - every listed and stored record is well formed;
  - the patch belongs to the record being edited.

  A second invariant, `IdsDistinct()`, says that no two records share an id, in the list
  or in the stored list. Every handler preserves it, except that adding a record preserves
  it only when the new `Date.now()` id is not already in the list.

Values from form fields are of type `Num`: a finite real, `PosInfinity`, or the single case
`NonFinite`. `NonFinite` stands for NaN, -Infinity, `undefined` and the `false` that an edit
writes into unused fields; each of these fails both tests the program applies, `Number.isFinite`
and `> 0`, while +Infinity passes the second. Form values, the click coordinates, the `Date.now()` id, today's month and
day, and the `confirm` answer are all parameters.

Two behaviours of the source are reproduced as written:

- A map click during an edit is still recorded. The next submission then adds a new
  record exactly when the input is valid, and leaves the edit open (`MapClickDuringEdit`).
- On load, `sortByMethod()` is called with no event. So the stored sort choice is
  replaced by "time-created", that choice is written back, and the list is sorted by id
  (`App.LoadFromStorage`, `ReloadAfterSort`).

The two submit listeners are both attached, in the order `updateWorkoutMethod`,
`_newWorkout`. Whether a map click is recorded decides which one acts; the other returns at
once (`App.Submit`).

## Model

| member | source | states |
|---|---|---|
| JsValues.Div | script.js:60 | division is finite exactly when both operands are and the divisor is not zero, and then the quotient times the divisor gives the dividend |
| JsValues.ReplaceFirstNoMatch | script.js:410-413 | `replace` returns the string unchanged when the pattern does not occur |
| JsValues.ReplaceFirstAtFirstMatch | script.js:429-432 | `replace` puts the replacement exactly at the first occurrence and keeps everything around it |
| JsValues.ReplaceFirstWithoutLead | script.js:410-413 | a string lacking the pattern's first character is left alone by `replace` |
| JsValues.DecimalString | script.js:40-42 | the day number renders as a non-empty string of decimal digits |
| JsValues.DecimalRoundTrip | script.js:40-42 | reading the rendered day back gives the day number |
| Workouts.ValidateData | script.js:289-293 | true exactly when every input is finite and greater than zero |
| Workouts.AllFinite | script.js:290 | true exactly when every input is finite |
| Workouts.AllPositive | script.js:291 | true exactly when every input is above zero, +Infinity included |
| Workouts.ValidateDataOfFields | script.js:395-398 | the three-, two- and one-argument calls are valid exactly when each argument is a positive finite number |
| Workouts.CalcPace | script.js:58-62 | pace times distance is the duration |
| Workouts.CalcSpeed | script.js:77-81 | speed times duration (in minutes) is 60 times the distance |
| Workouts.TypeWord | script.js:40 | the capitalised type is "Running" or "Cycling" |
| Workouts.MonthNameLetters | script.js:26-39 | no month name contains a capital C or R |
| Workouts.DigitsHaveNoLetters | script.js:40-42 | the rendered day contains no capital C or R |
| Workouts.DescribeParts | script.js:25-43 | a description is the capitalised type followed by " on ", the month name and the day, and that tail contains neither "C" nor "R" |
| Workouts.DescribeDetermines | script.js:40-42 | equal descriptions imply equal types |
| Workouts.NewRunning | script.js:47-63 | a new run keeps its coordinates, distance, duration and cadence, gets pace = duration / distance and the generated description |
| Workouts.NewCycling | script.js:66-82 | a new ride keeps its coordinates, distance, duration and elevation gain, gets speed = distance / (duration / 60) and the generated description |
| Workouts.NewWorkout | script.js:476-494 | the record of the chosen type carries the id, date, coordinates and inputs, and it is well formed when the inputs are positive |
| Collection.FindIndex | script.js:333-335 | −1 exactly when no record has the id; otherwise the first index holding it |
| Collection.ReplaceById | script.js:445-450 | with the id present, exactly that entry is replaced; without it, the last entry is replaced (or the record becomes the only one in an empty list) |
| Collection.DeleteById | script.js:576-583 | with the id present, exactly that entry is removed and the others keep their order; without it, the last entry goes |
| Collection.ParseSortKey | script.js:302-310 | the three selector values name the three keys and nothing else does |
| Collection.Insert | script.js:303-309 | insertion adds exactly the one record |
| Collection.SortBy | script.js:303-309 | sorting is a permutation |
| Collection.InsertSorted | script.js:303-309 | inserting into a sorted list keeps it sorted |
| Collection.SortBySorted | script.js:303-309 | the sorted list is in ascending key order |
| Collection.WithKey | script.js:303-309 | the records with a given key, in list order, all come from the list |
| Collection.InsertWithKey | script.js:303-309 | among the records sharing its key, the inserted record comes first and the others keep their order |
| Collection.SortByStable | script.js:303-309 | records with equal keys keep their relative order (a stable sort) |
| Collection.StableSortUnique | script.js:303-309 | two sorted lists with the same records per key, in the same order, are equal |
| Collection.SortByIsTheStableSort | script.js:303-309 | any sorted, order-preserving rearrangement is the sort's result |
| Collection.InsertDistinct | script.js:303 | inserting a fresh id keeps ids distinct |
| Collection.SortByDistinct | script.js:303 | sorting keeps ids distinct |
| Collection.AppendDistinct | script.js:497 | appending a record with a new id keeps ids distinct |
| Collection.ReplaceByIdDistinct | script.js:445-450 | replacing the record with an id by one carrying that id keeps ids distinct, also when `splice(-1, 1, w)` overwrites the last record |
| Collection.DeleteByIdDistinct | script.js:575-583 | removing a record keeps ids distinct |
| Collection.SortedByIdUnique | script.js:303 | with distinct ids, a permutation sorted by id is unique |
| Collection.ResortByIdForgetsKey | script.js:118-137 | re-sorting by id a list sorted by any key gives the list sorted by id |
| Collection.SortKeepsWellFormed | script.js:303-309 | sorting keeps every record well formed |
| Collection.CollectionKeepsWellFormed | script.js:445-450 | replacing, deleting and sorting keep every record well formed |
| Editing.PatchOf | script.js:340-342 | the copied patch carries the record's id, type, distance, duration and type-specific field |
| Editing.ApplyFormChange | script.js:365-385 | a form change overwrites only type, distance, duration, cadence and elevation gain; the id and the derived fields stay |
| Editing.RetypeDescribe | script.js:406-434 | replacing the type word in a generated description gives exactly the description generated for the new type |
| Editing.CheckEdit | script.js:388-441 | a patch with fields but no copied origin throws; the empty patch is rejected unchanged; otherwise an edit is accepted exactly when distance, duration and the type-specific field are positive and finite; the other type's fields are cleared, pace or speed is recomputed, and the origin (id, date, coordinates) is kept with only its description's type word rewritten; when the description was generated for either type, an accepted record is the freshly constructed one |
| Editing.UntouchedEditKeepsRecord | script.js:340-342 | submitting a freshly copied patch yields the same record |
| Editing.EditRebuildsRecord | script.js:365-437 | a valid edit yields the record a fresh construction of the chosen type would, with the original id, date and coordinates |
| Mapty.ApplySortFacts | script.js:296-310 | `sortByMethod` leaves the same records, sorted by the selected key, all well formed |
| Mapty.App.constructor | script.js:97-101 | the fields start empty; a stored list is loaded and sorted by id, and the stored sort key is reset to "time-created" |
| Mapty.App.LoadFromStorage | script.js:118-143 | with no stored list nothing changes; otherwise the list becomes the stored one sorted by id and the sort choice is reset |
| Mapty.App.Persist | script.js:146-149 | both keys are written with the list and the sort choice |
| Mapty.PersistedReadsBack | script.js:146-149 | saved storage reads back the saved list and sort choice |
| Mapty.App.StoreSortKey | script.js:300 | the sort key is written to storage and the stored list, like every field, stays as it was |
| Mapty.App.SortByMethod | script.js:296-312 | the sort choice is set (to "time-created" without an event) and saved, and the list becomes a permutation sorted by that key, or stays as it was for an unknown key |
| Mapty.App.MapClick | script.js:181-188 | the click is always recorded; the form opens exactly when no edit is open |
| Mapty.App.NewWorkoutSubmit | script.js:466-505 | ignored exactly without a recorded click; alert exactly on invalid input, with nothing changed; otherwise exactly one record is appended at the clicked point, everything is saved, and the click stays; ids stay distinct when the new id is not in the list |
| Mapty.App.StartEditingWorkout | script.js:322-362 | ignored while an edit is open; otherwise the edit opens on the id with a copy of the record and the click is cleared; an absent id throws after the id is set |
| Mapty.App.FormChange | script.js:365-385 | only while editing, the patch takes the five form values |
| Mapty.App.UpdateWorkoutSubmit | script.js:388-462 | ignored while a click is recorded; a patch with fields but no copied record throws with nothing changed; alert on invalid data or on the empty patch, with list, storage and edit unchanged; on valid data the record with the patch's id is replaced, everything is saved and the edit is closed, unless no record has that id: then `splice(-1, 1, ...)` overwrites the last entry (or fills an empty list) and the render throws, so nothing is saved and the edit stays open |
| Mapty.App.SaveEditedRecord | script.js:445-462 | the record with the edited id is replaced; when the id was found everything is saved and the edit closes, otherwise the last entry is overwritten (on an empty list the record becomes its only entry) and the render that follows throws before saving; ids stay distinct |
| Mapty.CheckEditKeepsConsistency | script.js:394-437 | checking a patch copied from a record keeps its description generated for its type and its id tied to the open edit, and an accepted record is well formed |
| Mapty.App.DeleteWorkout | script.js:568-588 | the record with the id is removed (the last one if the id is absent) and everything is saved; ids stay distinct |
| Mapty.App.Reset | script.js:590-597 | unless confirmed nothing changes; otherwise both keys are removed and the app starts empty |
| Mapty.App.ListClick | script.js:106-113 | a click on the edit button behaves as StartEditingWorkout in its three cases, one on the delete button deletes and saves, and a click on the entry itself changes nothing |
| Mapty.App.Submit | script.js:111-115 | of the two submit listeners exactly one acts, the recorded click decides which, and the acting one has the full effect of NewWorkoutSubmit (alert exactly on invalid input, never a crash) or UpdateWorkoutSubmit; distinct ids are kept when the new id is fresh |
| Mapty.EditUntouched | script.js:322-462 | opening and submitting an edit without changes leaves the list as it was, saved, with the edit closed |
| Mapty.MapClickDuringEdit | script.js:181-188 | a map click during an edit makes the next submission add a record at the click exactly when the input is valid, and leave the edit open |
| Mapty.ReloadAfterSort | script.js:118-137 | with distinct ids, after sorting and saving, a reload gives the list sorted by id and the sort choice "time-created" |

## Left out

- The Leaflet map is not modelled: loading it, the markers, `_removeWorkoutMarker` and `_moveToPopup`. These are calls into a foreign library.
- The geolocation request `_getPosition` is not modelled. It is an asynchronous browser API.
- DOM rendering, `toFixed`, form visibility, field toggling and the sort selector's displayed option are not modelled. They carry no logic beyond class changes.
- `JSON.stringify`/`JSON.parse` are not modelled: storage holds the list value itself. After a real reload a record's `date` is a string, but the program reads `date` only to build the description (script.js:41-42), before any save.
- `Date.now()`, `new Date()`, `confirm`, `alert` and `location.reload` become parameters or outcomes. `Reset` models the reload as starting the controller afresh over the remaining storage.
- IEEE floating point is not modelled. Numbers are `real` or +Infinity, and NaN, -Infinity, `undefined` and `false` are one `NonFinite` case: none of them passes `Number.isFinite` or `> 0`, the only two tests the program applies.
- JsValues.Div: any quotient with an infinite, `NonFinite` or zero operand where a divisor is expected gives `NonFinite`, where JavaScript can give 0 or +Infinity. Such a quotient only appears in a rejected patch, is recomputed before it can reach the list, and is never read.
- A record after an accepted edit has no slot for the `false` that `updateWorkoutMethod` writes into the other type's fields (`elevationGain` and `speed` on a run, `cadence` and `pace` on a ride; script.js:406-436), so the list and its stored JSON carry two keys the model drops. No code reads them: a patch copied from such a record treats `false` and a missing field alike, which is why an untouched edit gives the list back as it was (`EditUntouched`).
- Mapty.App.NewWorkoutSubmit: the type selector is limited to its two options. Any other value would push `undefined` into the list.
- Mapty.App.DeleteWorkout: an entry can show an id that is no longer in the list. Start an edit on record A, which removes A's entry (script.js:359); sort, which renders A again (script.js:314-318); delete A (script.js:583); then submit the edit. `findIndex` gives -1, `splice(-1, 1, patch)` overwrites the last record B (script.js:450), and `_renderWorkout(undefined)` throws (script.js:452). B's entry still shows B's id. Deleting it calls `_removeWorkoutMarker(undefined)` (script.js:581), which throws at `workout.coords` (script.js:219) because B's marker is still on the map. The model does not model that throw: it performs the `splice(-1, 1)` by choice, which the source reaches only when no marker layer is on the map.
- Mapty.App.DeleteWorkout and Mapty.App.UpdateWorkoutSubmit assume the map has loaded. If geolocation fails, `this.#map._layers` (script.js:215) throws. In a delete this happens before the splice (script.js:581 runs before 583), so nothing changes. In an accepted edit it happens after the splice (script.js:454) but before `_setLocalStorage` and `isBeingEditedId = false` (script.js:460-462). Stored records are still listed without the map (script.js:137-142), so both buttons are reachable.
- Ids are numbers in the model. The source keeps them as the decimal string of the timestamp, and those strings compare equal exactly when the numbers do.
- `_getLocalStorage` marks the stored sort option as selected in the selector. This is DOM-only, and the next line resets the key anyway.
