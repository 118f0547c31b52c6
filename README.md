# Schedules_Day: the class-assignment engine in Dafny

This project models `assign_classes` from `Reading.py`, the schedule-assignment engine of
Schedules_Day. The engine takes parsed student records, a dict of class capacities,
`max_classes` and a lunch flag, and builds a day's schedule for each student:

1. It sorts the students by grade, highest first, then by timestamp, earliest first.
   Python's `sorted` is stable, so students with equal keys keep their input order.
2. It copies the capacity dict. Every student then draws seats from that one working copy,
   in serving order.
3. For each student:
   - It takes each listed preference that still has an open seat, until the student holds
     `max_classes` classes.
   - It fills the remaining slots with `random.choice` among the classes that still have an
     open seat. These picks may repeat a class the student already holds.
   - When lunch is enabled, it inserts `"Lunch"` with `list.insert(-2)` at an even serving
     rank and `list.insert(-1)` at an odd rank.
4. It stores each schedule in a dict keyed by student name. A later student with the same
   name overwrites the earlier entry.

The model has four modules:

- `Ordering` (ordering.dfy) defines the student record and the stable sort on
  `(-grade, timestamp)`. The sort is an insertion sort of input positions.
- `Capacity` (capacity.dfy) models the capacity dict. The dict is its key order plus a
  `map`. The module gives `dict.get(c, 0)`, the open-class comprehension and seat
  accounting. The class `CapacityTable` is the mutable dict, with `copy()` and the
  decrement.
- `Engine` (engine.dfy) has two layers.
  - The specification functions: `PrefLoop`, `Backfill`, `ScheduleOne`, `Run` and `Assign`.
  - The imperative `assign_classes`. `TakePreferences`, `FillRandomly`, `ServeStudent` and
    `AssignClasses` work on the `CapacityTable` copy with the source's loops. Each is
    proved equal to the specification functions.
- `Properties` (properties.dfy) proves what the engine guarantees about those functions.

Inputs the source gets from outside are parameters of the model:

- `random.choice(avail)` is `avail[draws(k) % |avail|]`. The draw function `draws` is
  supplied by the caller, and `k` counts the draws taken so far.
- Timestamps are integers.

The source's backfill loop never ends when no class has an open seat (see Findings).
The model returns `Err(CapacityExhausted(name, shortfall))` instead. `shortfall` is the
number of classes the student still lacks.

`max_classes` is an unbounded `int`, and the preference loop stops on the source's exact
`len(assigned) == max_classes` test. The properties about schedule lengths and about when
the run finishes assume `max_classes >= 1`. The model also covers `max_classes <= 0`,
where the run always finishes.

The lunch slot follows the code's `insert(-2)` at an even rank and `insert(-1)` at an odd
rank (Reading.py:72-75), which put it at `max(0, max_classes - 2)` and
`max(0, max_classes - 1)`. With three classes that is `[a, Lunch, b, c]` at an even rank
and `[a, b, Lunch, c]` at an odd rank; with one class it is `[Lunch, a]` at either rank.

## Model

| member | source | states |
|---|---|---|
| Ordering.SortIndices | Reading.py:46 | The first n input positions, each exactly once, in stable-sort order: higher grade first, then earlier timestamp, then input order. |
| Ordering.ProcessingOrder | Reading.py:46 | The serving order is a permutation of the input. Each later student has a lower grade, or the same grade and a later timestamp, or the same key and a later input position. |
| Ordering.ServedFirst | Reading.py:46 | A student who ranks before another (by grade, then timestamp, then input position) is served first. |
| Ordering.StableSortIsUnique | Reading.py:46 | Any stable sort on the key (-grade, timestamp) yields this serving order. |
| Capacity.Available | Reading.py:64 | A class is listed exactly when it is a key with more than 0 seats and no list is longer than the key order. |
| Capacity.AvailableDistinct | Reading.py:64 | Each open class is listed once, since a dict's keys are distinct. |
| Capacity.AvailableConcat | Reading.py:64 | The list for a key order split in two is the list for the first part followed by the list for the second, so the comprehension keeps the dict's key order. |
| Capacity.AvailableOne | Reading.py:64 | A single key is listed exactly when it has more than 0 seats. |
| Capacity.NoneAvailable | Reading.py:64-65 | No class is listed exactly when the table has no open seat. |
| Capacity.NeverOversold | Reading.py:56-58 | A class is never taken more often than it had open seats, and a count that starts at 0 or more never goes negative. |
| Capacity.CapacityTable.Copy | Reading.py:49 | `copy()` returns a new table with the same keys, key order and counts. |
| Capacity.CapacityTable.Decrement | Reading.py:58 | `seats[c] -= 1` changes only the count of c. |
| Engine.Pick | Reading.py:66 | `random.choice` returns one of the open classes. |
| Engine.ListInsertPosition | Reading.py:72-75 | `list.insert(i, x)` with a negative i leaves exactly min(-i, len) entries after x, so insert(-2) lands "before the last two periods" and insert(-1) "just before the last period". A non-negative i puts x just before s[i]; an i past either end puts x at that end. |
| Engine.ListInsert | Reading.py:73-75 | `list.insert` adds x at InsertIndex; the other entries keep their order and the length grows by one. |
| Engine.TakePreferences | Reading.py:55-60 | The imperative preference loop with its `break` leaves the classes and the working table that PreferencePhase gives. |
| Engine.FillRandomly | Reading.py:63-68 | The imperative backfill loop leaves the classes, the table and the draw count that Backfill gives. It reports failure exactly where Backfill is Stuck. |
| Engine.ServeStudent | Reading.py:51-75 | One iteration of the loop over students, on the working table, computes exactly ScheduleOne: the classes, the schedule with lunch, the new table and the draws. It reports the student and the shortfall where the source would hang. |
| Engine.AssignClasses | Reading.py:44-77 | The imperative assign_classes returns exactly Assign and leaves the caller's table unchanged. |
| Engine.AssignTwice | Reading.py:49 | Only the copy is modified, so two calls on the same table and draws return the same dict. |
| Properties.PrefLoopTakes | Reading.py:55-60 | The preference loop keeps the classes already held and takes one seat per added class, only from classes with an open seat. It keeps the dict's keys, lowers the total of open seats by the classes added, and never exceeds max_classes. |
| Properties.PreferencePhaseIsEligible | Reading.py:55-60 | The preference phase returns, in order, the preferences that still had an open seat when reached, cut off at max_classes. |
| Properties.EligibleMembers | Reading.py:56 | A class is kept exactly when the student lists it and it has an open seat. A name that is not a key is never kept, because `.get(pref, 0)` is 0. |
| Properties.PreferencePhaseFirst | Reading.py:55-58 | An open first preference becomes the first class. |
| Properties.BackfillTakes | Reading.py:63-68 | Backfill finishes exactly when the table has enough open seats for the missing classes. It then ends with exactly max_classes classes, keeps the earlier ones, and takes one seat per pick, only from classes with an open seat. |
| Properties.ScheduleOneTakes | Reading.py:51-75 | Serving one student takes exactly max_classes seats, only from classes with an open seat, and records the classes with the lunch slot added. The student is served exactly when the table has max_classes open seats; a failure names the student. |
| Properties.PreferenceFirst | Reading.py:55-68 | A student whose first preference still has an open seat gets it as the first class. |
| Properties.RunPrefix | Reading.py:50 | Each student is served in turn on the table the earlier students left: a successful run extends the run on every prefix of the serving order. |
| Properties.RunSeats | Reading.py:50-68 | After any number of students, the working table is a dict over the same keys. It has one seat less per assigned class, taken only from classes with an open seat, and every class list has max_classes entries. A failure names one of the students. |
| Properties.RunSucceedsIff | Reading.py:50-68 | The run over n students finishes exactly when the table holds n * max_classes open seats. |
| Properties.RunAssignments | Reading.py:76 | The dict has one key per student name. A name not yet served maps to []; a served name maps to the schedule of the last student of that name, so a duplicate name overwrites the earlier entry. |
| Properties.AssignSucceedsIff | Reading.py:63-68 | assign_classes returns exactly when the table holds max_classes open seats per student. |
| Properties.AssignKeys | Reading.py:47 | The returned dict has one key per student name. A run that cannot finish names one of the students. |
| Properties.AssignSchedules | Reading.py:63-76 | Every returned schedule has max_classes entries, plus one with lunch. Every entry is "Lunch" or a key of the capacity table. |
| Properties.AssignResult | Reading.py:44-77 | The three Assign properties above together. |
| Properties.SeatsNeverOversold | Reading.py:56-68 | Across all schedules, a class occurs exactly as often as its count dropped. That is never more than its initial open seats, and an initially non-negative count stays non-negative. |
| Properties.ScarceSeatTaken | Reading.py:55-58 | When a class with one seat is the first preference of the student at position i, some student up to position i holds it. |
| Properties.ScarceSeatGoesFirst | Reading.py:50-58 | When a class with one seat is the first preference of the student at position i, a student up to i holds it and no student served after i gets it. |
| Properties.LunchPlacement | Reading.py:71-75 | With lunch, "Lunch" sits at max(0, n-2) at an even rank and at max(0, n-1) at an odd rank. The classes keep their order around it and the length grows by one. |
| Properties.LunchExamples | Reading.py:72-75 | Three classes give [a, Lunch, b, c] at an even rank and [a, b, Lunch, c] at an odd rank; one class gives [Lunch, a]. |
| Properties.LunchConsumesNothing | Reading.py:71-75 | The lunch slot takes no seat and no random draw. With or without it, the run assigns the same classes, leaves the same table and fails for the same student. |
| Properties.BackfillSpins | Reading.py:63-68 | As written, once no seat is open and the student still lacks classes, a pass of the loop body changes nothing, so the loop never ends. Backfill is Stuck there. |
| Properties.BackfillPassAgrees | Reading.py:63-68 | While a class is open, a pass of the loop body as written is one step of Backfill. |
| Properties.BackfillHangExample | Reading.py:63-68 | One class with 0 seats and max_classes = 1: the pass changes nothing and Backfill is Stuck with shortfall 1. |
| Properties.BackfillMayRepeat | Reading.py:64-67 | Backfill does not skip classes the student already holds: with one open class, both picks are that class. |
| Properties.ExampleServingOrder | Reading.py:46 | Of two students with equal grades, the earlier timestamp is served first. |

## Left out

- CSV reading (`read_classes_from_csv`, Reading.py:19-27, and `read_csv_to_list`, Reading.py:30-41) is file I/O. The model takes parsed student records and a capacity table as inputs.
- PDF output (`generate_pdf_schedule`, Reading.py:80-95) and ZIP packaging (`package_pdfs_to_zip`, Reading.py:98-106) are file-system and library side effects.
- The `lunch=False` default of `assign_classes` (Reading.py:44) is not modelled: `AssignClasses` always takes `lunch` explicitly, as `main` passes it (Reading.py:127).
- `main` (Reading.py:109-135) only wires the pieces together. It fills `grade` from the subject count; the model takes the grade as any given integer.
- `pd.to_datetime` (Reading.py:116) is a library call. Timestamps are integers, compared as the source compares them.
- `random.choice` is the draw function `draws`. The generator and its distribution are not modelled; only "returns an element of the non-empty list" and the order of draws are.
- The infinite backfill loop is modelled as the error `CapacityExhausted`, and `FillRandomly` returns `ok = false` where the source would spin.
- Insertion order of the returned dict's keys is not modelled. The result is a `map`; the key order of the capacity table is modelled, because it fixes the list `random.choice` sees.
- No per-class roster is computed anywhere in Reading.py, so none is modelled.
- Properties.PreferencePhaseIsEligible: stated for max_classes >= 1 only. With a negative max_classes the `==` test never fires and every open preference is taken. With 0 the loop stops at once when the first preference is closed, and otherwise takes every open preference. The model computes both cases but no lemma states them.
- Properties.ScarceSeatGoesFirst: stated for a class that is the student's first preference. A later preference may never be reached once the student holds max_classes classes.

## Findings

| source | as written | input that shows it | evidently intended | confidence | as-written member | corrected member |
|---|---|---|---|---|---|---|
| Reading.py:63-68 | `while len(assigned) < max_classes` repeats a body that does nothing once no class has an open seat, so `assign_classes` never returns | A table `{"Art": 0}`, `max_classes = 1`, and a student with no open preference | Stop and report the student who cannot be filled. The corrected Backfill is Stuck exactly when fewer open seats remain than classes are missing (Properties.BackfillFinishes) | not executed | Properties.BackfillSpins | Engine.Backfill |
