/** assign_classes: serve the students in priority order, each from the one shared working
    copy of the capacity table, first by preference, then by random backfill, then (when
    enabled) with a lunch slot inserted; the schedules are collected in a dict keyed by name. */
module Engine {
  import opened Ordering
  import opened Capacity

  /** The entry inserted for the lunch period. */
  const Marker: string := "Lunch"

  /** The backfill loop ran out of open classes while the named student still lacked
      shortfall classes; the source loops forever in this state. */
  datatype Error = CapacityExhausted(student: string, shortfall: nat)

  datatype Result<T> = Ok(value: T) | Err(error: Error)

  /** Flattens per-student class lists into one list, in serving order. */
  function Flatten(ss: seq<seq<string>>): seq<string>
  {
    if ss == [] then [] else Flatten(ss[..|ss| - 1]) + ss[|ss| - 1]
  }

  lemma FlattenSnoc(ss: seq<seq<string>>, s: seq<string>)
    ensures Flatten(ss + [s]) == Flatten(ss) + s
  {
    assert (ss + [s])[..|ss|] == ss;
  }

  // ---------------------------------------------------------------------------------
  // Preference phase

  /** A student's classes so far and the table after taking them. */
  datatype Taken = Taken(classes: seq<string>, seats: map<string, int>)

  /** The preference loop from preference j on, with the classes acc already taken: a
      preference with an open seat is taken, and the loop stops as soon as the student holds
      maxClasses classes (the check follows every preference, taken or not). */
  function PrefLoop(prefs: seq<string>, j: nat, seats: map<string, int>, acc: seq<string>, maxClasses: int): Taken
    requires j <= |prefs|
    decreases |prefs| - j
  {
    if j == |prefs| then Taken(acc, seats)
    else
      var p := prefs[j];
      var open := Remaining(seats, p) > 0;
      var acc' := if open then acc + [p] else acc;
      var seats' := if open then seats[p := seats[p] - 1] else seats;
      if |acc'| == maxClasses then Taken(acc', seats') else PrefLoop(prefs, j + 1, seats', acc', maxClasses)
  }

  /** The preference phase of one student, from an empty schedule. */
  function PreferencePhase(prefs: seq<string>, seats: map<string, int>, maxClasses: int): Taken
  {
    PrefLoop(prefs, 0, seats, [], maxClasses)
  }

  // ---------------------------------------------------------------------------------
  // Backfill phase

  /** random.choice(avail) where draws(k) is the k-th value of the seeded random source. */
  function Pick(avail: seq<string>, draws: nat -> nat, k: nat): (c: string)
    requires avail != []
    ensures c in avail
  {
    avail[draws(k) % |avail|]
  }

  /** The backfill result: the classes, the table after them, and the number of random
      draws used so far; or the shortfall left when no class is open. */
  datatype Fill = Filled(classes: seq<string>, seats: map<string, int>, used: nat) | Stuck(shortfall: nat)

  /** The backfill loop: while the student holds fewer than maxClasses classes, take a
      random open class (repeats of classes already held are allowed). */
  function Backfill(order: seq<string>, seats: map<string, int>, acc: seq<string>, maxClasses: int,
                    draws: nat -> nat, k: nat): Fill
    decreases maxClasses - |acc|
  {
    if |acc| >= maxClasses then Filled(acc, seats, k)
    else
      var avail := Available(order, seats);
      if avail == [] then Stuck(maxClasses - |acc|)
      else
        var c := Pick(avail, draws, k);
        Backfill(order, seats[c := seats[c] - 1], acc + [c], maxClasses, draws, k + 1)
  }

  // ---------------------------------------------------------------------------------
  // Lunch slot

  /** The index at which Python's list.insert(i, x) puts x in a list of length n: a
      negative i counts from the end, and the index is clamped to the list. */
  function InsertIndex(n: nat, i: int): (j: nat)
    ensures j <= n
  {
    if i < 0 then (if n + i < 0 then 0 else n + i) else if i > n then n else i
  }

  /** list.insert(i, x): x lands at InsertIndex and the other entries keep their order. */
  function ListInsert<T>(s: seq<T>, i: int, x: T): (r: seq<T>)
    ensures |r| == |s| + 1
    ensures r[InsertIndex(|s|, i)] == x
    ensures r[..InsertIndex(|s|, i)] + r[InsertIndex(|s|, i) + 1..] == s
  {
    var j := InsertIndex(|s|, i);
    assert (s[..j] + [x] + s[j..])[..j] == s[..j];
    assert (s[..j] + [x] + s[j..])[j + 1..] == s[j..];
    s[..j] + [x] + s[j..]
  }

  /** Where list.insert(i, x) puts x among the entries of s: a negative i leaves exactly
      min(-i, |s|) entries after x, a non-negative i puts x just before s[i], and an i past
      either end puts x at that end. */
  lemma ListInsertPosition<T>(s: seq<T>, i: int, x: T)
    ensures -|s| <= i < 0 ==> ListInsert(s, i, x)[|s| + i + 1] == s[|s| + i]
    ensures 0 <= i < |s| ==> ListInsert(s, i, x)[i + 1] == s[i]
    ensures i >= |s| ==> ListInsert(s, i, x) == s + [x]
    ensures i <= -|s| ==> ListInsert(s, i, x) == [x] + s
    ensures i < 0 ==> |ListInsert(s, i, x)| - 1 - InsertIndex(|s|, i) == if -i < |s| then -i else |s|
  {
    var j := InsertIndex(|s|, i);
    assert ListInsert(s, i, x) == s[..j] + [x] + s[j..];
    if j == |s| {
      assert s[..j] == s;
    }
    if j == 0 {
      assert s[j..] == s;
    }
  }

  /** The lunch slot: two places from the end at an even serving rank, one at an odd rank. */
  function WithLunch(classes: seq<string>, rank: nat): seq<string>
  {
    ListInsert(classes, if rank % 2 == 0 then -2 else -1, Marker)
  }

  /** A student's final schedule. */
  function Finish(classes: seq<string>, rank: nat, lunch: bool): seq<string>
  {
    if lunch then WithLunch(classes, rank) else classes
  }

  // ---------------------------------------------------------------------------------
  // One student, and the whole run

  /** The key order of the table, max_classes and the lunch flag. */
  datatype Config = Config(order: seq<string>, maxClasses: int, lunch: bool)

  /** One student's classes, final schedule, the table after them and the draws used so far. */
  datatype Step = Step(classes: seq<string>, schedule: seq<string>, seats: map<string, int>, used: nat)

  /** One iteration of the loop over students: the student served at rank. */
  function ScheduleOne(st: Student, rank: nat, cfg: Config, seats: map<string, int>, draws: nat -> nat, k: nat): Result<Step>
  {
    var pref := PreferencePhase(st.preferences, seats, cfg.maxClasses);
    match Backfill(cfg.order, pref.seats, pref.classes, cfg.maxClasses, draws, k)
    case Stuck(n) => Err(CapacityExhausted(st.name, n))
    case Filled(classes, seats', used) => Ok(Step(classes, Finish(classes, rank, cfg.lunch), seats', used))
  }

  /** The state after serving some students: their class lists in serving order, the
      assignments dict, the working table and the number of random draws used. */
  datatype State = State(classes: seq<seq<string>>, assignments: map<string, seq<string>>,
                         seats: map<string, int>, used: nat)

  function Names(p: seq<Student>): set<string>
  {
    set st | st in p :: st.name
  }

  /** {student['name']: [] for student in students}, the original table and no draws. */
  function Start(p: seq<Student>, seats: map<string, int>): State
  {
    State([], map n | n in Names(p) :: [], seats, 0)
  }

  /** Serves student st at rank after the run so far: the first student whose backfill
      finds no open class ends the run. */
  function Serve(r: Result<State>, st: Student, rank: nat, cfg: Config, draws: nat -> nat): Result<State>
  {
    match r
    case Err(e) => Err(e)
    case Ok(s) =>
      match ScheduleOne(st, rank, cfg, s.seats, draws, s.used)
      case Err(e) => Err(e)
      case Ok(step) => Ok(State(s.classes + [step.classes], s.assignments[st.name := step.schedule], step.seats, step.used))
  }

  /** The state after serving the first n students of the serving order p. */
  function Run(p: seq<Student>, n: nat, cfg: Config, seats0: map<string, int>, draws: nat -> nat): Result<State>
    requires n <= |p|
    decreases n, 1
  {
    if n == 0 then Ok(Start(p, seats0)) else RunServe(p, n, cfg, seats0, draws)
  }

  /** The state after serving the n-th student of p on the run over the students before. */
  function RunServe(p: seq<Student>, n: nat, cfg: Config, seats0: map<string, int>, draws: nat -> nat): Result<State>
    requires 0 < n <= |p|
    decreases n, 0
  {
    Serve(Run(p, n - 1, cfg, seats0, draws), p[n - 1], n - 1, cfg, draws)
  }

  /** assign_classes(students, class_capacities, max_classes, lunch) with the table given
      as its key order and counts and the random source as draws. */
  function Assign(students: seq<Student>, order: seq<string>, seats: map<string, int>, maxClasses: int,
                  lunch: bool, draws: nat -> nat): Result<map<string, seq<string>>>
  {
    var p := ByPriority(students);
    match Run(p, |p|, Config(order, maxClasses, lunch), seats, draws)
    case Ok(s) => Ok(s.assignments)
    case Err(e) => Err(e)
  }

  /** A failed run stays failed. */
  lemma {:induction false} ErrSticks(p: seq<Student>, i: nat, n: nat, cfg: Config, seats0: map<string, int>, draws: nat -> nat)
    requires i <= n <= |p|
    requires Run(p, i, cfg, seats0, draws).Err?
    ensures Run(p, n, cfg, seats0, draws) == Run(p, i, cfg, seats0, draws)
  {
    if i < n {
      ErrSticks(p, i, n - 1, cfg, seats0, draws);
    }
  }

  /** Serving one more student extends a run by that student's step. */
  lemma RunNext(p: seq<Student>, n: nat, cfg: Config, seats0: map<string, int>, draws: nat -> nat, s: State, step: Step)
    requires n < |p|
    requires Run(p, n, cfg, seats0, draws) == Ok(s)
    requires ScheduleOne(p[n], n, cfg, s.seats, draws, s.used) == Ok(step)
    ensures Run(p, n + 1, cfg, seats0, draws)
         == Ok(State(s.classes + [step.classes], s.assignments[p[n].name := step.schedule], step.seats, step.used))
  {
  }

  /** A student whose backfill finds no open class ends the whole run with that error. */
  lemma RunNextErr(p: seq<Student>, n: nat, cfg: Config, seats0: map<string, int>, draws: nat -> nat, s: State, e: Error)
    requires n < |p|
    requires Run(p, n, cfg, seats0, draws) == Ok(s)
    requires ScheduleOne(p[n], n, cfg, s.seats, draws, s.used) == Err(e)
    ensures Run(p, |p|, cfg, seats0, draws) == Err(e)
  {
    ErrSticks(p, n + 1, |p|, cfg, seats0, draws);
  }

  /** The preference loop of assign_classes on the working table (Reading.py:55-60). */
  method TakePreferences(prefs: seq<string>, temp: CapacityTable, maxClasses: int) returns (schedule: seq<string>)
    requires temp.Valid()
    modifies temp
    ensures temp.Valid() && temp.order == old(temp.order)
    ensures Taken(schedule, temp.seats) == PreferencePhase(prefs, old(temp.seats), maxClasses)
  {
    schedule := [];
    var j := 0;
    while j < |prefs|
      invariant 0 <= j <= |prefs|
      invariant temp.Valid() && temp.order == old(temp.order)
      invariant PrefLoop(prefs, j, temp.seats, schedule, maxClasses) == PreferencePhase(prefs, old(temp.seats), maxClasses)
    {
      var pref := prefs[j];
      if Remaining(temp.seats, pref) > 0 {
        schedule := schedule + [pref];
        temp.Decrement(pref);
      }
      if |schedule| == maxClasses {
        assert Taken(schedule, temp.seats) == PreferencePhase(prefs, old(temp.seats), maxClasses);
        break;
      }
      j := j + 1;
    }
  }

  /** The backfill loop of assign_classes on the working table (Reading.py:63-68); ok is
      false where the source would loop forever, no class being open. */
  method FillRandomly(temp: CapacityTable, start: seq<string>, maxClasses: int, draws: nat -> nat, usedBefore: nat)
    returns (schedule: seq<string>, used: nat, ok: bool)
    requires temp.Valid()
    modifies temp
    ensures temp.Valid() && temp.order == old(temp.order)
    ensures !ok ==> |schedule| < maxClasses
    ensures Backfill(temp.order, old(temp.seats), start, maxClasses, draws, usedBefore)
         == if ok then Filled(schedule, temp.seats, used) else Stuck(maxClasses - |schedule|)
  {
    schedule, used := start, usedBefore;
    while |schedule| < maxClasses
      invariant temp.Valid() && temp.order == old(temp.order)
      invariant Backfill(temp.order, temp.seats, schedule, maxClasses, draws, used)
             == Backfill(temp.order, old(temp.seats), start, maxClasses, draws, usedBefore)
      decreases maxClasses - |schedule|
    {
      var available := Available(temp.order, temp.seats);
      if available == [] {
        return schedule, used, false;
      }
      var choice := Pick(available, draws, used);
      used := used + 1;
      schedule := schedule + [choice];
      temp.Decrement(choice);
    }
    ok := true;
  }

  /** One iteration of the loop over students (Reading.py:51-75): the preference loop, the
      backfill loop and the lunch insertion on the working table; classes is the schedule
      before the lunch slot, and ok is false where the source would loop forever. */
  method ServeStudent(student: Student, idx: nat, temp: CapacityTable, maxClasses: int, lunch: bool,
                      draws: nat -> nat, usedBefore: nat)
    returns (classes: seq<string>, schedule: seq<string>, used: nat, ok: bool)
    requires temp.Valid()
    modifies temp
    ensures temp.Valid() && temp.order == old(temp.order)
    ensures !ok ==> |classes| < maxClasses
    ensures ScheduleOne(student, idx, Config(temp.order, maxClasses, lunch), old(temp.seats), draws, usedBefore)
         == if ok then Ok(Step(classes, schedule, temp.seats, used))
            else Err(CapacityExhausted(student.name, maxClasses - |classes|))
  {
    classes := TakePreferences(student.preferences, temp, maxClasses);
    ghost var pref := Taken(classes, temp.seats);
    classes, used, ok := FillRandomly(temp, classes, maxClasses, draws, usedBefore);
    ghost var fill := Backfill(temp.order, pref.seats, pref.classes, maxClasses, draws, usedBefore);
    assert fill == if ok then Filled(classes, temp.seats, used) else Stuck(maxClasses - |classes|);
    schedule := classes;
    if lunch {
      if idx % 2 == 0 {
        schedule := ListInsert(schedule, -2, Marker);
      } else {
        schedule := ListInsert(schedule, -1, Marker);
      }
    }
    assert schedule == Finish(classes, idx, lunch);
  }

  /** The imperative assign_classes: sorts the students, copies the table, and serves each
      student in turn on the copy, recording the schedule under the student's name. */
  method AssignClasses(students: seq<Student>, table: CapacityTable, maxClasses: int, lunch: bool, draws: nat -> nat)
    returns (r: Result<map<string, seq<string>>>)
    requires table.Valid()
    ensures table.order == old(table.order) && table.seats == old(table.seats)
    ensures r == Assign(students, table.order, table.seats, maxClasses, lunch, draws)
  {
    var sorted := ByPriority(students);
    var assignments: map<string, seq<string>> := map n | n in Names(sorted) :: [];
    var temp := table.Copy();
    var used: nat := 0;
    ghost var cfg := Config(table.order, maxClasses, lunch);
    ghost var served: seq<seq<string>> := [];
    var idx := 0;
    while idx < |sorted|
      invariant 0 <= idx <= |sorted|
      invariant fresh(temp) && temp.Valid() && temp.order == table.order
      invariant Run(sorted, idx, cfg, table.seats, draws) == Ok(State(served, assignments, temp.seats, used))
    {
      var student := sorted[idx];
      ghost var before := State(served, assignments, temp.seats, used);
      var classes, schedule, ok;
      classes, schedule, used, ok := ServeStudent(student, idx, temp, maxClasses, lunch, draws, used);
      if !ok {
        r := Err(CapacityExhausted(student.name, maxClasses - |classes|));
        RunNextErr(sorted, idx, cfg, table.seats, draws, before, r.error);
        return;
      }
      RunNext(sorted, idx, cfg, table.seats, draws, before, Step(classes, schedule, temp.seats, used));
      assignments := assignments[student.name := schedule];
      served := served + [classes];
      idx := idx + 1;
    }
    r := Ok(assignments);
  }

  /** Two calls on the same table and the same random source give the same result: the
      first call leaves the caller's table as it was. */
  method AssignTwice(students: seq<Student>, table: CapacityTable, maxClasses: int, lunch: bool, draws: nat -> nat)
    returns (first: Result<map<string, seq<string>>>, second: Result<map<string, seq<string>>>)
    requires table.Valid()
    ensures first == second
    ensures first == Assign(students, table.order, table.seats, maxClasses, lunch, draws)
  {
    first := AssignClasses(students, table, maxClasses, lunch, draws);
    second := AssignClasses(students, table, maxClasses, lunch, draws);
  }
}
