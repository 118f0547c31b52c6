/** What assign_classes guarantees, stated and proved about the model in Engine. */
module Properties {
  import opened Ordering
  import opened Capacity
  import opened Engine

  // ---------------------------------------------------------------------------------
  // Seat accounting, one phase at a time

  /** One step of a loop that takes p if open: what the rest of the loop took from the
      table after the step, the whole loop took from the table before it. */
  lemma TakeStep(seats: map<string, int>, p: string, open: bool, acc: seq<string>,
                 classes: seq<string>, after: map<string, int>)
    requires open == (Remaining(seats, p) > 0)
    requires var acc' := if open then acc + [p] else acc;
             var seats' := if open then seats[p := seats[p] - 1] else seats;
             |acc'| <= |classes| && classes[..|acc'|] == acc' && Accounts(seats', after, classes[|acc'|..])
    ensures |acc| <= |classes| && classes[..|acc|] == acc && Accounts(seats, after, classes[|acc|..])
  {
    if open {
      assert classes[..|acc|] == (acc + [p])[..|acc|];
      assert classes[|acc|..] == [p] + classes[|acc| + 1..];
      AccountsPrepend(seats, p, after, classes[|acc| + 1..]);
    }
  }

  /** The preference loop keeps the classes already held, takes a seat for each class it
      adds and only from open classes, and never exceeds maxClasses. */
  lemma {:induction false} PrefLoopAccounts(prefs: seq<string>, j: nat, seats: map<string, int>,
                                           acc: seq<string>, maxClasses: int)
    requires j <= |prefs|
    decreases |prefs| - j
    ensures var r := PrefLoop(prefs, j, seats, acc, maxClasses);
      && |acc| <= |r.classes| && r.classes[..|acc|] == acc
      && Accounts(seats, r.seats, r.classes[|acc|..])
      && (|acc| < maxClasses ==> |r.classes| <= maxClasses)
  {
    var r := PrefLoop(prefs, j, seats, acc, maxClasses);
    if j == |prefs| {
      AccountsNone(seats);
    } else {
      var p := prefs[j];
      var open := Remaining(seats, p) > 0;
      var acc' := if open then acc + [p] else acc;
      var seats' := if open then seats[p := seats[p] - 1] else seats;
      PrefLoopNext(prefs, j, seats, acc, maxClasses, acc', seats');
      if |acc'| == maxClasses {
        AccountsNone(seats');
      } else {
        PrefLoopAccounts(prefs, j + 1, seats', acc', maxClasses);
      }
      TakeStep(seats, p, open, acc, r.classes, r.seats);
    }
  }

  /** The preference loop keeps the table a dict over the same keys and lowers its open
      seats by the number of classes it adds. */
  lemma {:induction false} PrefLoopTotal(order: seq<string>, prefs: seq<string>, j: nat, seats: map<string, int>,
                                        acc: seq<string>, maxClasses: int)
    requires j <= |prefs| && Wf(order, seats)
    decreases |prefs| - j
    ensures var r := PrefLoop(prefs, j, seats, acc, maxClasses);
      && Wf(order, r.seats)
      && TotalSeats(order, r.seats) == TotalSeats(order, seats) - (|r.classes| - |acc|)
  {
    if j < |prefs| {
      var p := prefs[j];
      var open := Remaining(seats, p) > 0;
      var acc' := if open then acc + [p] else acc;
      var seats' := if open then seats[p := seats[p] - 1] else seats;
      PrefLoopNext(prefs, j, seats, acc, maxClasses, acc', seats');
      if open {
        TakeSeat(order, seats, p);
      }
      if |acc'| != maxClasses {
        PrefLoopTotal(order, prefs, j + 1, seats', acc', maxClasses);
      }
    }
  }

  lemma PrefLoopTakes(order: seq<string>, prefs: seq<string>, j: nat, seats: map<string, int>,
                      acc: seq<string>, maxClasses: int)
    requires j <= |prefs| && Wf(order, seats)
    ensures var r := PrefLoop(prefs, j, seats, acc, maxClasses);
      && |acc| <= |r.classes| && r.classes[..|acc|] == acc
      && Accounts(seats, r.seats, r.classes[|acc|..])
      && (|acc| < maxClasses ==> |r.classes| <= maxClasses)
      && Wf(order, r.seats)
      && TotalSeats(order, r.seats) == TotalSeats(order, seats) - (|r.classes| - |acc|)
  {
    PrefLoopAccounts(prefs, j, seats, acc, maxClasses);
    PrefLoopTotal(order, prefs, j, seats, acc, maxClasses);
  }

  /** One iteration of the preference loop. */
  lemma PrefLoopNext(prefs: seq<string>, j: nat, cur: map<string, int>, acc: seq<string>, maxClasses: int,
                     acc': seq<string>, cur': map<string, int>)
    requires j < |prefs|
    requires var open := Remaining(cur, prefs[j]) > 0;
      && acc' == (if open then acc + [prefs[j]] else acc)
      && cur' == (if open then cur[prefs[j] := cur[prefs[j]] - 1] else cur)
    ensures PrefLoop(prefs, j, cur, acc, maxClasses)
         == if |acc'| == maxClasses then Taken(acc', cur') else PrefLoop(prefs, j + 1, cur', acc', maxClasses)
  {
  }

  // ---------------------------------------------------------------------------------
  // The preference phase against a reference definition

  /** Preference j is still open when it is reached: its seats exceed the number of times
      it was listed before (each earlier listing took a seat while one was left). */
  predicate Kept(prefs: seq<string>, seats: map<string, int>, j: nat)
    requires j < |prefs|
  {
    Remaining(seats, prefs[j]) > multiset(prefs[..j])[prefs[j]]
  }

  /** The kept preferences among the first n, in order. */
  function EligibleUpTo(prefs: seq<string>, seats: map<string, int>, n: nat): seq<string>
    requires n <= |prefs|
  {
    if n == 0 then [] else EligibleUpTo(prefs, seats, n - 1) + (if Kept(prefs, seats, n - 1) then [prefs[n - 1]] else [])
  }

  function Eligible(prefs: seq<string>, seats: map<string, int>): seq<string>
  {
    EligibleUpTo(prefs, seats, |prefs|)
  }

  /** The first n entries of s, or all of s when it is shorter. */
  function Take(s: seq<string>, n: nat): seq<string>
  {
    if |s| <= n then s else s[..n]
  }

  function Min(a: int, b: int): int
  {
    if a < b then a else b
  }

  /** cur is seats0 after each listing in listed took a seat of its class while one was left. */
  ghost predicate Consumed(seats0: map<string, int>, cur: map<string, int>, listed: seq<string>)
  {
    forall c :: Remaining(cur, c) == Remaining(seats0, c) - Min(multiset(listed)[c], Positive(Remaining(seats0, c)))
  }

  /** Listing p once more: p is open exactly when its seats exceed its earlier listings, and
      taking it when open keeps the table in step with the listings. */
  lemma ConsumedStep(seats0: map<string, int>, cur: map<string, int>, listed: seq<string>, p: string)
    requires Consumed(seats0, cur, listed)
    ensures (Remaining(cur, p) > 0) == (Remaining(seats0, p) > multiset(listed)[p])
    ensures Remaining(cur, p) > 0 ==> p in cur && Consumed(seats0, cur[p := cur[p] - 1], listed + [p])
    ensures Remaining(cur, p) <= 0 ==> Consumed(seats0, cur, listed + [p])
  {
    assert Remaining(cur, p) == Remaining(seats0, p) - Min(multiset(listed)[p], Positive(Remaining(seats0, p)));
    var cur' := if Remaining(cur, p) > 0 then cur[p := cur[p] - 1] else cur;
    forall c ensures Remaining(cur', c) ==
      Remaining(seats0, c) - Min(multiset(listed + [p])[c], Positive(Remaining(seats0, c)))
    {
      assert Remaining(cur, c) == Remaining(seats0, c) - Min(multiset(listed)[c], Positive(Remaining(seats0, c)));
    }
  }

  lemma {:induction false} EligiblePrefix(prefs: seq<string>, seats: map<string, int>, i: nat, n: nat)
    requires i <= n <= |prefs|
    decreases n
    ensures |EligibleUpTo(prefs, seats, i)| <= |EligibleUpTo(prefs, seats, n)|
    ensures EligibleUpTo(prefs, seats, n)[..|EligibleUpTo(prefs, seats, i)|] == EligibleUpTo(prefs, seats, i)
  {
    if i < n {
      EligiblePrefix(prefs, seats, i, n - 1);
    }
  }

  /** One iteration of the preference loop appends preference j exactly when it is kept. */
  lemma EligibleStep(prefs: seq<string>, seats0: map<string, int>, j: nat, cur: map<string, int>, acc: seq<string>)
    requires j < |prefs| && acc == EligibleUpTo(prefs, seats0, j) && Consumed(seats0, cur, prefs[..j])
    ensures (if Remaining(cur, prefs[j]) > 0 then acc + [prefs[j]] else acc) == EligibleUpTo(prefs, seats0, j + 1)
  {
    ConsumedStep(seats0, cur, prefs[..j], prefs[j]);
  }

  /** One iteration of the preference loop keeps the table in step with the listings so far. */
  lemma ConsumedNext(prefs: seq<string>, seats0: map<string, int>, j: nat, cur: map<string, int>)
    requires j < |prefs| && Consumed(seats0, cur, prefs[..j])
    ensures var p := prefs[j];
      Consumed(seats0, if Remaining(cur, p) > 0 then cur[p := cur[p] - 1] else cur, prefs[..j + 1])
  {
    ConsumedStep(seats0, cur, prefs[..j], prefs[j]);
    assert prefs[..j + 1] == prefs[..j] + [prefs[j]];
  }

  /** The preference loop at preference j, on a table that has lost one seat per earlier
      listing of each class while it had one, holding the kept preferences so far. */
  lemma {:induction false} PrefLoopIsEligible(prefs: seq<string>, seats0: map<string, int>, j: nat,
                                             cur: map<string, int>, acc: seq<string>, maxClasses: int)
    requires j <= |prefs| && maxClasses >= 1
    requires acc == EligibleUpTo(prefs, seats0, j) && |acc| < maxClasses
    requires Consumed(seats0, cur, prefs[..j])
    decreases |prefs| - j
    ensures PrefLoop(prefs, j, cur, acc, maxClasses).classes == Take(Eligible(prefs, seats0), maxClasses)
  {
    if j < |prefs| {
      var p := prefs[j];
      var open := Remaining(cur, p) > 0;
      var acc' := if open then acc + [p] else acc;
      var cur' := if open then cur[p := cur[p] - 1] else cur;
      EligibleStep(prefs, seats0, j, cur, acc);
      ConsumedNext(prefs, seats0, j, cur);
      PrefLoopNext(prefs, j, cur, acc, maxClasses, acc', cur');
      if |acc'| == maxClasses {
        EligiblePrefix(prefs, seats0, j + 1, |prefs|);
      } else {
        PrefLoopIsEligible(prefs, seats0, j + 1, cur', acc', maxClasses);
      }
    }
  }

  /** The preference phase takes the kept preferences in order, cut off at maxClasses. */
  lemma PreferencePhaseIsEligible(prefs: seq<string>, seats: map<string, int>, maxClasses: int)
    requires maxClasses >= 1
    ensures PreferencePhase(prefs, seats, maxClasses).classes == Take(Eligible(prefs, seats), maxClasses)
  {
    assert prefs[..0] == [];
    PrefLoopIsEligible(prefs, seats, 0, seats, [], maxClasses);
  }

  lemma {:induction false} EligibleUpToMembers(prefs: seq<string>, seats: map<string, int>, n: nat, c: string)
    requires n <= |prefs|
    ensures c in EligibleUpTo(prefs, seats, n) <==> c in prefs[..n] && Remaining(seats, c) > 0
  {
    if n > 0 {
      EligibleUpToMembers(prefs, seats, n - 1, c);
      assert prefs[..n] == prefs[..n - 1] + [prefs[n - 1]];
    }
  }

  /** A class is among the kept preferences exactly when the student lists it and it has
      an open seat in the table the student starts from; a name that is not a key is
      never kept. */
  lemma EligibleMembers(prefs: seq<string>, seats: map<string, int>, c: string)
    ensures c in Eligible(prefs, seats) <==> c in prefs && Remaining(seats, c) > 0
    ensures c !in seats ==> c !in Eligible(prefs, seats)
  {
    EligibleUpToMembers(prefs, seats, |prefs|, c);
    assert prefs[..|prefs|] == prefs;
  }

  /** One iteration of the backfill loop. */
  lemma BackfillNext(order: seq<string>, seats: map<string, int>, acc: seq<string>, maxClasses: int,
                     draws: nat -> nat, k: nat)
    requires |acc| < maxClasses && Available(order, seats) != []
    ensures var c := Pick(Available(order, seats), draws, k);
      && Remaining(seats, c) > 0
      && Backfill(order, seats, acc, maxClasses, draws, k)
         == Backfill(order, seats[c := seats[c] - 1], acc + [c], maxClasses, draws, k + 1)
  {
  }

  /** The backfill loop keeps the classes already held, takes a seat for each class it adds
      and only from open classes, and ends with exactly maxClasses classes when it finishes. */
  lemma {:induction false} BackfillAccounts(order: seq<string>, seats: map<string, int>, acc: seq<string>,
                                           maxClasses: int, draws: nat -> nat, k: nat)
    decreases maxClasses - |acc|
    ensures var r := Backfill(order, seats, acc, maxClasses, draws, k);
      && (r.Filled? ==>
            && |acc| <= |r.classes| && r.classes[..|acc|] == acc
            && |r.classes| == (if |acc| < maxClasses then maxClasses else |acc|)
            && Accounts(seats, r.seats, r.classes[|acc|..])
            && r.used >= k)
      && (r.Stuck? ==> 0 < r.shortfall <= maxClasses - |acc|)
  {
    var r := Backfill(order, seats, acc, maxClasses, draws, k);
    if |acc| >= maxClasses {
      AccountsNone(seats);
    } else if Available(order, seats) != [] {
      var c := Pick(Available(order, seats), draws, k);
      BackfillNext(order, seats, acc, maxClasses, draws, k);
      BackfillAccounts(order, seats[c := seats[c] - 1], acc + [c], maxClasses, draws, k + 1);
      if r.Filled? {
        TakeStep(seats, c, true, acc, r.classes, r.seats);
      }
    }
  }

  /** The backfill loop keeps the table a dict over the same keys and lowers its open seats
      by the number of classes it adds. */
  lemma {:induction false} BackfillSeats(order: seq<string>, seats: map<string, int>, acc: seq<string>,
                                        maxClasses: int, draws: nat -> nat, k: nat)
    requires Wf(order, seats)
    decreases maxClasses - |acc|
    ensures var r := Backfill(order, seats, acc, maxClasses, draws, k);
      r.Filled? ==> Wf(order, r.seats) && TotalSeats(order, r.seats) == TotalSeats(order, seats) - (|r.classes| - |acc|)
  {
    if |acc| < maxClasses && Available(order, seats) != [] {
      var c := Pick(Available(order, seats), draws, k);
      BackfillNext(order, seats, acc, maxClasses, draws, k);
      TakeSeat(order, seats, c);
      BackfillSeats(order, seats[c := seats[c] - 1], acc + [c], maxClasses, draws, k + 1);
    }
  }

  /** The backfill loop finishes exactly when the table has enough open seats for the
      classes still missing. */
  lemma {:induction false} BackfillFinishes(order: seq<string>, seats: map<string, int>, acc: seq<string>,
                                           maxClasses: int, draws: nat -> nat, k: nat)
    requires Wf(order, seats)
    decreases maxClasses - |acc|
    ensures Backfill(order, seats, acc, maxClasses, draws, k).Filled? <==> TotalSeats(order, seats) >= maxClasses - |acc|
  {
    if |acc| < maxClasses {
      NoneAvailable(order, seats);
      if Available(order, seats) != [] {
        var c := Pick(Available(order, seats), draws, k);
        BackfillNext(order, seats, acc, maxClasses, draws, k);
        TakeSeat(order, seats, c);
        BackfillFinishes(order, seats[c := seats[c] - 1], acc + [c], maxClasses, draws, k + 1);
      }
    }
  }

  lemma BackfillTotal(order: seq<string>, seats: map<string, int>, acc: seq<string>,
                      maxClasses: int, draws: nat -> nat, k: nat)
    requires Wf(order, seats)
    ensures var r := Backfill(order, seats, acc, maxClasses, draws, k);
      && (r.Filled? <==> TotalSeats(order, seats) >= maxClasses - |acc|)
      && (r.Filled? ==>
            && Wf(order, r.seats)
            && TotalSeats(order, r.seats) == TotalSeats(order, seats) - (|r.classes| - |acc|))
  {
    BackfillSeats(order, seats, acc, maxClasses, draws, k);
    BackfillFinishes(order, seats, acc, maxClasses, draws, k);
  }

  lemma BackfillTakes(order: seq<string>, seats: map<string, int>, acc: seq<string>, maxClasses: int,
                      draws: nat -> nat, k: nat)
    requires Wf(order, seats)
    ensures var r := Backfill(order, seats, acc, maxClasses, draws, k);
      && (r.Filled? <==> TotalSeats(order, seats) >= maxClasses - |acc|)
      && (r.Filled? ==>
            && |acc| <= |r.classes| && r.classes[..|acc|] == acc
            && |r.classes| == (if |acc| < maxClasses then maxClasses else |acc|)
            && Accounts(seats, r.seats, r.classes[|acc|..])
            && Wf(order, r.seats)
            && TotalSeats(order, r.seats) == TotalSeats(order, seats) - (|r.classes| - |acc|)
            && r.used >= k)
      && (r.Stuck? ==> 0 < r.shortfall <= maxClasses - |acc|)
  {
    BackfillAccounts(order, seats, acc, maxClasses, draws, k);
    BackfillTotal(order, seats, acc, maxClasses, draws, k);
  }

  /** Serving one student takes the classes out of the table seat by seat, exactly
      maxClasses of them, and records them with the lunch slot added; a failure names the
      student and the classes still missing. */
  lemma ScheduleOneAccounts(st: Student, rank: nat, cfg: Config, seats: map<string, int>, draws: nat -> nat, k: nat)
    ensures var r := ScheduleOne(st, rank, cfg, seats, draws, k);
      && (r.Ok? ==>
            && Accounts(seats, r.value.seats, r.value.classes)
            && r.value.schedule == Finish(r.value.classes, rank, cfg.lunch)
            && r.value.used >= k
            && (cfg.maxClasses >= 1 ==> |r.value.classes| == cfg.maxClasses))
      && (cfg.maxClasses <= 0 ==> r.Ok?)
      && (r.Err? ==> r.error.student == st.name && 0 < r.error.shortfall <= cfg.maxClasses)
  {
    var pref := PreferencePhase(st.preferences, seats, cfg.maxClasses);
    PrefLoopAccounts(st.preferences, 0, seats, [], cfg.maxClasses);
    assert pref.classes[0..] == pref.classes;
    BackfillAccounts(cfg.order, pref.seats, pref.classes, cfg.maxClasses, draws, k);
    var fill := Backfill(cfg.order, pref.seats, pref.classes, cfg.maxClasses, draws, k);
    if fill.Filled? {
      assert fill.classes == pref.classes + fill.classes[|pref.classes|..];
      AccountsChain(seats, pref.seats, fill.seats, pref.classes, fill.classes[|pref.classes|..]);
    }
  }

  /** Serving one student keeps the table a dict over the same keys and lowers its open
      seats by the classes assigned; with maxClasses at least 1 the student is served exactly
      when the table still has maxClasses open seats. */
  lemma ScheduleOneTotal(st: Student, rank: nat, cfg: Config, seats: map<string, int>, draws: nat -> nat, k: nat)
    requires Wf(cfg.order, seats)
    ensures var r := ScheduleOne(st, rank, cfg, seats, draws, k);
      && (r.Ok? ==>
            && Wf(cfg.order, r.value.seats)
            && TotalSeats(cfg.order, r.value.seats) == TotalSeats(cfg.order, seats) - |r.value.classes|)
      && (cfg.maxClasses >= 1 ==> (r.Ok? <==> TotalSeats(cfg.order, seats) >= cfg.maxClasses))
  {
    var pref := PreferencePhase(st.preferences, seats, cfg.maxClasses);
    PrefLoopAccounts(st.preferences, 0, seats, [], cfg.maxClasses);
    PrefLoopTotal(cfg.order, st.preferences, 0, seats, [], cfg.maxClasses);
    BackfillTotal(cfg.order, pref.seats, pref.classes, cfg.maxClasses, draws, k);
  }

  /** Serving one student: both halves above. */
  lemma ScheduleOneTakes(st: Student, rank: nat, cfg: Config, seats: map<string, int>, draws: nat -> nat, k: nat)
    requires Wf(cfg.order, seats)
    ensures var r := ScheduleOne(st, rank, cfg, seats, draws, k);
      && (r.Ok? ==>
            && Accounts(seats, r.value.seats, r.value.classes)
            && Wf(cfg.order, r.value.seats)
            && r.value.schedule == Finish(r.value.classes, rank, cfg.lunch)
            && r.value.used >= k
            && TotalSeats(cfg.order, r.value.seats) == TotalSeats(cfg.order, seats) - |r.value.classes|)
      && (cfg.maxClasses >= 1 ==>
            && (r.Ok? <==> TotalSeats(cfg.order, seats) >= cfg.maxClasses)
            && (r.Ok? ==> |r.value.classes| == cfg.maxClasses))
      && (cfg.maxClasses <= 0 ==> r.Ok?)
      && (r.Err? ==> r.error.student == st.name && 0 < r.error.shortfall <= cfg.maxClasses)
  {
    ScheduleOneAccounts(st, rank, cfg, seats, draws, k);
    ScheduleOneTotal(st, rank, cfg, seats, draws, k);
  }

  /** An open first preference is the first class of the preference phase. */
  lemma PreferencePhaseFirst(order: seq<string>, prefs: seq<string>, seats: map<string, int>, maxClasses: int)
    requires Wf(order, seats) && maxClasses >= 1
    requires prefs != [] && Remaining(seats, prefs[0]) > 0
    ensures var r := PreferencePhase(prefs, seats, maxClasses);
      r.classes != [] && r.classes[0] == prefs[0]
  {
    var c := prefs[0];
    TakeSeat(order, seats, c);
    var seats' := seats[c := seats[c] - 1];
    assert [] + [c] == [c];
    if maxClasses != 1 {
      PrefLoopTakes(order, prefs, 1, seats', [c], maxClasses);
    }
  }

  /** A student served while the first preference still has an open seat gets it as the
      first class. */
  lemma PreferenceFirst(st: Student, rank: nat, cfg: Config, seats: map<string, int>, draws: nat -> nat, k: nat)
    requires Wf(cfg.order, seats) && cfg.maxClasses >= 1
    requires st.preferences != [] && Remaining(seats, st.preferences[0]) > 0
    ensures var r := ScheduleOne(st, rank, cfg, seats, draws, k);
      r.Ok? ==> r.value.classes != [] && r.value.classes[0] == st.preferences[0]
  {
    var pref := PreferencePhase(st.preferences, seats, cfg.maxClasses);
    PreferencePhaseFirst(cfg.order, st.preferences, seats, cfg.maxClasses);
    PrefLoopTakes(cfg.order, st.preferences, 0, seats, [], cfg.maxClasses);
    BackfillTakes(cfg.order, pref.seats, pref.classes, cfg.maxClasses, draws, k);
    var fill := Backfill(cfg.order, pref.seats, pref.classes, cfg.maxClasses, draws, k);
    if fill.Filled? {
      assert fill.classes[0] == fill.classes[..|pref.classes|][0];
    }
  }

  /** Serving a student records Finish of the student's classes. */
  lemma ScheduleOneFinish(st: Student, rank: nat, cfg: Config, seats: map<string, int>, draws: nat -> nat, k: nat)
    ensures var r := ScheduleOne(st, rank, cfg, seats, draws, k);
      r.Ok? ==> r.value.schedule == Finish(r.value.classes, rank, cfg.lunch)
  {
  }

  // ---------------------------------------------------------------------------------
  // The whole run

  lemma FlattenMember(ss: seq<seq<string>>, k: nat, x: string)
    requires k < |ss| && x in ss[k]
    ensures x in Flatten(ss)
  {
    if k < |ss| - 1 {
      assert ss[..|ss| - 1][k] == ss[k];
      FlattenMember(ss[..|ss| - 1], k, x);
    }
  }

  lemma {:induction false} FlattenPrefix(ss: seq<seq<string>>, a: nat, b: nat)
    requires a <= b <= |ss|
    decreases b
    ensures |Flatten(ss[..a])| <= |Flatten(ss[..b])| && Flatten(ss[..b])[..|Flatten(ss[..a])|] == Flatten(ss[..a])
  {
    if a < b {
      assert ss[..b][..b - 1] == ss[..b - 1];
      FlattenPrefix(ss, a, b - 1);
    }
  }

  lemma {:induction false} FlattenLength(ss: seq<seq<string>>, m: int)
    requires forall k :: 0 <= k < |ss| ==> |ss[k]| == m
    ensures |Flatten(ss)| == |ss| * m
  {
    if ss != [] {
      var init := ss[..|ss| - 1];
      assert forall k :: 0 <= k < |init| ==> init[k] == ss[k];
      FlattenLength(init, m);
      assert |ss| * m == |init| * m + m;
    }
  }

  lemma {:induction false} RunLength(p: seq<Student>, n: nat, cfg: Config, seats0: map<string, int>, draws: nat -> nat)
    requires n <= |p|
    ensures Run(p, n, cfg, seats0, draws).Ok? ==> |Run(p, n, cfg, seats0, draws).value.classes| == n
  {
    if n > 0 {
      RunLength(p, n - 1, cfg, seats0, draws);
    }
  }

  /** Serving one more student appends one class list and keeps the earlier ones. */
  lemma ServePrefix(r: Result<State>, st: Student, n: nat, cfg: Config, draws: nat -> nat)
    requires r.Ok? ==> |r.value.classes| == n
    ensures var t := Serve(r, st, n, cfg, draws);
      t.Ok? ==> r.Ok? && |t.value.classes| == n + 1 && t.value.classes[..n] == r.value.classes
  {
  }

  /** A successful run passes through successful runs on every prefix of the serving order. */
  lemma {:induction false} RunPrefix(p: seq<Student>, m: nat, n: nat, cfg: Config, seats0: map<string, int>, draws: nat -> nat)
    requires m <= n <= |p| && Run(p, n, cfg, seats0, draws).Ok?
    decreases n
    ensures Run(p, m, cfg, seats0, draws).Ok?
    ensures |Run(p, n, cfg, seats0, draws).value.classes| == n
    ensures Run(p, n, cfg, seats0, draws).value.classes[..m] == Run(p, m, cfg, seats0, draws).value.classes
  {
    if m < n {
      RunLength(p, n - 1, cfg, seats0, draws);
      ServePrefix(Run(p, n - 1, cfg, seats0, draws), p[n - 1], n - 1, cfg, draws);
      RunPrefix(p, m, n - 1, cfg, seats0, draws);
      var cl := Run(p, n, cfg, seats0, draws).value.classes;
      assert cl[..m] == cl[..n - 1][..m];
    } else {
      RunLength(p, n, cfg, seats0, draws);
    }
  }

  /** The working table after the class lists classes: still a dict over the same keys, one
      seat given out per class assigned, only from open classes and only from keys of the
      table, and every list holding exactly maxClasses classes. */
  ghost predicate SeatsInv(cfg: Config, seats0: map<string, int>, classes: seq<seq<string>>, seats: map<string, int>)
  {
    && Wf(cfg.order, seats)
    && Accounts(seats0, seats, Flatten(classes))
    && TotalSeats(cfg.order, seats) == TotalSeats(cfg.order, seats0) - |Flatten(classes)|
    && (cfg.maxClasses >= 1 ==> forall k :: 0 <= k < |classes| ==> |classes[k]| == cfg.maxClasses)
  }

  lemma SeatsInvStart(cfg: Config, seats0: map<string, int>)
    requires Wf(cfg.order, seats0)
    ensures SeatsInv(cfg, seats0, [], seats0)
  {
    AccountsNone(seats0);
  }

  lemma SeatsInvStep(cfg: Config, seats0: map<string, int>, classes: seq<seq<string>>, seats: map<string, int>,
                     st: Student, rank: nat, draws: nat -> nat, k: nat)
    requires SeatsInv(cfg, seats0, classes, seats)
    ensures var one := ScheduleOne(st, rank, cfg, seats, draws, k);
      one.Ok? ==> SeatsInv(cfg, seats0, classes + [one.value.classes], one.value.seats)
  {
    ScheduleOneAccounts(st, rank, cfg, seats, draws, k);
    ScheduleOneTotal(st, rank, cfg, seats, draws, k);
    var one := ScheduleOne(st, rank, cfg, seats, draws, k);
    if one.Ok? {
      var step := one.value;
      FlattenSnoc(classes, step.classes);
      AccountsChain(seats0, seats, step.seats, Flatten(classes), step.classes);
    }
  }

  /** The outcome of a run over n students: on success n class lists under SeatsInv, on
      failure a student of names short of at least one seat. */
  ghost predicate RunInv(cfg: Config, seats0: map<string, int>, names: set<string>, n: nat, r: Result<State>)
  {
    && (r.Ok? ==> |r.value.classes| == n && SeatsInv(cfg, seats0, r.value.classes, r.value.seats))
    && (r.Err? ==> r.error.student in names && 0 < r.error.shortfall)
  }

  lemma ServeInv(cfg: Config, seats0: map<string, int>, names: set<string>, n: nat, r: Result<State>,
                 st: Student, draws: nat -> nat)
    requires RunInv(cfg, seats0, names, n, r) && st.name in names
    ensures RunInv(cfg, seats0, names, n + 1, Serve(r, st, n, cfg, draws))
  {
    if r.Ok? {
      var s := r.value;
      SeatsInvStep(cfg, seats0, s.classes, s.seats, st, n, draws, s.used);
      ScheduleOneAccounts(st, n, cfg, s.seats, draws, s.used);
    }
  }

  /** After the first n students the working table satisfies SeatsInv; a failed run names
      one of the students. */
  lemma {:induction false} RunSeats(p: seq<Student>, n: nat, cfg: Config, seats0: map<string, int>, draws: nat -> nat)
    requires n <= |p| && Wf(cfg.order, seats0)
    ensures var r := Run(p, n, cfg, seats0, draws);
      && (r.Ok? ==> |r.value.classes| == n && SeatsInv(cfg, seats0, r.value.classes, r.value.seats))
      && (r.Err? ==> r.error.student in Names(p) && 0 < r.error.shortfall)
  {
    RunInvHolds(p, n, cfg, seats0, draws);
  }

  lemma {:induction false} RunInvHolds(p: seq<Student>, n: nat, cfg: Config, seats0: map<string, int>, draws: nat -> nat)
    requires n <= |p| && Wf(cfg.order, seats0)
    ensures RunInv(cfg, seats0, Names(p), n, Run(p, n, cfg, seats0, draws))
  {
    if n == 0 {
      SeatsInvStart(cfg, seats0);
    } else {
      RunInvHolds(p, n - 1, cfg, seats0, draws);
      assert p[n - 1] in p;
      ServeInv(cfg, seats0, Names(p), n - 1, Run(p, n - 1, cfg, seats0, draws), p[n - 1], draws);
    }
  }

  lemma RunAccounts(p: seq<Student>, n: nat, cfg: Config, seats0: map<string, int>, draws: nat -> nat)
    requires n <= |p| && Wf(cfg.order, seats0)
    ensures var r := Run(p, n, cfg, seats0, draws);
      r.Ok? ==> Accounts(seats0, r.value.seats, Flatten(r.value.classes))
  {
    RunSeats(p, n, cfg, seats0, draws);
  }

  /** A run over n students finishes exactly when the table holds maxClasses open seats per
      student; with maxClasses of 0 or less it always finishes. */
  ghost predicate Finishes(cfg: Config, seats0: map<string, int>, n: nat, r: Result<State>)
  {
    && (cfg.maxClasses >= 1 ==> (r.Ok? <==> TotalSeats(cfg.order, seats0) >= n * cfg.maxClasses))
    && (cfg.maxClasses <= 0 ==> r.Ok?)
  }

  lemma ServeFinishes(cfg: Config, seats0: map<string, int>, names: set<string>, n: nat, r: Result<State>,
                      st: Student, draws: nat -> nat)
    requires RunInv(cfg, seats0, names, n, r) && Finishes(cfg, seats0, n, r)
    ensures Finishes(cfg, seats0, n + 1, Serve(r, st, n, cfg, draws))
  {
    assert (n + 1) * cfg.maxClasses == n * cfg.maxClasses + cfg.maxClasses;
    if r.Ok? {
      var s := r.value;
      ScheduleOneTotal(st, n, cfg, s.seats, draws, s.used);
      ScheduleOneAccounts(st, n, cfg, s.seats, draws, s.used);
      if cfg.maxClasses >= 1 {
        FlattenLength(s.classes, cfg.maxClasses);
      }
    }
  }

  /** The run finishes exactly when the table holds maxClasses open seats per student;
      with maxClasses of 0 or less it always finishes. */
  lemma {:induction false} RunSucceedsIff(p: seq<Student>, n: nat, cfg: Config, seats0: map<string, int>, draws: nat -> nat)
    requires n <= |p| && Wf(cfg.order, seats0)
    ensures Finishes(cfg, seats0, n, Run(p, n, cfg, seats0, draws))
  {
    if n > 0 {
      RunSucceedsIff(p, n - 1, cfg, seats0, draws);
      RunInvHolds(p, n - 1, cfg, seats0, draws);
      ServeFinishes(cfg, seats0, Names(p), n - 1, Run(p, n - 1, cfg, seats0, draws), p[n - 1], draws);
    }
  }

  // ---------------------------------------------------------------------------------
  // The assignments dict

  /** The last position before n in the serving order of a student named nm, or -1. */
  function LastIndex(p: seq<Student>, n: nat, nm: string): (k: int)
    requires n <= |p|
    ensures -1 <= k < n
    ensures k >= 0 ==> p[k].name == nm
    ensures forall j :: k < j < n ==> p[j].name != nm
  {
    if n == 0 then -1 else if p[n - 1].name == nm then n - 1 else LastIndex(p, n - 1, nm)
  }

  /** After the first n students of p the dict has one key per student name; a name not
      yet served maps to [], and a served name to the schedule of the last student of that
      name served, so a later student of the same name overwrites an earlier one. */
  ghost predicate AssignInv(p: seq<Student>, n: nat, cfg: Config, r: Result<State>)
    requires n <= |p|
  {
    r.Ok? ==>
      && |r.value.classes| == n
      && r.value.assignments.Keys == Names(p)
      && forall nm :: nm in r.value.assignments ==>
           r.value.assignments[nm] ==
             (var k := LastIndex(p, n, nm); if k < 0 then [] else Finish(r.value.classes[k], k, cfg.lunch))
  }

  /** Recording one more student's schedule under their name keeps AssignInv. */
  lemma AssignInvStep(p: seq<Student>, n: nat, cfg: Config, s: State, step: Step)
    requires n < |p| && AssignInv(p, n, cfg, Ok(s)) && step.schedule == Finish(step.classes, n, cfg.lunch)
    ensures AssignInv(p, n + 1, cfg,
      Ok(State(s.classes + [step.classes], s.assignments[p[n].name := step.schedule], step.seats, step.used)))
  {
    assert p[n] in p;
    var classes := s.classes + [step.classes];
    var assignments := s.assignments[p[n].name := step.schedule];
    forall nm | nm in assignments
      ensures assignments[nm] ==
        (var k := LastIndex(p, n + 1, nm); if k < 0 then [] else Finish(classes[k], k, cfg.lunch))
    {
      AssignEntryStep(p, n, cfg, s, step, nm);
    }
  }

  /** The entry of name nm after recording one more student's schedule. */
  lemma AssignEntryStep(p: seq<Student>, n: nat, cfg: Config, s: State, step: Step, nm: string)
    requires n < |p| && AssignInv(p, n, cfg, Ok(s)) && step.schedule == Finish(step.classes, n, cfg.lunch)
    requires nm in s.assignments || nm == p[n].name
    ensures var classes := s.classes + [step.classes];
      s.assignments[p[n].name := step.schedule][nm] ==
        (var k := LastIndex(p, n + 1, nm); if k < 0 then [] else Finish(classes[k], k, cfg.lunch))
  {
    var classes := s.classes + [step.classes];
    if nm != p[n].name {
      var k := LastIndex(p, n, nm);
      if k >= 0 {
        assert classes[k] == s.classes[k];
      }
    }
  }

  lemma ServeAssign(p: seq<Student>, n: nat, cfg: Config, r: Result<State>, draws: nat -> nat)
    requires n < |p| && AssignInv(p, n, cfg, r)
    ensures AssignInv(p, n + 1, cfg, Serve(r, p[n], n, cfg, draws))
  {
    if r.Ok? {
      var s := r.value;
      ScheduleOneFinish(p[n], n, cfg, s.seats, draws, s.used);
      var one := ScheduleOne(p[n], n, cfg, s.seats, draws, s.used);
      if one.Ok? {
        AssignInvStep(p, n, cfg, s, one.value);
      }
    }
  }

  lemma {:induction false} RunAssignments(p: seq<Student>, n: nat, cfg: Config, seats0: map<string, int>, draws: nat -> nat)
    requires n <= |p|
    ensures AssignInv(p, n, cfg, Run(p, n, cfg, seats0, draws))
  {
    if n > 0 {
      RunAssignments(p, n - 1, cfg, seats0, draws);
      ServeAssign(p, n - 1, cfg, Run(p, n - 1, cfg, seats0, draws), draws);
    }
  }

  /** Every entry of a final schedule is one of the student's classes or the lunch slot. */
  lemma FinishMembers(classes: seq<string>, rank: nat, lunch: bool, x: string)
    requires x in Finish(classes, rank, lunch)
    ensures x == Marker || x in classes
  {
    if lunch {
      var r := WithLunch(classes, rank);
      var j := InsertIndex(|classes|, if rank % 2 == 0 then -2 else -1);
      var i :| 0 <= i < |r| && r[i] == x;
      if i < j {
        assert classes[i] == (r[..j] + r[j + 1..])[i];
      } else if i > j {
        assert classes[i - 1] == (r[..j] + r[j + 1..])[i - 1];
      }
    }
  }

  lemma FinishLength(classes: seq<string>, rank: nat, lunch: bool)
    ensures |Finish(classes, rank, lunch)| == |classes| + (if lunch then 1 else 0)
  {
  }

  lemma NamesByPriority(students: seq<Student>)
    ensures Names(ByPriority(students)) == Names(students)
  {
    var p := ByPriority(students);
    ProcessingOrder(students);
    forall nm | nm in Names(students) ensures nm in Names(p) {
      var st :| st in students && st.name == nm;
      var i :| 0 <= i < |students| && students[i] == st;
      assert i in Order(students);
      var k :| 0 <= k < |p| && Order(students)[k] == i;
      assert p[k] == st;
    }
    forall nm | nm in Names(p) ensures nm in Names(students) {
      var st :| st in p && st.name == nm;
      var k :| 0 <= k < |p| && p[k] == st;
      assert students[Order(students)[k]] == st;
    }
  }

  /** In a finished run every schedule holds maxClasses classes plus the lunch slot when
      enabled, and every entry is the lunch slot or a class of the table. */
  lemma FinishedSchedules(p: seq<Student>, cfg: Config, seats0: map<string, int>, fin: State)
    requires cfg.maxClasses >= 1 && AssignInv(p, |p|, cfg, Ok(fin)) && SeatsInv(cfg, seats0, fin.classes, fin.seats)
    ensures forall nm :: nm in fin.assignments ==>
      |fin.assignments[nm]| == cfg.maxClasses + (if cfg.lunch then 1 else 0)
    ensures forall nm, x :: nm in fin.assignments && x in fin.assignments[nm] ==> x == Marker || x in seats0
  {
    forall nm | nm in fin.assignments
      ensures var k := LastIndex(p, |p|, nm); 0 <= k && fin.assignments[nm] == Finish(fin.classes[k], k, cfg.lunch)
    {
      var st :| st in p && st.name == nm;
      var i :| 0 <= i < |p| && p[i] == st;
    }
    forall nm | nm in fin.assignments ensures |fin.assignments[nm]| == cfg.maxClasses + (if cfg.lunch then 1 else 0) {
      var k := LastIndex(p, |p|, nm);
      FinishLength(fin.classes[k], k, cfg.lunch);
    }
    forall nm, x | nm in fin.assignments && x in fin.assignments[nm] ensures x == Marker || x in seats0 {
      var k := LastIndex(p, |p|, nm);
      FinishMembers(fin.classes[k], k, cfg.lunch, x);
      if x != Marker {
        FlattenMember(fin.classes, k, x);
      }
    }
  }

  /** assign_classes returns exactly when the table holds max_classes open seats per
      student; otherwise the source never returns. */
  lemma AssignSucceedsIff(students: seq<Student>, order: seq<string>, seats: map<string, int>, maxClasses: int,
                          lunch: bool, draws: nat -> nat)
    requires Wf(order, seats)
    ensures var r := Assign(students, order, seats, maxClasses, lunch, draws);
      && (maxClasses >= 1 ==> (r.Ok? <==> TotalSeats(order, seats) >= |students| * maxClasses))
      && (maxClasses <= 0 ==> r.Ok?)
  {
    var p := ByPriority(students);
    RunSucceedsIff(p, |p|, Config(order, maxClasses, lunch), seats, draws);
  }

  /** The dict assign_classes returns has one key per student name, and a run that
      cannot finish names one of the students. */
  lemma AssignKeys(students: seq<Student>, order: seq<string>, seats: map<string, int>, maxClasses: int,
                   lunch: bool, draws: nat -> nat)
    requires Wf(order, seats)
    ensures var r := Assign(students, order, seats, maxClasses, lunch, draws);
      && (r.Ok? ==> r.value.Keys == Names(students))
      && (r.Err? ==> r.error.student in Names(students) && 0 < r.error.shortfall)
  {
    var p := ByPriority(students);
    NamesByPriority(students);
    RunSeats(p, |p|, Config(order, maxClasses, lunch), seats, draws);
    RunAssignments(p, |p|, Config(order, maxClasses, lunch), seats, draws);
  }

  /** Every schedule assign_classes returns holds max_classes classes plus the lunch slot
      when enabled, and every entry is the lunch slot or a class of the table. */
  lemma AssignSchedules(students: seq<Student>, order: seq<string>, seats: map<string, int>, maxClasses: int,
                        lunch: bool, draws: nat -> nat)
    requires Wf(order, seats) && maxClasses >= 1
    ensures var r := Assign(students, order, seats, maxClasses, lunch, draws);
      r.Ok? ==>
        && (forall nm :: nm in r.value ==> |r.value[nm]| == maxClasses + (if lunch then 1 else 0))
        && (forall nm, x :: nm in r.value && x in r.value[nm] ==> x == Marker || x in seats)
  {
    var p := ByPriority(students);
    var cfg := Config(order, maxClasses, lunch);
    RunSeats(p, |p|, cfg, seats, draws);
    RunAssignments(p, |p|, cfg, seats, draws);
    var run := Run(p, |p|, cfg, seats, draws);
    if run.Ok? {
      FinishedSchedules(p, cfg, seats, run.value);
    }
  }

  /** assign_classes returns a schedule for every student exactly when the table holds
      max_classes open seats per student (otherwise the source never returns); then the
      dict has one key per name, every schedule holds max_classes classes plus the lunch
      slot when enabled, and every entry is the lunch slot or a class of the table. */
  lemma AssignResult(students: seq<Student>, order: seq<string>, seats: map<string, int>, maxClasses: int,
                     lunch: bool, draws: nat -> nat)
    requires Wf(order, seats) && maxClasses >= 1
    ensures var r := Assign(students, order, seats, maxClasses, lunch, draws);
      && (r.Ok? <==> TotalSeats(order, seats) >= |students| * maxClasses)
      && (r.Ok? ==>
            && r.value.Keys == Names(students)
            && (forall nm :: nm in r.value ==> |r.value[nm]| == maxClasses + (if lunch then 1 else 0))
            && (forall nm, x :: nm in r.value && x in r.value[nm] ==> x == Marker || x in seats))
      && (r.Err? ==> r.error.student in Names(students) && 0 < r.error.shortfall)
  {
    AssignSucceedsIff(students, order, seats, maxClasses, lunch, draws);
    AssignKeys(students, order, seats, maxClasses, lunch, draws);
    AssignSchedules(students, order, seats, maxClasses, lunch, draws);
  }

  // ---------------------------------------------------------------------------------
  // Capacity and fairness across students

  /** No class is handed out more often than it had open seats in the caller's table, a
      count that starts non-negative stays non-negative, and the seats a class lost are
      exactly its occurrences across the schedules. */
  lemma SeatsNeverOversold(p: seq<Student>, n: nat, cfg: Config, seats0: map<string, int>, draws: nat -> nat, c: string)
    requires n <= |p| && Wf(cfg.order, seats0) && c in seats0
    ensures var r := Run(p, n, cfg, seats0, draws);
      r.Ok? ==>
        && c in r.value.seats
        && seats0[c] - r.value.seats[c] == multiset(Flatten(r.value.classes))[c]
        && multiset(Flatten(r.value.classes))[c] <= Positive(seats0[c])
        && (seats0[c] >= 0 ==> r.value.seats[c] >= 0)
  {
    RunSeats(p, n, cfg, seats0, draws);
    var r := Run(p, n, cfg, seats0, draws);
    if r.Ok? {
      NeverOversold(seats0, r.value.seats, Flatten(r.value.classes), c);
    }
  }

  /** When the student at serving position i lists first a class with one seat, some
      student up to i holds it. */
  lemma ScarceSeatTaken(p: seq<Student>, i: nat, cfg: Config, seats0: map<string, int>, draws: nat -> nat, c: string)
    requires i < |p| && Wf(cfg.order, seats0) && cfg.maxClasses >= 1
    requires Remaining(seats0, c) == 1 && p[i].preferences != [] && p[i].preferences[0] == c
    requires Run(p, i + 1, cfg, seats0, draws).Ok?
    ensures c in Flatten(Run(p, i + 1, cfg, seats0, draws).value.classes)
  {
    var si := Run(p, i, cfg, seats0, draws).value;
    var one := ScheduleOne(p[i], i, cfg, si.seats, draws, si.used);
    assert Run(p, i + 1, cfg, seats0, draws).value.classes == si.classes + [one.value.classes];
    FlattenSnoc(si.classes, one.value.classes);
    RunSeats(p, i, cfg, seats0, draws);
    NeverOversold(seats0, si.seats, Flatten(si.classes), c);
    if multiset(Flatten(si.classes))[c] == 0 {
      PreferenceFirst(p[i], i, cfg, si.seats, draws, si.used);
      assert c in one.value.classes;
    }
  }

  /** A class with one seat, held in one of the first m class lists, is not in list j >= m. */
  lemma ScarceSeatGone(seats0: map<string, int>, after: map<string, int>, cl: seq<seq<string>>, pre: seq<seq<string>>,
                        m: nat, j: nat, c: string)
    requires m <= j < |cl| && Remaining(seats0, c) == 1 && pre == cl[..j + 1]
    requires Accounts(seats0, after, Flatten(pre)) && c in Flatten(cl[..m])
    ensures c !in cl[j]
  {
    NeverOversold(seats0, after, Flatten(cl[..j + 1]), c);
    assert cl[..j + 1] == cl[..j] + [cl[j]];
    FlattenSnoc(cl[..j], cl[j]);
    FlattenPrefix(cl, m, j);
    var head := Flatten(cl[..j]);
    assert c in head by {
      var k :| 0 <= k < |Flatten(cl[..m])| && Flatten(cl[..m])[k] == c;
      assert head[k] == c;
    }
    assert multiset(Flatten(cl[..j + 1])) == multiset(head) + multiset(cl[j]);
  }

  /** When a class has one seat and the student at serving position i lists it first,
      one of the first i + 1 class lists of a finished run holds it. */
  lemma ScarceSeatHeld(p: seq<Student>, n: nat, cfg: Config, seats0: map<string, int>, draws: nat -> nat,
                       c: string, i: nat)
    requires n <= |p| && Wf(cfg.order, seats0) && cfg.maxClasses >= 1
    requires Remaining(seats0, c) == 1
    requires i < n && p[i].preferences != [] && p[i].preferences[0] == c
    requires Run(p, n, cfg, seats0, draws).Ok?
    ensures var fin := Run(p, n, cfg, seats0, draws).value;
      |fin.classes| == n && c in Flatten(fin.classes[..i + 1])
  {
    RunPrefix(p, i + 1, n, cfg, seats0, draws);
    var pre := Run(p, i + 1, cfg, seats0, draws);
    assert pre.Ok?;
    ScarceSeatTaken(p, i, cfg, seats0, draws, c);
    assert c in Flatten(pre.value.classes);
    var fin := Run(p, n, cfg, seats0, draws);
    assert fin.value.classes[..i + 1] == pre.value.classes;
  }

  /** Students share one table in serving order: when a class has one seat and the
      student at serving position i lists it first, some student up to position i holds
      it, and no student served after i does. */
  lemma ScarceSeatGoesFirst(p: seq<Student>, n: nat, cfg: Config, seats0: map<string, int>, draws: nat -> nat,
                            c: string, i: nat, j: nat)
    requires n <= |p| && Wf(cfg.order, seats0) && cfg.maxClasses >= 1
    requires Remaining(seats0, c) == 1
    requires i < j < n && p[i].preferences != [] && p[i].preferences[0] == c
    requires Run(p, n, cfg, seats0, draws).Ok?
    ensures var fin := Run(p, n, cfg, seats0, draws).value;
      |fin.classes| == n && c in Flatten(fin.classes[..i + 1]) && c !in fin.classes[j]
  {
    ScarceSeatHeld(p, n, cfg, seats0, draws, c, i);
    ScarceSeatLater(p, n, cfg, seats0, draws, c, i + 1, j);
  }

  /** A class with one seat held in one of the first m class lists of a finished run is
      in no later list. */
  lemma ScarceSeatLater(p: seq<Student>, n: nat, cfg: Config, seats0: map<string, int>, draws: nat -> nat,
                        c: string, m: nat, j: nat)
    requires n <= |p| && Wf(cfg.order, seats0) && Remaining(seats0, c) == 1
    requires m <= j < n && Run(p, n, cfg, seats0, draws).Ok?
    requires |Run(p, n, cfg, seats0, draws).value.classes| == n
    requires c in Flatten(Run(p, n, cfg, seats0, draws).value.classes[..m])
    ensures c !in Run(p, n, cfg, seats0, draws).value.classes[j]
  {
    var fin := Run(p, n, cfg, seats0, draws).value;
    RunPrefix(p, j + 1, n, cfg, seats0, draws);
    RunAccounts(p, j + 1, cfg, seats0, draws);
    var sj := Run(p, j + 1, cfg, seats0, draws).value;
    ScarceSeatGone(seats0, sj.seats, fin.classes, sj.classes, m, j, c);
  }

  // ---------------------------------------------------------------------------------
  // The lunch slot

  /** With lunch enabled, "Lunch" lands two places from the end at an even serving rank and
      one place from the end at an odd rank (at the front when the list is shorter), and the
      classes keep their order around it. */
  lemma LunchPlacement(classes: seq<string>, rank: nat)
    ensures var r := WithLunch(classes, rank);
      var pos := if rank % 2 == 0 then Positive(|classes| - 2) else Positive(|classes| - 1);
      && |r| == |classes| + 1
      && r[pos] == Marker
      && r[..pos] == classes[..pos]
      && r[pos + 1..] == classes[pos..]
  {
    var r := WithLunch(classes, rank);
    var pos := if rank % 2 == 0 then Positive(|classes| - 2) else Positive(|classes| - 1);
    assert r[..pos] + r[pos + 1..] == classes;
    assert classes[..pos] == (r[..pos] + r[pos + 1..])[..pos];
    assert classes[pos..] == (r[..pos] + r[pos + 1..])[pos..];
  }

  lemma LunchExamples()
    ensures WithLunch(["a", "b", "c"], 0) == ["a", Marker, "b", "c"]
    ensures WithLunch(["a", "b", "c"], 1) == ["a", "b", Marker, "c"]
    ensures WithLunch(["a"], 0) == [Marker, "a"]
    ensures WithLunch(["a"], 3) == [Marker, "a"]
  {
    LunchPlacement(["a", "b", "c"], 0);
    LunchPlacement(["a", "b", "c"], 1);
    LunchPlacement(["a"], 0);
    LunchPlacement(["a"], 3);
  }

  /** A step without its final schedule. */
  function StepCore(r: Result<Step>): Result<Step>
  {
    match r
    case Ok(t) => Ok(Step(t.classes, [], t.seats, t.used))
    case Err(e) => Err(e)
  }

  /** A run state without its assignments dict. */
  function StateCore(r: Result<State>): Result<State>
  {
    match r
    case Ok(s) => Ok(State(s.classes, map[], s.seats, s.used))
    case Err(e) => Err(e)
  }

  lemma ScheduleOneLunch(st: Student, rank: nat, order: seq<string>, maxClasses: int, seats: map<string, int>,
                         draws: nat -> nat, k: nat)
    ensures StepCore(ScheduleOne(st, rank, Config(order, maxClasses, true), seats, draws, k))
         == StepCore(ScheduleOne(st, rank, Config(order, maxClasses, false), seats, draws, k))
  {
  }

  /** Serving one student with or without the lunch slot leaves the same run apart from the schedules. */
  lemma ServeLunch(a: Result<State>, b: Result<State>, st: Student, rank: nat, order: seq<string>, maxClasses: int,
                   draws: nat -> nat)
    requires StateCore(a) == StateCore(b)
    ensures StateCore(Serve(a, st, rank, Config(order, maxClasses, true), draws))
         == StateCore(Serve(b, st, rank, Config(order, maxClasses, false), draws))
  {
    if a.Ok? {
      assert b.Ok? && b.value.seats == a.value.seats && b.value.used == a.value.used;
      ScheduleOneLunch(st, rank, order, maxClasses, a.value.seats, draws, a.value.used);
    }
  }

  /** The lunch slot takes no seat and no random draw: with or without it, the run
      assigns the same classes, leaves the same table and fails for the same student. */
  lemma {:induction false} LunchConsumesNothing(p: seq<Student>, n: nat, order: seq<string>, maxClasses: int,
                                               seats0: map<string, int>, draws: nat -> nat)
    requires n <= |p|
    ensures StateCore(Run(p, n, Config(order, maxClasses, true), seats0, draws))
         == StateCore(Run(p, n, Config(order, maxClasses, false), seats0, draws))
  {
    if n > 0 {
      LunchConsumesNothing(p, n - 1, order, maxClasses, seats0, draws);
      ServeLunch(Run(p, n - 1, Config(order, maxClasses, true), seats0, draws),
                 Run(p, n - 1, Config(order, maxClasses, false), seats0, draws), p[n - 1], n - 1, order, maxClasses, draws);
    }
  }

  // ---------------------------------------------------------------------------------
  // The backfill loop as written

  /** One pass of the body of `while len(assigned) < max_classes` as written: pick and take
      an open class if there is one, and otherwise do nothing. */
  function BackfillPass(order: seq<string>, seats: map<string, int>, acc: seq<string>, draws: nat -> nat, k: nat)
    : (seq<string>, map<string, int>, nat)
  {
    var avail := Available(order, seats);
    if avail == [] then (acc, seats, k)
    else
      var c := Pick(avail, draws, k);
      (acc + [c], seats[c := seats[c] - 1], k + 1)
  }

  /** Once the table has no open seat while the student still lacks classes, a pass of the
      loop body as written leaves the student's classes, the table and the random source
      where they were, so the loop condition stays true and the source never returns;
      Backfill reports this as Stuck instead. */
  lemma BackfillSpins(order: seq<string>, seats: map<string, int>, acc: seq<string>, maxClasses: int,
                      draws: nat -> nat, k: nat)
    requires Wf(order, seats) && |acc| < maxClasses && TotalSeats(order, seats) == 0
    ensures BackfillPass(order, seats, acc, draws, k) == (acc, seats, k)
    ensures Backfill(order, seats, acc, maxClasses, draws, k) == Stuck(maxClasses - |acc|)
  {
    NoneAvailable(order, seats);
  }

  /** While a class is open, a pass of the loop body as written is one step of Backfill. */
  lemma BackfillPassAgrees(order: seq<string>, seats: map<string, int>, acc: seq<string>, maxClasses: int,
                           draws: nat -> nat, k: nat)
    requires |acc| < maxClasses && Available(order, seats) != []
    ensures var (acc', seats', k') := BackfillPass(order, seats, acc, draws, k);
      |acc'| == |acc| + 1 && Backfill(order, seats, acc, maxClasses, draws, k) == Backfill(order, seats', acc', maxClasses, draws, k')
  {
    BackfillNext(order, seats, acc, maxClasses, draws, k);
  }

  /** One class with no seat left and max_classes = 1: the student with no open preference
      never leaves the backfill loop. */
  lemma BackfillHangExample(draws: nat -> nat)
    ensures BackfillPass(["Art"], map["Art" := 0], [], draws, 0) == ([], map["Art" := 0], 0)
    ensures Backfill(["Art"], map["Art" := 0], [], 1, draws, 0) == Stuck(1)
  {
    assert Available(["Art"], map["Art" := 0]) == [];
  }

  // ---------------------------------------------------------------------------------
  // Examples

  /** The backfill does not skip classes the student already holds: with one class in the
      table, every random draw picks it again. */
  lemma BackfillMayRepeat(draws: nat -> nat)
    ensures Backfill(["Art"], map["Art" := 5], [], 2, draws, 0) == Filled(["Art", "Art"], map["Art" := 3], 2)
  {
    assert Available(["Art"], map["Art" := 5]) == ["Art"];
    assert Available(["Art"], map["Art" := 4]) == ["Art"];
    assert map["Art" := 5]["Art" := 4] == map["Art" := 4];
    assert map["Art" := 4]["Art" := 3] == map["Art" := 3];
  }

  function ExampleA(): Student { Student("A", 10, 2, ["Math"]) }

  function ExampleB(): Student { Student("B", 10, 1, ["Math"]) }

  /** Two students of equal grade: the earlier submission is served first. */
  lemma ExampleServingOrder()
    ensures ByPriority([ExampleA(), ExampleB()]) == [ExampleB(), ExampleA()]
  {
    var s := [ExampleA(), ExampleB()];
    assert SortIndices(s, 1) == [0];
    assert Order(s) == [1, 0];
  }
}
