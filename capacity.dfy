/** The class-capacity table of assign_classes: a Python dict from class name to the
    number of seats still open. A dict keeps its keys in insertion order, and that order
    is the order in which the backfill phase lists the open classes. */
module Capacity {

  /** dict.get(c, 0): the open seats of class c, 0 for a name that is not a key. */
  function Remaining(seats: map<string, int>, c: string): int
  {
    if c in seats then seats[c] else 0
  }

  predicate Distinct(s: seq<string>)
  {
    forall a, b :: 0 <= a < b < |s| ==> s[a] != s[b]
  }

  /** A dict: its keys, each once, in insertion order, and their values. */
  predicate Wf(order: seq<string>, seats: map<string, int>)
  {
    && Distinct(order)
    && (forall c :: c in seats ==> c in order)
    && (forall c :: c in order ==> c in seats)
  }

  /** [cls for cls, cap in seats.items() if cap > 0]: the classes with an open seat, in key order. */
  function Available(order: seq<string>, seats: map<string, int>): (r: seq<string>)
    ensures forall c :: c in r <==> c in order && Remaining(seats, c) > 0
    ensures |r| <= |order|
  {
    if order == [] then []
    else (if Remaining(seats, order[0]) > 0 then [order[0]] else []) + Available(order[1..], seats)
  }

  /** Each open class is listed once: the keys of a dict are distinct. */
  lemma {:induction false} AvailableDistinct(order: seq<string>, seats: map<string, int>)
    requires Distinct(order)
    ensures Distinct(Available(order, seats))
  {
    if order != [] {
      var tail := order[1..];
      assert Distinct(tail) by {
        forall a, b | 0 <= a < b < |tail| ensures tail[a] != tail[b] {
          assert tail[a] == order[a + 1] && tail[b] == order[b + 1];
        }
      }
      assert order[0] !in tail by {
        forall k | 0 <= k < |tail| ensures tail[k] != order[0] {
          assert tail[k] == order[k + 1];
        }
      }
      AvailableDistinct(tail, seats);
      var rest := Available(tail, seats);
      var r := Available(order, seats);
      if Remaining(seats, order[0]) > 0 {
        assert r == [order[0]] + rest;
        forall a, b | 0 <= a < b < |r| ensures r[a] != r[b] {
          assert r[b] == rest[b - 1];
          if a > 0 {
            assert r[a] == rest[a - 1];
          }
        }
      }
    }
  }

  /** The open classes of a key order split in two are those of the first part followed by
      those of the second: the list keeps the dict's key order. */
  lemma {:induction false} AvailableConcat(o1: seq<string>, o2: seq<string>, seats: map<string, int>)
    ensures Available(o1 + o2, seats) == Available(o1, seats) + Available(o2, seats)
  {
    if o1 == [] {
      assert o1 + o2 == o2;
    } else {
      var head := if Remaining(seats, o1[0]) > 0 then [o1[0]] else [];
      assert (o1 + o2)[1..] == o1[1..] + o2;
      AvailableConcat(o1[1..], o2, seats);
      ConcatAssoc(head, Available(o1[1..], seats), Available(o2, seats));
    }
  }

  lemma ConcatAssoc(a: seq<string>, b: seq<string>, c: seq<string>)
    ensures a + (b + c) == (a + b) + c
  {
  }

  /** A single key is listed exactly when it has an open seat. */
  lemma AvailableOne(c: string, seats: map<string, int>)
    ensures Available([c], seats) == if Remaining(seats, c) > 0 then [c] else []
  {
    assert [c][1..] == [];
  }

  function Positive(x: int): nat
  {
    if x > 0 then x else 0
  }

  /** The open seats of the whole table (a negative count opens none). */
  function TotalSeats(order: seq<string>, seats: map<string, int>): nat
  {
    if order == [] then 0 else Positive(Remaining(seats, order[0])) + TotalSeats(order[1..], seats)
  }

  /** Changing the count of one class changes the total by the change of its open seats. */
  lemma {:induction false} TotalSeatsUpdate(order: seq<string>, seats: map<string, int>, c: string, v: int)
    requires Distinct(order)
    ensures TotalSeats(order, seats[c := v]) ==
            TotalSeats(order, seats) + (if c in order then Positive(v) - Positive(Remaining(seats, c)) else 0)
  {
    if order != [] {
      assert Distinct(order[1..]);
      TotalSeatsUpdate(order[1..], seats, c, v);
      if order[0] == c {
        assert c !in order[1..];
      }
      assert c in order <==> order[0] == c || c in order[1..];
    }
  }

  /** Taking one seat of an open class lowers the total by one. */
  lemma TakeSeat(order: seq<string>, seats: map<string, int>, c: string)
    requires Wf(order, seats) && Remaining(seats, c) > 0
    ensures c in seats && Wf(order, seats[c := seats[c] - 1])
    ensures TotalSeats(order, seats[c := seats[c] - 1]) == TotalSeats(order, seats) - 1
  {
    TotalSeatsUpdate(order, seats, c, seats[c] - 1);
  }

  /** No class is open exactly when the table has no open seat. */
  lemma {:induction false} NoneAvailable(order: seq<string>, seats: map<string, int>)
    ensures Available(order, seats) == [] <==> TotalSeats(order, seats) == 0
  {
    if order != [] {
      NoneAvailable(order[1..], seats);
    }
  }

  /** after is before with one seat less of each entry of taken: every taken entry is a key,
      and a count moves only while it is positive, so it never drops below zero. */
  predicate Accounts(before: map<string, int>, after: map<string, int>, taken: seq<string>)
  {
    && after.Keys == before.Keys
    && (forall c :: c in taken ==> c in before)
    && (forall c :: c in before ==>
          before[c] - after[c] == multiset(taken)[c] && (after[c] >= 0 || after[c] == before[c]))
  }

  lemma AccountsNone(seats: map<string, int>)
    ensures Accounts(seats, seats, [])
  {
  }

  lemma AccountsTake(seats: map<string, int>, c: string)
    requires Remaining(seats, c) > 0
    ensures c in seats && Accounts(seats, seats[c := seats[c] - 1], [c])
  {
  }

  lemma AccountsChain(a: map<string, int>, b: map<string, int>, c: map<string, int>, t1: seq<string>, t2: seq<string>)
    requires Accounts(a, b, t1) && Accounts(b, c, t2)
    ensures Accounts(a, c, t1 + t2)
  {
    forall k | k in a ensures a[k] - c[k] == multiset(t1 + t2)[k] {
      assert multiset(t1 + t2) == multiset(t1) + multiset(t2);
    }
  }

  /** Taking one seat of open class c, then the seats in rest, takes [c] + rest. */
  lemma AccountsPrepend(seats: map<string, int>, c: string, after: map<string, int>, rest: seq<string>)
    requires Remaining(seats, c) > 0 && Accounts(seats[c := seats[c] - 1], after, rest)
    ensures Accounts(seats, after, [c] + rest)
  {
    AccountsTake(seats, c);
    AccountsChain(seats, seats[c := seats[c] - 1], after, [c], rest);
  }

  /** No class is taken more often than it had open seats. */
  lemma NeverOversold(before: map<string, int>, after: map<string, int>, taken: seq<string>, c: string)
    requires Accounts(before, after, taken) && c in before
    ensures multiset(taken)[c] <= Positive(before[c])
    ensures before[c] >= 0 ==> after[c] >= 0
  {
  }

  /** A Python dict of class capacities, as passed to assign_classes and as copied by it. */
  class CapacityTable {
    var order: seq<string>
    var seats: map<string, int>

    ghost predicate Valid()
      reads this
    {
      Wf(order, seats)
    }

    constructor (order: seq<string>, seats: map<string, int>)
      requires Wf(order, seats)
      ensures Valid() && this.order == order && this.seats == seats
    {
      this.order := order;
      this.seats := seats;
    }

    /** class_capacities.copy(): a new dict with the same keys, order and counts. */
    method Copy() returns (t: CapacityTable)
      requires Valid()
      ensures fresh(t) && t.Valid() && t.order == order && t.seats == seats
    {
      t := new CapacityTable(order, seats);
    }

    /** seats[c] -= 1 on a key c. */
    method Decrement(c: string)
      requires Valid() && c in seats
      modifies this
      ensures Valid() && order == old(order) && seats == old(seats)[c := old(seats)[c] - 1]
    {
      seats := seats[c := seats[c] - 1];
    }
  }
}
