/** The order in which assign_classes serves students: sorted by grade (descending),
    then by timestamp (ascending), with Python's stable sort keeping the input order
    of students whose (grade, timestamp) keys are equal. */
module Ordering {

  /** One parsed student record: the dict with keys name, grade, timestamp and preferences. */
  datatype Student = Student(name: string, grade: int, timestamp: int, preferences: seq<string>)

  /** The sort key (-grade, timestamp) of a is strictly below that of b. */
  predicate Precedes(a: Student, b: Student)
  {
    a.grade > b.grade || (a.grade == b.grade && a.timestamp < b.timestamp)
  }

  /** a and b have the same sort key. */
  predicate SameKey(a: Student, b: Student)
  {
    a.grade == b.grade && a.timestamp == b.timestamp
  }

  /** A stable sort places input position x before input position y. */
  predicate Before(s: seq<Student>, x: nat, y: nat)
    requires x < |s| && y < |s|
  {
    Precedes(s[x], s[y]) || (SameKey(s[x], s[y]) && x < y)
  }

  /** Every entry of r is a position of s. */
  predicate InRange(s: seq<Student>, r: seq<nat>)
  {
    forall k :: 0 <= k < |r| ==> r[k] < |s|
  }

  /** The positions r are listed in stable-sort order. */
  predicate Sorted(s: seq<Student>, r: seq<nat>)
    requires InRange(s, r)
  {
    forall a, b :: 0 <= a < b < |r| ==> Before(s, r[a], r[b])
  }

  /** Inserts position x into the sorted positions r. */
  function Insert(s: seq<Student>, r: seq<nat>, x: nat): (t: seq<nat>)
    requires x < |s| && InRange(s, r)
    ensures InRange(s, t)
    ensures multiset(t) == multiset(r) + multiset{x}
  {
    if r == [] then [x]
    else if Before(s, x, r[0]) then [x] + r
    else
      assert r == [r[0]] + r[1..];
      [r[0]] + Insert(s, r[1..], x)
  }

  lemma BeforeTransitive(s: seq<Student>, x: nat, y: nat, z: nat)
    requires x < |s| && y < |s| && z < |s|
    requires Before(s, x, y) && Before(s, y, z)
    ensures Before(s, x, z)
  {
  }

  lemma BeforeTotal(s: seq<Student>, x: nat, y: nat)
    requires x < |s| && y < |s| && x != y
    ensures Before(s, x, y) || Before(s, y, x)
    ensures !(Before(s, x, y) && Before(s, y, x))
  {
  }

  /** Every entry of Insert(s, r, x) is x or an entry of r. */
  lemma InsertMember(s: seq<Student>, r: seq<nat>, x: nat, k: nat)
    requires x < |s| && InRange(s, r) && k < |Insert(s, r, x)|
    ensures Insert(s, r, x)[k] == x || Insert(s, r, x)[k] in r
  {
    var t := Insert(s, r, x);
    assert t[k] in multiset(t);
  }

  /** A position before every entry of sorted r and before x stays before all of Insert(s, r, x). */
  lemma InsertBelow(s: seq<Student>, r: seq<nat>, x: nat, y: nat)
    requires x < |s| && y < |s| && InRange(s, r) && Before(s, y, x)
    requires forall k :: 0 <= k < |r| ==> Before(s, y, r[k])
    ensures forall k :: 0 <= k < |Insert(s, r, x)| ==> Before(s, y, Insert(s, r, x)[k])
  {
    var t := Insert(s, r, x);
    forall k | 0 <= k < |t| ensures Before(s, y, t[k]) {
      InsertMember(s, r, x, k);
      if t[k] != x {
        var j :| 0 <= j < |r| && r[j] == t[k];
      }
    }
  }

  /** A sequence is sorted when its head is before every later entry and its tail is sorted. */
  lemma SortedCons(s: seq<Student>, y: nat, u: seq<nat>)
    requires y < |s| && InRange(s, u) && Sorted(s, u)
    requires forall k :: 0 <= k < |u| ==> Before(s, y, u[k])
    ensures InRange(s, [y] + u) && Sorted(s, [y] + u)
  {
    var t := [y] + u;
    forall a, b | 0 <= a < b < |t| ensures Before(s, t[a], t[b]) {
      if a > 0 {
        assert t[a] == u[a - 1] && t[b] == u[b - 1];
      } else {
        assert t[b] == u[b - 1];
      }
    }
  }

  /** Insertion keeps the positions sorted. */
  lemma {:induction false} InsertSorted(s: seq<Student>, r: seq<nat>, x: nat)
    requires x < |s| && InRange(s, r) && Sorted(s, r) && x !in r
    ensures Sorted(s, Insert(s, r, x))
  {
    if r == [] {
    } else if Before(s, x, r[0]) {
      forall k | 0 <= k < |r| ensures Before(s, x, r[k]) {
        if k > 0 {
          BeforeTransitive(s, x, r[0], r[k]);
        }
      }
      SortedCons(s, x, r);
    } else {
      var tail := r[1..];
      assert forall a, b :: 0 <= a < b < |tail| ==> tail[a] == r[a + 1] && tail[b] == r[b + 1];
      InsertSorted(s, tail, x);
      BeforeTotal(s, x, r[0]);
      assert forall k :: 0 <= k < |tail| ==> Before(s, r[0], tail[k]) by {
        forall k | 0 <= k < |tail| ensures Before(s, r[0], tail[k]) {
          assert tail[k] == r[k + 1];
        }
      }
      InsertBelow(s, tail, x, r[0]);
      SortedCons(s, r[0], Insert(s, tail, x));
    }
  }

  /** The first n positions of s, in stable-sort order. */
  function SortIndices(s: seq<Student>, n: nat): (r: seq<nat>)
    requires n <= |s|
    ensures InRange(s, r) && |r| == n
    ensures forall i: nat :: i in r <==> i < n
    ensures Sorted(s, r)
  {
    if n == 0 then []
    else
      var last: nat := n - 1;
      var prev := SortIndices(s, last);
      var r := Insert(s, prev, last);
      InsertSorted(s, prev, last);
      assert forall i: nat :: i in r <==> i in prev || i == last by {
        forall i: nat ensures i in r <==> i in prev || i == last {
          calc {
            i in r;
            i in multiset(r);
            i in multiset(prev) + multiset{last};
            i in prev || i == last;
          }
        }
      }
      r
  }

  /** The permutation applied by sorted(students, key=lambda x: (-x['grade'], x['timestamp'])):
      entry k is the input position of the student served k-th. */
  function Order(s: seq<Student>): seq<nat>
  {
    SortIndices(s, |s|)
  }

  /** The students in the order in which assign_classes serves them. */
  function ByPriority(s: seq<Student>): (p: seq<Student>)
    ensures |p| == |s|
  {
    var r := Order(s);
    seq(|s|, k requires 0 <= k < |s| => s[r[k]])
  }
  /** Students are served by grade descending, then by timestamp ascending, and
      students with equal keys in their input order; the order is a permutation. */
  lemma ProcessingOrder(s: seq<Student>)
    ensures |Order(s)| == |s|
    ensures forall k :: 0 <= k < |s| ==> Order(s)[k] < |s| && ByPriority(s)[k] == s[Order(s)[k]]
    ensures forall i: nat :: i < |s| ==> i in Order(s)
    ensures forall a, b :: 0 <= a < b < |s| ==>
      Precedes(ByPriority(s)[a], ByPriority(s)[b]) ||
      (SameKey(ByPriority(s)[a], ByPriority(s)[b]) && Order(s)[a] < Order(s)[b])
  {
    var r := Order(s);
    forall a, b | 0 <= a < b < |s|
      ensures Precedes(ByPriority(s)[a], ByPriority(s)[b]) ||
              (SameKey(ByPriority(s)[a], ByPriority(s)[b]) && r[a] < r[b])
    {
      assert Before(s, r[a], r[b]);
    }
  }

  /** If input position x ranks before input position y (higher grade, or the same grade
      and an earlier timestamp, or the same key and earlier in the input), x is served first. */
  lemma ServedFirst(s: seq<Student>, x: nat, y: nat)
    requires x < |s| && y < |s| && Before(s, x, y)
    ensures forall a, b :: 0 <= a < |s| && 0 <= b < |s| && Order(s)[a] == x && Order(s)[b] == y ==> a < b
  {
    var r := Order(s);
    forall a, b | 0 <= a < |s| && 0 <= b < |s| && r[a] == x && r[b] == y ensures a < b {
      if b < a {
        assert Before(s, y, x);
        BeforeTotal(s, x, y);
      }
    }
  }

  /** Two sorted position lists with the same entries are equal. */
  lemma {:induction false} SortedUnique(s: seq<Student>, t1: seq<nat>, t2: seq<nat>)
    requires InRange(s, t1) && InRange(s, t2) && Sorted(s, t1) && Sorted(s, t2)
    requires |t1| == |t2| && forall i: nat :: i in t1 <==> i in t2
    ensures t1 == t2
  {
    if t1 != [] {
      assert t1[0] in t1;
      assert t2 != [];
      assert t2[0] in t2;
      if t1[0] != t2[0] {
        var b :| 0 <= b < |t2| && t2[b] == t1[0];
        var a :| 0 <= a < |t1| && t1[a] == t2[0];
        assert Before(s, t2[0], t1[0]);
        assert Before(s, t1[0], t2[0]);
        BeforeTotal(s, t1[0], t2[0]);
      }
      forall i: nat ensures i in t1[1..] <==> i in t2[1..] {
        TailMembers(s, t1, i);
        TailMembers(s, t2, i);
      }
      SortedUnique(s, t1[1..], t2[1..]);
      assert t1 == [t1[0]] + t1[1..];
      assert t2 == [t2[0]] + t2[1..];
    }
  }

  lemma TailMembers(s: seq<Student>, t: seq<nat>, i: nat)
    requires InRange(s, t) && Sorted(s, t) && t != []
    ensures i in t[1..] <==> i in t && i != t[0]
  {
    if i in t[1..] {
      var k :| 0 <= k < |t[1..]| && t[1..][k] == i;
      assert Before(s, t[0], t[k + 1]);
    }
    if i in t && i != t[0] {
      var k :| 0 <= k < |t| && t[k] == i;
      assert t[1..][k - 1] == i;
    }
  }

  /** Any stable sort on the key (-grade, timestamp) yields Order: a permutation of the
      positions, sorted with input order breaking ties, is unique. */
  lemma {:induction false} StableSortIsUnique(s: seq<Student>, t: seq<nat>)
    requires InRange(s, t) && Sorted(s, t) && |t| == |s|
    requires forall i: nat :: i in t <==> i < |s|
    ensures t == Order(s)
  {
    SortedUnique(s, t, Order(s));
  }
}
