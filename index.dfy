/**
 * The prioritized index: the tasks and subtasks that have a start time, kept
 * in the order of the store's comparator. The index is a set under that
 * comparator, so adding an element the comparator calls equal to a present
 * one changes nothing, and removing drops the element it calls equal.
 */
module PriorityIndex {
  import opened Wrappers
  import opened Model

  /** The comparator: start time ascending, an item without a start after
      any item with one, ties broken by id (only the sign matters). */
  function Compare(t1: Task, t2: Task): int {
    if t1.startTime.None? && t2.startTime.None? then t1.id - t2.id
    else if t1.startTime.None? then 1
    else if t2.startTime.None? then -1
    else if t1.startTime.value == t2.startTime.value then t1.id - t2.id
    else if t1.startTime.value < t2.startTime.value then -1
    else 1
  }

  /** What the comparator looks at. */
  function Key(t: Task): (Option<int>, int) {
    (t.startTime, t.id)
  }

  /** The comparator is a strict total order on keys, as a sorted set needs. */
  lemma CompareIsOrder(a: Task, b: Task, c: Task)
    ensures Compare(a, b) == 0 <==> Key(a) == Key(b)
    ensures Compare(a, b) < 0 <==> Compare(b, a) > 0
    ensures Compare(a, b) < 0 && Compare(b, c) < 0 ==> Compare(a, c) < 0
  {
  }

  /** Strictly increasing under the comparator. */
  predicate Sorted(p: seq<Task>) {
    forall i, j :: 0 <= i < j < |p| ==> Compare(p[i], p[j]) < 0
  }

  /** Every element has a start time. */
  predicate Scheduled(p: seq<Task>) {
    forall i :: 0 <= i < |p| ==> p[i].startTime.Some?
  }

  /** Some element has the same key as `t`. */
  predicate HasKey(p: seq<Task>, t: Task) {
    exists i :: 0 <= i < |p| && Key(p[i]) == Key(t)
  }

  /** `TreeSet.add`: inserts `t` at its place, or leaves the set as it is
      when an element with the same key is present. */
  function Insert(p: seq<Task>, t: Task): seq<Task> {
    if |p| == 0 then [t]
    else if Compare(t, p[0]) < 0 then [t] + p
    else if Compare(t, p[0]) == 0 then p
    else [p[0]] + Insert(p[1..], t)
  }

  /** Drops every element whose key is in `ks`. */
  function FilterKeys(p: seq<Task>, ks: set<(Option<int>, int)>): seq<Task> {
    if |p| == 0 then []
    else if Key(p[0]) in ks then FilterKeys(p[1..], ks)
    else [p[0]] + FilterKeys(p[1..], ks)
  }

  /** `TreeSet.remove`: drops the element the comparator calls equal to `t`. */
  function Remove(p: seq<Task>, t: Task): seq<Task> {
    FilterKeys(p, {Key(t)})
  }

  lemma SortedCons(x: Task, q: seq<Task>)
    requires Sorted(q)
    requires forall y :: y in q ==> Compare(x, y) < 0
    ensures Sorted([x] + q)
  {
    var r := [x] + q;
    forall i, j | 0 <= i < j < |r| ensures Compare(r[i], r[j]) < 0 {
      if i == 0 {
        assert r[j] == q[j - 1] && q[j - 1] in q;
      } else {
        assert r[i] == q[i - 1] && r[j] == q[j - 1];
      }
    }
  }

  lemma SortedTail(p: seq<Task>)
    requires Sorted(p) && |p| > 0
    ensures Sorted(p[1..])
    ensures forall y :: y in p[1..] ==> Compare(p[0], y) < 0
  {
    forall y | y in p[1..] ensures Compare(p[0], y) < 0 {
      var j :| 0 <= j < |p[1..]| && p[1..][j] == y;
      assert p[j + 1] == y;
    }
  }

  lemma HasKeyTail(p: seq<Task>, t: Task)
    requires |p| > 0 && Key(p[0]) != Key(t)
    ensures HasKey(p, t) <==> HasKey(p[1..], t)
  {
    if HasKey(p, t) {
      var i :| 0 <= i < |p| && Key(p[i]) == Key(t);
      assert Key(p[1..][i - 1]) == Key(t);
    }
    if HasKey(p[1..], t) {
      var i :| 0 <= i < |p[1..]| && Key(p[1..][i]) == Key(t);
      assert Key(p[i + 1]) == Key(t);
    }
  }

  /** Adding an element whose key is present changes nothing; otherwise the
      result holds exactly the old elements and `t`. */
  lemma {:induction false} InsertMembers(p: seq<Task>, t: Task)
    requires Sorted(p)
    ensures HasKey(p, t) ==> Insert(p, t) == p
    ensures !HasKey(p, t) ==> forall x :: x in Insert(p, t) <==> x in p || x == t
  {
    if |p| == 0 {
    } else if Compare(t, p[0]) < 0 {
      forall i | 0 <= i < |p| ensures Key(p[i]) != Key(t) {
        CompareIsOrder(t, p[i], t);
        if i > 0 { CompareIsOrder(t, p[0], p[i]); }
      }
    } else if Compare(t, p[0]) == 0 {
      CompareIsOrder(t, p[0], t);
      assert Key(p[0]) == Key(t);
    } else {
      SortedTail(p);
      CompareIsOrder(t, p[0], t);
      HasKeyTail(p, t);
      InsertMembers(p[1..], t);
      assert p == [p[0]] + p[1..];
    }
  }

  /** Adding to a sorted index keeps it sorted. */
  lemma {:induction false} InsertSorted(p: seq<Task>, t: Task)
    requires Sorted(p)
    ensures Sorted(Insert(p, t))
  {
    if |p| == 0 {
    } else if Compare(t, p[0]) < 0 {
      forall y | y in p ensures Compare(t, y) < 0 {
        var j :| 0 <= j < |p| && p[j] == y;
        if j > 0 { CompareIsOrder(t, p[0], y); }
      }
      SortedCons(t, p);
    } else if Compare(t, p[0]) == 0 {
    } else {
      SortedTail(p);
      InsertSorted(p[1..], t);
      InsertMembers(p[1..], t);
      CompareIsOrder(p[0], t, t);
      var r := Insert(p[1..], t);
      forall y | y in r ensures Compare(p[0], y) < 0 {
        if y != t { assert y in p[1..]; }
      }
      SortedCons(p[0], r);
    }
  }

  /** Adding an item with a start time keeps every element scheduled. */
  lemma {:induction false} InsertScheduled(p: seq<Task>, t: Task)
    requires Scheduled(p) && t.startTime.Some?
    ensures Scheduled(Insert(p, t))
    ensures forall x :: x in Insert(p, t) ==> x in p || x == t
  {
    if |p| > 0 && Compare(t, p[0]) > 0 {
      InsertScheduled(p[1..], t);
      assert p == [p[0]] + p[1..];
      forall i | 0 <= i < |Insert(p, t)| ensures Insert(p, t)[i].startTime.Some? {
        if i > 0 { assert Insert(p, t)[i] == Insert(p[1..], t)[i - 1]; }
      }
    }
  }

  /** Filtering keeps exactly the elements whose key is not listed, keeps
      the order, and filtering twice is filtering once by both key sets. */
  lemma {:induction false} FilterKeysSpec(p: seq<Task>, ks: set<(Option<int>, int)>)
    ensures forall x :: x in FilterKeys(p, ks) <==> x in p && Key(x) !in ks
    ensures Sorted(p) ==> Sorted(FilterKeys(p, ks))
    ensures Scheduled(p) ==> Scheduled(FilterKeys(p, ks))
  {
    if |p| > 0 {
      FilterKeysSpec(p[1..], ks);
      assert p == [p[0]] + p[1..];
      var r := FilterKeys(p[1..], ks);
      if Sorted(p) {
        SortedTail(p);
        if Key(p[0]) !in ks {
          SortedCons(p[0], r);
        }
      }
      if Scheduled(p) && Key(p[0]) !in ks {
        forall i | 0 <= i < |[p[0]] + r| ensures ([p[0]] + r)[i].startTime.Some? {
          if i > 0 {
            assert ([p[0]] + r)[i] in r;
            var j :| 0 <= j < |p| && p[j] == ([p[0]] + r)[i];
          }
        }
      }
      if Scheduled(p) && Key(p[0]) in ks {
        assert Scheduled(p[1..]) by {
          forall i | 0 <= i < |p[1..]| ensures p[1..][i].startTime.Some? {
            assert p[1..][i] == p[i + 1];
          }
        }
      }
    }
  }

  lemma {:induction false} FilterKeysTwice(p: seq<Task>, a: set<(Option<int>, int)>, b: set<(Option<int>, int)>)
    ensures FilterKeys(FilterKeys(p, a), b) == FilterKeys(p, a + b)
  {
    if |p| > 0 {
      FilterKeysTwice(p[1..], a, b);
    }
  }

  /** Removing a key that is not present changes nothing. */
  lemma {:induction false} FilterKeysAbsent(p: seq<Task>, ks: set<(Option<int>, int)>)
    requires forall i :: 0 <= i < |p| ==> Key(p[i]) !in ks
    ensures FilterKeys(p, ks) == p
  {
    if |p| > 0 {
      assert forall i :: 1 <= i < |p| ==> p[1..][i - 1] == p[i];
      FilterKeysAbsent(p[1..], ks);
      assert p == [p[0]] + p[1..];
    }
  }
}
