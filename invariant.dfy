/**
 * The store's invariant, and which operations keep it. Where an operation
 * keeps it only for some arguments, the lemma names that condition.
 */
module StoreInvariant {
  import opened Wrappers
  import opened Model
  import EpicModel
  import opened PriorityIndex
  import opened History
  import opened TaskStore

  /** Every value is stored under its own id. */
  ghost predicate KeysAreIds(s: Store) {
    && (forall k :: k in s.tasks ==> s.tasks[k].id == k)
    && (forall k :: k in s.epics ==> s.epics[k].id == k)
    && (forall k :: k in s.subtasks ==> s.subtasks[k].id == k)
  }

  /** The counter is above every id handed out so far. */
  ghost predicate FreshIds(s: Store) {
    && 1 <= s.currentId
    && (forall k :: k in s.tasks ==> k < s.currentId)
    && (forall k :: k in s.epics ==> k < s.currentId)
    && (forall k :: k in s.subtasks ==> k < s.currentId)
  }

  /** One counter serves all three maps, so no id is in two of them. */
  ghost predicate Disjoint(s: Store) {
    && (forall k :: k in s.tasks ==> k !in s.epics && k !in s.subtasks)
    && (forall k :: k in s.epics ==> k !in s.subtasks)
  }

  /** The task map holds plain tasks. */
  ghost predicate TasksArePlain(s: Store) {
    forall k :: k in s.tasks ==> s.tasks[k].Task?
  }

  /** Each epic's list holds, without repeats, stored subtasks naming it. */
  ghost predicate ListsStored(s: Store)
    requires Wellformed(s)
  {
    forall x :: x in s.epics ==>
      && DistinctIds(s.epics[x].subtasks)
      && (forall i :: 0 <= i < |s.epics[x].subtasks| ==>
            var st := s.epics[x].subtasks[i];
            st.id in s.subtasks && s.subtasks[st.id] == st && st.epicId == x)
  }

  /** Each stored subtask names a stored epic, and is on that epic's list. */
  ghost predicate SubtasksListed(s: Store)
    requires Wellformed(s)
  {
    forall k :: k in s.subtasks ==>
      s.subtasks[k].epicId in s.epics && HasId(s.epics[s.subtasks[k].epicId].subtasks, k)
  }

  /** An epic is as constructed (nothing recomputed yet) or derived from its list. */
  ghost predicate EpicsDerived(s: Store)
    requires Wellformed(s)
  {
    forall x :: x in s.epics ==>
      EpicModel.Derived(s.epics[x]) || s.epics[x] == NewEpic(s.epics[x].id, s.epics[x].name, s.epics[x].description)
  }

  /** `x` is the task or subtask stored under its id. */
  predicate Stored(s: Store, x: Task) {
    (x.id in s.tasks && s.tasks[x.id] == x) || (x.id in s.subtasks && s.subtasks[x.id] == x)
  }

  /** The index is in comparator order and holds exactly the stored tasks
      and subtasks that have a start time. */
  ghost predicate IndexExact(s: Store) {
    && Sorted(s.prioritized)
    && Scheduled(s.prioritized)
    && (forall x :: x in s.prioritized <==> x.startTime.Some? && Stored(s, x))
  }

  /** No two indexed items overlap. */
  ghost predicate NoOverlap(p: seq<Task>) {
    forall x, y :: x in p && y in p && x != y ==> !Overlaps(x, y)
  }

  /** The history has one entry per id, each for a stored item. */
  ghost predicate HistoryLive(s: Store) {
    && DistinctIds(s.history)
    && (forall i :: 0 <= i < |s.history| ==>
          s.history[i].id in s.tasks || s.history[i].id in s.epics || s.history[i].id in s.subtasks)
  }

  ghost predicate Inv(s: Store) {
    && Wellformed(s)
    && KeysAreIds(s)
    && FreshIds(s)
    && Disjoint(s)
    && TasksArePlain(s)
    && ListsStored(s)
    && SubtasksListed(s)
    && EpicsDerived(s)
    && IndexExact(s)
    && NoOverlap(s.prioritized)
    && HistoryLive(s)
  }

  // ------------------------------------------------------------- helpers

  /** Overlap is symmetric. */
  lemma OverlapsSymmetric(a: Task, b: Task)
    ensures Overlaps(a, b) <==> Overlaps(b, a)
  {
  }

  /** Under the invariant each indexed item is stored, so its id is below the counter. */
  lemma IndexedIdsBelowCounter(s: Store)
    requires Wellformed(s) && FreshIds(s) && TasksArePlain(s) && IndexExact(s)
    ensures forall x :: x in s.prioritized ==> x.id < s.currentId && !x.Epic?
  {
    forall x | x in s.prioritized ensures x.id < s.currentId && !x.Epic? {
      assert Stored(s, x);
    }
  }

  /** Adding an item `n` whose id no stored task or subtask has (a fresh id,
      say) to the index, when nothing indexed with another id overlaps it,
      keeps the index exact and overlap-free. */
  lemma IndexAdd(s: Store, r: Store, n: Task)
    requires Wellformed(s) && FreshIds(s) && TasksArePlain(s) && IndexExact(s) && NoOverlap(s.prioritized)
    requires (n.id == s.currentId || (n.id !in s.tasks && n.id !in s.subtasks)) && !n.Epic?
    requires !IsTaskOverlapping(s.prioritized, n)
    requires r.prioritized == if n.startTime.Some? then Insert(s.prioritized, n) else s.prioritized
    requires forall x :: Stored(r, x) <==> Stored(s, x) || x == n
    ensures IndexExact(r) && NoOverlap(r.prioritized)
  {
    var p := s.prioritized;
    IndexedIdsBelowCounter(s);
    forall x | x in p ensures x.id != n.id {
      assert Stored(s, x);
    }
    if n.startTime.Some? {
      assert !HasKey(p, n) by {
        forall i | 0 <= i < |p| ensures Key(p[i]) != Key(n) {
          assert p[i] in p;
        }
      }
      InsertMembers(p, n);
      InsertSorted(p, n);
      InsertScheduled(p, n);
      forall x, y | x in r.prioritized && y in r.prioritized && x != y ensures !Overlaps(x, y) {
        if x == n {
          assert y in p && y.id != n.id;
          OverlapsSymmetric(x, y);
        } else if y == n {
          assert x in p && x.id != n.id;
        }
      }
    } else {
      forall x ensures x in r.prioritized <==> x.startTime.Some? && Stored(r, x) {
        if x == n { assert x !in p; }
      }
    }
  }

  // ------------------------------------------------------------- empty

  /** A new manager satisfies the invariant and hands out id 1 first. */
  lemma EmptyInv()
    ensures Inv(Empty())
    ensures Empty().currentId == 1
  {
  }

  // ------------------------------------------------------------- adding

  /** `addTask` keeps the invariant when the task is a plain task that no
      indexed item carrying its caller-side id overlaps (the overlap check
      skips items with that id, and the stored task gets a fresh id). */
  lemma AddTaskInv(s: Store, t: Task)
    requires Inv(s) && t.Task?
    requires forall x :: x in s.prioritized && x.id == t.id ==> !Overlaps(x, t)
    ensures Inv(AddTask(s, t).next)
  {
    if !IsTaskOverlapping(s.prioritized, t) {
      var r := AddTask(s, t).next;
      var n := WithId(t, s.currentId);
      assert !IsTaskOverlapping(s.prioritized, n) by {
        forall i | 0 <= i < |s.prioritized| ensures !Overlaps(s.prioritized[i], n) {
          assert s.prioritized[i] in s.prioritized;
        }
      }
      forall x ensures Stored(r, x) <==> Stored(s, x) || x == n {
        if Stored(s, x) { assert x.id != s.currentId; }
      }
      IndexAdd(s, r, n);
      assert HistoryLive(r);
    }
  }

  /** The overlap test passes over indexed items carrying the caller-side id,
      and `addTask` only afterwards gives the task its fresh id: a task with
      the id of an indexed item it overlaps is let in, and the index then
      holds two overlapping items. */
  lemma AddTaskSameIdOverlap(s: Store, t: Task, x: Task)
    requires Inv(s) && t.Task? && !IsTaskOverlapping(s.prioritized, t)
    requires x in s.prioritized && x.id == t.id && Overlaps(x, t)
    ensures AddTask(s, t).result == Ok(s.currentId)
    ensures !NoOverlap(AddTask(s, t).next.prioritized)
  {
    var n := WithId(t, s.currentId);
    IndexedIdsBelowCounter(s);
    assert !HasKey(s.prioritized, n) by {
      forall i | 0 <= i < |s.prioritized| ensures Key(s.prioritized[i]) != Key(n) {
        assert s.prioritized[i] in s.prioritized;
      }
    }
    InsertMembers(s.prioritized, n);
    assert x != n && Overlaps(x, n);
  }

  /** The overlap example with a caller-side id of 1: after task 1 from 13:00
      for 60 minutes, a task from 13:30 for 30 minutes is added as task 2. */
  lemma AddTaskSameIdExample(a: Task, b: Task)
    requires a == Task(0, "Task 1", "desc", New, Some(60), Some(13 * 60))
    requires b == Task(1, "Task 2", "desc", New, Some(30), Some(13 * 60 + 30))
    ensures var s1 := AddTask(Empty(), a).next;
      AddTask(s1, b).result == Ok(2) && !NoOverlap(AddTask(s1, b).next.prioritized)
  {
    var s1 := AddTask(Empty(), a).next;
    AddTaskInv(Empty(), a);
    var x := WithId(a, 1);
    assert s1.prioritized == [x];
    assert !IsTaskOverlapping(s1.prioritized, b);
    AddTaskSameIdOverlap(s1, b, x);
  }

  /** The corrected `addTask` refuses a task exactly when some indexed item
      overlaps it, and keeps the invariant for every plain task. */
  lemma AddTaskFreshCheckInv(s: Store, t: Task)
    requires Inv(s) && t.Task?
    ensures AddTaskFreshCheck(s, t).result == Err(Overlap) <==>
      exists i :: 0 <= i < |s.prioritized| && Overlaps(s.prioritized[i], t)
    ensures Inv(AddTaskFreshCheck(s, t).next)
  {
    var n := WithId(t, s.currentId);
    IndexedIdsBelowCounter(s);
    assert WithId(n, s.currentId) == n;
    assert AddTaskFreshCheck(s, t) == AddTask(s, n);
    forall i | 0 <= i < |s.prioritized| ensures s.prioritized[i].id != n.id {
      assert s.prioritized[i] in s.prioritized;
    }
    assert forall x :: x in s.prioritized ==> x.id != n.id;
    AddTaskInv(s, n);
  }

  /** `addEpic` keeps the invariant for an epic as constructed. */
  lemma AddEpicInv(s: Store, e: Task)
    requires Inv(s)
    requires e == NewEpic(e.id, e.name, e.description)
    ensures Inv(AddEpic(s, e).next)
  {
    var r := AddEpic(s, e).next;
    assert r.epics[s.currentId] == NewEpic(s.currentId, e.name, e.description);
    assert forall k :: k in s.subtasks ==> r.epics[s.subtasks[k].epicId] == s.epics[s.subtasks[k].epicId];
    assert forall x :: Stored(r, x) <==> Stored(s, x);
    assert HistoryLive(r);
  }

  /** `addEpic` stores a client-built epic as it comes: one that claims a
      status other than NEW with an empty list is neither as constructed nor
      derived from its list, so the state it leaves breaks the invariant. */
  lemma AddEpicClaimedStatus(s: Store, e: Task)
    requires Inv(s) && e.Epic? && e.subtasks == [] && e.status != New
    ensures AddEpic(s, e).result == Ok(s.currentId)
    ensures AddEpic(s, e).next.epics[s.currentId].status == e.status
    ensures !Inv(AddEpic(s, e).next)
  {
    var n := AddEpic(s, e).next.epics[s.currentId];
    EpicModel.EmptyEpicFields(n);
    assert !EpicModel.Derived(n);
    assert n != NewEpic(n.id, n.name, n.description);
  }

  /** `addSubtask` keeps the invariant when the named epic exists and no
      indexed item carrying the caller-side id overlaps the subtask. */
  lemma AddSubtaskInv(s: Store, st: Task)
    requires Inv(s) && st.Subtask? && st.epicId in s.epics
    requires forall x :: x in s.prioritized && x.id == st.id ==> !Overlaps(x, st)
    ensures Inv(AddSubtask(s, st).next)
  {
    if !IsTaskOverlapping(s.prioritized, st) {
      var n := WithId(st, s.currentId);
      var e := s.epics[st.epicId];
      var r := AddSubtask(s, st).next;
      assert r.subtasks == s.subtasks[s.currentId := n] && r.currentId == s.currentId + 1;
      assert r.epics == s.epics[st.epicId := EpicModel.Recomputed(e, e.subtasks + [n])];
      assert r.prioritized == if st.startTime.Some? then Insert(s.prioritized, n) else s.prioritized;
      assert r.tasks == s.tasks && r.history == s.history;
      AddSubtaskIndex(s, st, r);
      AddSubtaskLists(s, r, n);
      AddSubtaskKeys(s, r, n);
    }
  }

  lemma AddSubtaskKeys(s: Store, r: Store, n: Task)
    requires Wellformed(s) && KeysAreIds(s) && FreshIds(s) && Disjoint(s) && TasksArePlain(s) && HistoryLive(s)
    requires n.Subtask? && n.id == s.currentId && n.epicId in s.epics
    requires r.subtasks == s.subtasks[n.id := n] && r.currentId == s.currentId + 1
    requires r.epics == s.epics[n.epicId := EpicModel.Recomputed(s.epics[n.epicId], s.epics[n.epicId].subtasks + [n])]
    requires r.tasks == s.tasks && r.history == s.history
    ensures KeysAreIds(r) && FreshIds(r) && Disjoint(r) && TasksArePlain(r) && HistoryLive(r)
  {
    EpicModel.RecomputedIsDerived(s.epics[n.epicId], s.epics[n.epicId].subtasks + [n]);
  }

  lemma AddSubtaskIndex(s: Store, st: Task, r: Store)
    requires Inv(s) && st.Subtask?
    requires forall x :: x in s.prioritized && x.id == st.id ==> !Overlaps(x, st)
    requires !IsTaskOverlapping(s.prioritized, st)
    requires r.subtasks == s.subtasks[s.currentId := WithId(st, s.currentId)] && r.tasks == s.tasks
    requires r.prioritized == if st.startTime.Some? then Insert(s.prioritized, WithId(st, s.currentId)) else s.prioritized
    ensures IndexExact(r) && NoOverlap(r.prioritized)
  {
    var n := WithId(st, s.currentId);
    assert !IsTaskOverlapping(s.prioritized, n) by {
      forall i | 0 <= i < |s.prioritized| ensures !Overlaps(s.prioritized[i], n) {
        assert s.prioritized[i] in s.prioritized;
      }
    }
    forall x ensures Stored(r, x) <==> Stored(s, x) || x == n {
      if Stored(s, x) { assert x.id != s.currentId; }
    }
    IndexAdd(s, r, n);
  }

  /** The list part of `addSubtask`: the new subtask joins its epic's list. */
  lemma AddSubtaskLists(s: Store, r: Store, n: Task)
    requires Wellformed(s) && FreshIds(s) && ListsStored(s) && SubtasksListed(s) && EpicsDerived(s)
    requires n.Subtask? && n.id == s.currentId && n.epicId in s.epics
    requires r.subtasks == s.subtasks[n.id := n]
    requires r.epics == s.epics[n.epicId := EpicModel.Recomputed(s.epics[n.epicId], s.epics[n.epicId].subtasks + [n])]
    ensures Wellformed(r) && ListsStored(r) && SubtasksListed(r) && EpicsDerived(r)
  {
    var e := s.epics[n.epicId];
    EpicModel.RecomputedIsDerived(e, e.subtasks + [n]);
    assert Wellformed(r) && EpicsDerived(r);
    AddSubtaskStored(s, r, n);
    AddSubtaskListed(s, r, n);
  }

  /** No list holds the fresh id, so every list stays stored and the
      extended one keeps distinct ids. */
  lemma AddSubtaskStored(s: Store, r: Store, n: Task)
    requires Wellformed(s) && FreshIds(s) && ListsStored(s)
    requires n.Subtask? && n.id == s.currentId && n.epicId in s.epics
    requires r.subtasks == s.subtasks[n.id := n]
    requires r.epics == s.epics[n.epicId := EpicModel.Recomputed(s.epics[n.epicId], s.epics[n.epicId].subtasks + [n])]
    requires Wellformed(r)
    ensures ListsStored(r)
  {
    var eid := n.epicId;
    var e := s.epics[eid];
    var l := e.subtasks + [n];
    EpicModel.RecomputedIsDerived(e, l);
    forall x | x in s.epics ensures forall i :: 0 <= i < |s.epics[x].subtasks| ==> s.epics[x].subtasks[i].id != s.currentId {
      forall i | 0 <= i < |s.epics[x].subtasks| ensures s.epics[x].subtasks[i].id != s.currentId {
        assert s.epics[x].subtasks[i].id in s.subtasks;
      }
    }
    assert DistinctIds(l) by {
      forall i, j | 0 <= i < |l| && 0 <= j < |l| && i != j ensures l[i].id != l[j].id {
        if i < |e.subtasks| && j < |e.subtasks| {
          assert l[i] == e.subtasks[i] && l[j] == e.subtasks[j];
        }
      }
    }
    forall x | x in r.epics ensures
      forall i :: 0 <= i < |r.epics[x].subtasks| ==>
        var y := r.epics[x].subtasks[i];
        y.id in r.subtasks && r.subtasks[y.id] == y && y.epicId == x
    {
      if x == eid {
        forall i | 0 <= i < |l| ensures l[i].id in r.subtasks && r.subtasks[l[i].id] == l[i] && l[i].epicId == x {
          if i < |e.subtasks| { assert l[i] == e.subtasks[i]; }
        }
      }
    }
  }

  lemma AddSubtaskListed(s: Store, r: Store, n: Task)
    requires Wellformed(s) && SubtasksListed(s)
    requires n.Subtask? && n.id == s.currentId && n.id !in s.subtasks && n.epicId in s.epics
    requires r.subtasks == s.subtasks[n.id := n]
    requires r.epics == s.epics[n.epicId := EpicModel.Recomputed(s.epics[n.epicId], s.epics[n.epicId].subtasks + [n])]
    requires Wellformed(r)
    ensures SubtasksListed(r)
  {
    var eid := n.epicId;
    var e := s.epics[eid];
    var l := e.subtasks + [n];
    EpicModel.RecomputedIsDerived(e, l);
    forall k | k in r.subtasks ensures
      r.subtasks[k].epicId in r.epics && HasId(r.epics[r.subtasks[k].epicId].subtasks, k)
    {
      if k == s.currentId {
        assert l[|e.subtasks|].id == k;
      } else if s.subtasks[k].epicId == eid {
        var j :| 0 <= j < |e.subtasks| && e.subtasks[j].id == k;
        assert l[j].id == k;
      }
    }
  }

  /** `addSubtask` naming an unknown epic throws `NotFound` after storing the
      subtask and advancing the counter; that subtask names no epic, so the
      state it leaves breaks the invariant. */
  lemma AddSubtaskUnknownEpic(s: Store, st: Task)
    requires Inv(s) && st.Subtask? && st.epicId !in s.epics
    requires !IsTaskOverlapping(s.prioritized, st)
    ensures AddSubtask(s, st).result == Err(NotFound)
    ensures AddSubtask(s, st).next == s.(subtasks := s.subtasks[s.currentId := WithId(st, s.currentId)],
                                         currentId := s.currentId + 1)
    ensures !Inv(AddSubtask(s, st).next)
  {
    var r := AddSubtask(s, st).next;
    assert s.currentId in r.subtasks && r.subtasks[s.currentId].epicId !in r.epics;
  }

  // ------------------------------------------------------------- updating

  /** Under the invariant no two indexed items share an id. */
  lemma IndexedSameId(s: Store, x: Task, prev: Task)
    requires Disjoint(s) && IndexExact(s) && x in s.prioritized && Stored(s, prev) && x.id == prev.id
    ensures x == prev
  {
    assert Stored(s, x);
  }

  /** Replacing the stored item `prev` by `n` with the same id, as the
      update operations re-index it, keeps the index exact and overlap-free
      when nothing indexed with another id overlaps `n`. */
  lemma IndexReplace(s: Store, r: Store, prev: Task, n: Task)
    requires Disjoint(s) && IndexExact(s) && NoOverlap(s.prioritized)
    requires Stored(s, prev) && prev.id == n.id && !n.Epic?
    requires !IsTaskOverlapping(s.prioritized, n)
    requires r.prioritized ==
      var p1 := if prev.startTime.Some? then Remove(s.prioritized, prev) else s.prioritized;
      if n.startTime.Some? then Insert(p1, n) else p1
    requires forall x :: Stored(r, x) <==> (Stored(s, x) && x.id != n.id) || x == n
    ensures IndexExact(r) && NoOverlap(r.prioritized)
  {
    var p := s.prioritized;
    var p1 := if prev.startTime.Some? then Remove(p, prev) else p;
    FilterKeysSpec(p, {Key(prev)});
    forall x ensures x in p1 <==> x in p && x.id != n.id {
      if x in p && x.id == n.id {
        IndexedSameId(s, x, prev);
      }
    }
    assert Sorted(p1) && Scheduled(p1);
    if n.startTime.Some? {
      assert !HasKey(p1, n) by {
        forall i | 0 <= i < |p1| ensures Key(p1[i]) != Key(n) {
          assert p1[i] in p1;
        }
      }
      InsertMembers(p1, n);
      InsertSorted(p1, n);
      InsertScheduled(p1, n);
      forall x, y | x in r.prioritized && y in r.prioritized && x != y ensures !Overlaps(x, y) {
        if x == n {
          assert y in p && y.id != n.id;
          OverlapsSymmetric(x, y);
        } else if y == n {
          assert x in p && x.id != n.id;
        }
      }
    }
  }

  /** `updateTask` keeps the invariant for a plain task whose id is a stored
      task's, or one the counter has handed out and is no longer in use (a
      deleted task re-posted, say), for then it inserts the task afresh. */
  lemma UpdateTaskInv(s: Store, t: Task)
    requires Inv(s) && t.Task? && t.id !in s.epics && t.id !in s.subtasks && t.id < s.currentId
    ensures Inv(UpdateTask(s, t).next)
  {
    if !IsTaskOverlapping(s.prioritized, t) && t.id !in s.tasks {
      var r := UpdateTask(s, t).next;
      assert r.tasks == s.tasks[t.id := t] && r.epics == s.epics && r.subtasks == s.subtasks;
      assert r.history == s.history && r.currentId == s.currentId;
      forall x ensures Stored(r, x) <==> Stored(s, x) || x == t {
        if Stored(s, x) { assert x.id != t.id; }
      }
      IndexAdd(s, r, t);
      assert Wellformed(r) && ListsStored(r) && SubtasksListed(r) && EpicsDerived(r);
    } else if !IsTaskOverlapping(s.prioritized, t) {
      var r := UpdateTask(s, t).next;
      var prev := s.tasks[t.id];
      assert r.tasks == s.tasks[t.id := t];
      assert r.epics == s.epics && r.subtasks == s.subtasks && r.history == s.history;
      assert r.currentId == s.currentId;
      assert IndexExact(r) && NoOverlap(r.prioritized) by {
        assert Stored(s, prev);
        forall x ensures Stored(r, x) <==> (Stored(s, x) && x.id != t.id) || x == t {
        }
        IndexReplace(s, r, prev, t);
      }
      assert Wellformed(r) && ListsStored(r) && SubtasksListed(r) && EpicsDerived(r);
    }
  }

  /** `updateTask` stores under whatever id it is given: an item that is not
      a plain task, or one carrying an epic's or a subtask's id or an id the
      counter has not handed out yet, is stored all the same, and the state
      it leaves breaks the invariant. */
  lemma UpdateTaskUnstored(s: Store, t: Task)
    requires Inv(s) && !IsTaskOverlapping(s.prioritized, t)
    requires !t.Task? || t.id in s.epics || t.id in s.subtasks || t.id >= s.currentId
    ensures UpdateTask(s, t).result == Ok(())
    ensures UpdateTask(s, t).next.tasks == s.tasks[t.id := t]
    ensures !Inv(UpdateTask(s, t).next)
  {
    var r := UpdateTask(s, t).next;
    assert t.id in r.tasks && r.tasks[t.id] == t;
    assert r.epics == s.epics && r.subtasks == s.subtasks && r.currentId == s.currentId;
  }

  /** After the first epic is added (as epic 1), updating a task with id 1
      succeeds and leaves an id in both the task and the epic map. */
  lemma UpdateTaskEpicIdExample(e: Task, t: Task)
    requires e == NewEpic(0, "E", "d")
    requires t == Task(1, "T", "d", New, None, None)
    ensures var s1 := AddEpic(Empty(), e).next;
      UpdateTask(s1, t).result == Ok(()) && !Inv(UpdateTask(s1, t).next)
  {
    var s1 := AddEpic(Empty(), e).next;
    AddEpicInv(Empty(), e);
    assert 1 in s1.epics;
    UpdateTaskUnstored(s1, t);
  }

  /** `updateEpic` keeps the invariant: the stored list is kept and the
      passed epic is recomputed from it. */
  lemma UpdateEpicInv(s: Store, e: Task)
    requires Inv(s) && e.Epic?
    ensures Inv(UpdateEpic(s, e).next)
  {
    if e.id in s.epics {
      var r := UpdateEpic(s, e).next;
      var l := s.epics[e.id].subtasks;
      EpicModel.RecomputedIsDerived(e, l);
      assert r.epics == s.epics[e.id := EpicModel.Recomputed(e, l)];
      assert r.tasks == s.tasks && r.subtasks == s.subtasks && r.history == s.history;
      assert r.prioritized == s.prioritized && r.currentId == s.currentId;
      assert forall x :: x in r.epics ==> r.epics[x].subtasks == s.epics[x].subtasks;
      assert forall x :: Stored(r, x) <==> Stored(s, x);
    }
  }

  /** Under the invariant a stored subtask's epic exists and lists it. */
  lemma SubtaskListed(s: Store, id: int)
    requires Inv(s) && id in s.subtasks
    ensures s.subtasks[id].epicId in s.epics
    ensures HasId(s.epics[s.subtasks[id].epicId].subtasks, id)
  {
  }

  /** `updateSubtask` keeps the invariant when the subtask stays with the
      epic it had; moving it to another epic would leave it on the old list. */
  lemma UpdateSubtaskInv(s: Store, st: Task)
    requires Inv(s) && st.Subtask?
    requires st.id in s.subtasks ==> st.epicId == s.subtasks[st.id].epicId
    ensures Inv(UpdateSubtask(s, st).next)
  {
    if !IsTaskOverlapping(s.prioritized, st) && st.id in s.subtasks {
      SubtaskListed(s, st.id);
      var r := UpdateSubtask(s, st).next;
      var prev := s.subtasks[st.id];
      var e := s.epics[st.epicId];
      var l := e.subtasks[IndexOfId(e.subtasks, st.id) := st];
      assert r.subtasks == s.subtasks[st.id := st];
      assert r.epics == s.epics[st.epicId := EpicModel.Recomputed(e, l)];
      assert r.tasks == s.tasks && r.history == s.history && r.currentId == s.currentId;
      assert IndexExact(r) && NoOverlap(r.prioritized) by {
        assert Stored(s, prev);
        forall x ensures Stored(r, x) <==> (Stored(s, x) && x.id != st.id) || x == st {
        }
        IndexReplace(s, r, prev, st);
      }
      UpdateSubtaskLists(s, r, st);
      UpdateSubtaskKeys(s, r, st);
    }
  }

  /** `updateSubtask` moving a subtask to another epic: the subtask is stored
      with its new epic id, but no list changes. The new epic's list has no
      entry with that id to replace, and the old epic's list keeps the
      previous version, so the state breaks the invariant. */
  lemma UpdateSubtaskMoved(s: Store, st: Task)
    requires Inv(s) && st.Subtask? && !IsTaskOverlapping(s.prioritized, st)
    requires st.id in s.subtasks && st.epicId != s.subtasks[st.id].epicId
    ensures UpdateSubtask(s, st).result == if st.epicId in s.epics then Ok(()) else Err(NotFound)
    ensures UpdateSubtask(s, st).next.subtasks == s.subtasks[st.id := st]
    ensures UpdateSubtask(s, st).next.epics == s.epics
    ensures HasId(UpdateSubtask(s, st).next.epics[s.subtasks[st.id].epicId].subtasks, st.id)
    ensures !Inv(UpdateSubtask(s, st).next)
  {
    var prev := s.subtasks[st.id];
    SubtaskListed(s, st.id);
    if st.epicId in s.epics {
      var l := s.epics[st.epicId].subtasks;
      forall i | 0 <= i < |l| ensures l[i].id != st.id {
        assert l[i].id in s.subtasks && s.subtasks[l[i].id] == l[i] && l[i].epicId == st.epicId;
      }
    }
    var r := UpdateSubtask(s, st).next;
    var old_list := s.epics[prev.epicId].subtasks;
    var k := IndexOfId(old_list, st.id);
    assert old_list[k] == prev;
    assert r.subtasks[old_list[k].id] != old_list[k];
  }

  /** With epics 1 and 2 and subtask 3 of epic 1, updating subtask 3 to name
      epic 2 succeeds, and epic 1 still lists it. */
  lemma UpdateSubtaskMovedExample(a: Task, b: Task, st: Task, moved: Task)
    requires a == NewEpic(0, "A", "d") && b == NewEpic(0, "B", "d")
    requires st == Subtask(0, "s", "d", New, None, None, 1)
    requires moved == Subtask(3, "s", "d", New, None, None, 2)
    ensures var s1 := AddEpic(Empty(), a).next;
      var s2 := AddEpic(s1, b).next;
      var s3 := AddSubtask(s2, st).next;
      UpdateSubtask(s3, moved).result == Ok(()) &&
      HasId(UpdateSubtask(s3, moved).next.epics[1].subtasks, 3) &&
      !Inv(UpdateSubtask(s3, moved).next)
  {
    var s1 := AddEpic(Empty(), a).next;
    AddEpicInv(Empty(), a);
    var s2 := AddEpic(s1, b).next;
    AddEpicInv(s1, b);
    assert s2.prioritized == [] && 1 in s2.epics && 2 in s2.epics && s2.currentId == 3;
    var s3 := AddSubtask(s2, st).next;
    AddSubtaskInv(s2, st);
    assert s3.subtasks[3].epicId == 1 && 2 in s3.epics && s3.prioritized == [];
    UpdateSubtaskMoved(s3, moved);
  }

  /** The corrected `updateSubtask` keeps the invariant for every subtask:
      a change of epic is refused and changes nothing. */
  lemma UpdateSubtaskSameEpicInv(s: Store, st: Task)
    requires Inv(s) && st.Subtask?
    ensures st.id in s.subtasks && st.epicId != s.subtasks[st.id].epicId ==>
      UpdateSubtaskSameEpic(s, st) == Step(s, Err(NotFound))
    ensures Inv(UpdateSubtaskSameEpic(s, st).next)
  {
    if !(st.id in s.subtasks && st.epicId != s.subtasks[st.id].epicId) {
      UpdateSubtaskInv(s, st);
    }
  }

  lemma UpdateSubtaskKeys(s: Store, r: Store, st: Task)
    requires Wellformed(s) && KeysAreIds(s) && FreshIds(s) && Disjoint(s) && TasksArePlain(s) && HistoryLive(s)
    requires st.Subtask? && st.id in s.subtasks && st.epicId in s.epics
    requires HasId(s.epics[st.epicId].subtasks, st.id)
    requires r.subtasks == s.subtasks[st.id := st]
    requires r.epics == s.epics[st.epicId := EpicModel.Recomputed(s.epics[st.epicId],
      s.epics[st.epicId].subtasks[IndexOfId(s.epics[st.epicId].subtasks, st.id) := st])]
    requires r.tasks == s.tasks && r.history == s.history && r.currentId == s.currentId
    ensures KeysAreIds(r) && FreshIds(r) && Disjoint(r) && TasksArePlain(r) && HistoryLive(r)
  {
    var e := s.epics[st.epicId];
    EpicModel.RecomputedIsDerived(e, e.subtasks[IndexOfId(e.subtasks, st.id) := st]);
  }

  /** The list part of `updateSubtask`: the entry with its id is replaced in place. */
  lemma UpdateSubtaskLists(s: Store, r: Store, st: Task)
    requires Wellformed(s) && ListsStored(s) && SubtasksListed(s) && EpicsDerived(s)
    requires st.Subtask? && st.id in s.subtasks && st.epicId == s.subtasks[st.id].epicId
    requires st.epicId in s.epics && HasId(s.epics[st.epicId].subtasks, st.id)
    requires r.subtasks == s.subtasks[st.id := st]
    requires r.epics == s.epics[st.epicId := EpicModel.Recomputed(s.epics[st.epicId],
      s.epics[st.epicId].subtasks[IndexOfId(s.epics[st.epicId].subtasks, st.id) := st])]
    ensures Wellformed(r) && ListsStored(r) && SubtasksListed(r) && EpicsDerived(r)
  {
    var e := s.epics[st.epicId];
    var l := e.subtasks[IndexOfId(e.subtasks, st.id) := st];
    UpdateSubtaskList(s, st);
    EpicModel.RecomputedIsDerived(e, l);
    assert Wellformed(r) && EpicsDerived(r);
    UpdateSubtaskStored(s, r, st);
    UpdateSubtaskListed(s, r, st);
  }

  /** The replaced list still has distinct ids and holds the new value. */
  lemma UpdateSubtaskList(s: Store, st: Task)
    requires Wellformed(s) && ListsStored(s)
    requires st.Subtask? && st.epicId in s.epics && HasId(s.epics[st.epicId].subtasks, st.id)
    ensures var e := s.epics[st.epicId];
      var k := IndexOfId(e.subtasks, st.id);
      && DistinctIds(e.subtasks[k := st])
      && forall i :: 0 <= i < |e.subtasks| && i != k ==> e.subtasks[i].id != st.id
  {
    var e := s.epics[st.epicId];
    var k := IndexOfId(e.subtasks, st.id);
    var l := e.subtasks[k := st];
    forall i, j | 0 <= i < |l| && 0 <= j < |l| && i != j ensures l[i].id != l[j].id {
      assert l[i].id == e.subtasks[i].id && l[j].id == e.subtasks[j].id;
    }
  }

  lemma UpdateSubtaskStored(s: Store, r: Store, st: Task)
    requires Wellformed(s) && ListsStored(s)
    requires st.Subtask? && st.id in s.subtasks && st.epicId == s.subtasks[st.id].epicId
    requires st.epicId in s.epics && HasId(s.epics[st.epicId].subtasks, st.id)
    requires r.subtasks == s.subtasks[st.id := st]
    requires r.epics == s.epics[st.epicId := EpicModel.Recomputed(s.epics[st.epicId],
      s.epics[st.epicId].subtasks[IndexOfId(s.epics[st.epicId].subtasks, st.id) := st])]
    requires Wellformed(r)
    requires var e := s.epics[st.epicId];
      var k := IndexOfId(e.subtasks, st.id);
      && DistinctIds(e.subtasks[k := st])
      && forall i :: 0 <= i < |e.subtasks| && i != k ==> e.subtasks[i].id != st.id
    ensures ListsStored(r)
  {
    var eid := st.epicId;
    var e := s.epics[eid];
    var k := IndexOfId(e.subtasks, st.id);
    var l := e.subtasks[k := st];
    EpicModel.RecomputedIsDerived(e, l);
    forall x | x in r.epics ensures
      forall i :: 0 <= i < |r.epics[x].subtasks| ==>
        var y := r.epics[x].subtasks[i];
        y.id in r.subtasks && r.subtasks[y.id] == y && y.epicId == x
    {
      if x == eid {
        forall i | 0 <= i < |l| ensures l[i].id in r.subtasks && r.subtasks[l[i].id] == l[i] && l[i].epicId == x {
          if i != k {
            assert l[i] == e.subtasks[i];
          }
        }
      } else {
        forall i | 0 <= i < |s.epics[x].subtasks| ensures s.epics[x].subtasks[i].id != st.id {
          var y := s.epics[x].subtasks[i];
          assert s.subtasks[y.id] == y && y.epicId == x;
        }
      }
    }
  }

  lemma UpdateSubtaskListed(s: Store, r: Store, st: Task)
    requires Wellformed(s) && SubtasksListed(s)
    requires st.Subtask? && st.id in s.subtasks && st.epicId == s.subtasks[st.id].epicId
    requires st.epicId in s.epics && HasId(s.epics[st.epicId].subtasks, st.id)
    requires r.subtasks == s.subtasks[st.id := st]
    requires r.epics == s.epics[st.epicId := EpicModel.Recomputed(s.epics[st.epicId],
      s.epics[st.epicId].subtasks[IndexOfId(s.epics[st.epicId].subtasks, st.id) := st])]
    requires Wellformed(r)
    ensures SubtasksListed(r)
  {
    var eid := st.epicId;
    var e := s.epics[eid];
    var l := e.subtasks[IndexOfId(e.subtasks, st.id) := st];
    EpicModel.RecomputedIsDerived(e, l);
    forall id | id in r.subtasks ensures
      r.subtasks[id].epicId in r.epics && HasId(r.epics[r.subtasks[id].epicId].subtasks, id)
    {
      if r.subtasks[id].epicId == eid {
        var j :| 0 <= j < |e.subtasks| && e.subtasks[j].id == id;
        assert l[j].id == id;
      }
    }
  }

  // ------------------------------------------------------------- removing

  /** Ids, the counter and the kinds of values carry over to a store whose
      maps hold only keys of the old ones, with the same ids. */
  lemma KeysKept(s: Store, r: Store)
    requires KeysAreIds(s) && FreshIds(s) && Disjoint(s) && TasksArePlain(s)
    requires r.currentId == s.currentId
    requires forall k :: k in r.tasks ==> k in s.tasks && r.tasks[k] == s.tasks[k]
    requires forall k :: k in r.epics ==> k in s.epics && r.epics[k].id == k
    requires forall k :: k in r.subtasks ==> k in s.subtasks && r.subtasks[k].id == k
    ensures KeysAreIds(r) && FreshIds(r) && Disjoint(r) && TasksArePlain(r)
  {
  }

  /** Removing ids from the history keeps it live when every id still
      stored afterwards was stored before and every other id was removed. */
  lemma HistoryAfterRemove(s: Store, r: Store, ids: set<int>)
    requires HistoryLive(s)
    requires r.history == RemoveIds(s.history, ids)
    requires forall id :: (id in s.tasks || id in s.epics || id in s.subtasks) && id !in ids ==>
      id in r.tasks || id in r.epics || id in r.subtasks
    ensures HistoryLive(r)
  {
    RemoveIdsSpec(s.history, ids);
    forall i | 0 <= i < |r.history|
      ensures r.history[i].id in r.tasks || r.history[i].id in r.epics || r.history[i].id in r.subtasks
    {
      assert r.history[i] in s.history;
    }
  }

  /** Filtering keys out of the index keeps it exact when the filtered keys
      are exactly those of the indexed items that are no longer stored. */
  lemma IndexAfterFilter(s: Store, r: Store, ks: set<(Option<int>, int)>)
    requires IndexExact(s) && NoOverlap(s.prioritized)
    requires r.prioritized == FilterKeys(s.prioritized, ks)
    requires forall x :: Stored(r, x) ==> Stored(s, x)
    requires forall x :: x in s.prioritized ==> (Key(x) in ks <==> !Stored(r, x))
    ensures IndexExact(r) && NoOverlap(r.prioritized)
  {
    FilterKeysSpec(s.prioritized, ks);
  }

  /** `deleteTask` keeps the invariant when passed the stored task. */
  lemma DeleteTaskInv(s: Store, t: Task)
    requires Inv(s) && t.id in s.tasks && s.tasks[t.id] == t
    ensures Inv(DeleteTask(s, t).next)
  {
    var r := DeleteTask(s, t).next;
    assert r.tasks == s.tasks - {t.id} && r.history == RemoveIds(s.history, {t.id});
    assert r.prioritized == FilterKeys(s.prioritized, {Key(t)});
    assert r.epics == s.epics && r.subtasks == s.subtasks && r.currentId == s.currentId;
    assert Stored(s, t);
    assert forall x :: Stored(r, x) <==> Stored(s, x) && x.id != t.id;
    forall x | x in s.prioritized ensures Key(x) in {Key(t)} <==> !Stored(r, x) {
      if x.id == t.id { IndexedSameId(s, x, t); }
    }
    IndexAfterFilter(s, r, {Key(t)});
    HistoryAfterRemove(s, r, {t.id});
  }

  /** `deleteEpic` keeps the invariant when passed the stored epic. */
  lemma DeleteEpicInv(s: Store, e: Task)
    requires Inv(s) && e.id in s.epics && s.epics[e.id] == e
    ensures Inv(DeleteEpic(s, e).next)
  {
    var r := DeleteEpic(s, e).next;
    var l := e.subtasks;
    var ids := Ids(l);
    assert r.subtasks == s.subtasks - ids && r.epics == s.epics - {e.id};
    assert r.history == RemoveIds(s.history, ids + {e.id});
    assert r.prioritized == FilterKeys(s.prioritized, StartKeys(l));
    assert r.tasks == s.tasks && r.currentId == s.currentId;
    assert forall id :: id in ids ==> id in s.subtasks && s.subtasks[id].epicId == e.id;
    DeleteEpicIndex(s, r, e);
    DeleteEpicLists(s, r, e);
    HistoryAfterRemove(s, r, ids + {e.id});
    KeysKept(s, r);
  }

  lemma DeleteEpicIndex(s: Store, r: Store, e: Task)
    requires Wellformed(s) && Disjoint(s) && ListsStored(s) && IndexExact(s) && NoOverlap(s.prioritized)
    requires e.id in s.epics && s.epics[e.id] == e
    requires r.subtasks == s.subtasks - Ids(e.subtasks) && r.tasks == s.tasks
    requires r.prioritized == FilterKeys(s.prioritized, StartKeys(e.subtasks))
    ensures IndexExact(r) && NoOverlap(r.prioritized)
  {
    var l := e.subtasks;
    forall x | x in s.prioritized ensures Key(x) in StartKeys(l) <==> !Stored(r, x) {
      assert Stored(s, x);
      if Key(x) in StartKeys(l) {
        var j :| 0 <= j < |l| && l[j].startTime.Some? && Key(l[j]) == Key(x);
        assert x.id in Ids(l);
      }
      if !Stored(r, x) {
        assert x.id in Ids(l);
        var j :| 0 <= j < |l| && l[j].id == x.id;
        assert s.subtasks[l[j].id] == l[j];
      }
    }
    IndexAfterFilter(s, r, StartKeys(l));
  }

  lemma DeleteEpicLists(s: Store, r: Store, e: Task)
    requires Wellformed(s) && ListsStored(s) && SubtasksListed(s) && EpicsDerived(s)
    requires e.id in s.epics && s.epics[e.id] == e
    requires r.subtasks == s.subtasks - Ids(e.subtasks) && r.epics == s.epics - {e.id}
    ensures Wellformed(r) && ListsStored(r) && SubtasksListed(r) && EpicsDerived(r)
  {
    var l := e.subtasks;
    forall x | x in r.epics ensures
      forall i :: 0 <= i < |r.epics[x].subtasks| ==>
        var y := r.epics[x].subtasks[i];
        y.id in r.subtasks && r.subtasks[y.id] == y && y.epicId == x
    {
      forall i | 0 <= i < |s.epics[x].subtasks| ensures s.epics[x].subtasks[i].id !in Ids(l) {
        var y := s.epics[x].subtasks[i];
        assert s.subtasks[y.id] == y && y.epicId == x;
      }
    }
    forall k | k in r.subtasks ensures
      r.subtasks[k].epicId in r.epics && HasId(r.epics[r.subtasks[k].epicId].subtasks, k)
    {
      assert s.subtasks[k].epicId != e.id;
    }
  }

  /** `deleteSubtask` keeps the invariant when passed the stored subtask. */
  lemma DeleteSubtaskInv(s: Store, st: Task)
    requires Inv(s) && st.id in s.subtasks && s.subtasks[st.id] == st
    ensures Inv(DeleteSubtask(s, st).next)
  {
    SubtaskListed(s, st.id);
    var r := DeleteSubtask(s, st).next;
    var e := s.epics[st.epicId];
    assert r.epics == s.epics[st.epicId := EpicModel.Recomputed(e, RemoveFirst(e.subtasks, st.id))];
    assert r.subtasks == s.subtasks - {st.id} && r.history == RemoveIds(s.history, {st.id});
    assert r.prioritized == FilterKeys(s.prioritized, {Key(st)});
    assert r.tasks == s.tasks && r.currentId == s.currentId;
    DeleteSubtaskIndex(s, r, st);
    DeleteSubtaskLists(s, r, st);
    DeleteSubtaskListed(s, r, st);
    DeleteSubtaskKeys(s, r, st);
  }

  lemma DeleteSubtaskIndex(s: Store, r: Store, st: Task)
    requires Disjoint(s) && IndexExact(s) && NoOverlap(s.prioritized)
    requires st.id in s.subtasks && s.subtasks[st.id] == st
    requires r.subtasks == s.subtasks - {st.id} && r.tasks == s.tasks
    requires r.prioritized == FilterKeys(s.prioritized, {Key(st)})
    ensures IndexExact(r) && NoOverlap(r.prioritized)
  {
    assert Stored(s, st);
    assert forall x :: Stored(r, x) <==> Stored(s, x) && x.id != st.id;
    forall x | x in s.prioritized ensures Key(x) in {Key(st)} <==> !Stored(r, x) {
      if x.id == st.id { IndexedSameId(s, x, st); }
    }
    IndexAfterFilter(s, r, {Key(st)});
  }

  lemma DeleteSubtaskKeys(s: Store, r: Store, st: Task)
    requires Wellformed(s) && KeysAreIds(s) && FreshIds(s) && Disjoint(s) && TasksArePlain(s) && HistoryLive(s)
    requires st.Subtask? && st.id in s.subtasks && st.epicId in s.epics
    requires r.subtasks == s.subtasks - {st.id} && r.history == RemoveIds(s.history, {st.id})
    requires r.epics == s.epics[st.epicId := EpicModel.Recomputed(s.epics[st.epicId],
      RemoveFirst(s.epics[st.epicId].subtasks, st.id))]
    requires r.tasks == s.tasks && r.currentId == s.currentId
    ensures Wellformed(r) && KeysAreIds(r) && FreshIds(r) && Disjoint(r) && TasksArePlain(r) && HistoryLive(r)
  {
    var e := s.epics[st.epicId];
    EpicModel.RecomputedIsDerived(e, RemoveFirst(e.subtasks, st.id));
    HistoryAfterRemove(s, r, {st.id});
  }

  /** The lists after `deleteSubtask`: the subtask is off its epic's list,
      and every other entry stays stored. */
  lemma DeleteSubtaskLists(s: Store, r: Store, st: Task)
    requires Wellformed(s) && ListsStored(s) && EpicsDerived(s)
    requires st.id in s.subtasks && s.subtasks[st.id] == st && st.epicId in s.epics
    requires r.subtasks == s.subtasks - {st.id}
    requires r.epics == s.epics[st.epicId := EpicModel.Recomputed(s.epics[st.epicId],
      RemoveFirst(s.epics[st.epicId].subtasks, st.id))]
    ensures Wellformed(r) && ListsStored(r) && EpicsDerived(r)
  {
    var e := s.epics[st.epicId];
    var l := RemoveFirst(e.subtasks, st.id);
    EpicModel.RecomputedIsDerived(e, l);
    RemoveFirstKeepsOthers(e.subtasks, st.id);
    assert Wellformed(r) && EpicsDerived(r);
    DeleteSubtaskStored(s, r, st);
  }

  lemma DeleteSubtaskStored(s: Store, r: Store, st: Task)
    requires Wellformed(s) && ListsStored(s)
    requires st.id in s.subtasks && s.subtasks[st.id] == st && st.epicId in s.epics
    requires r.subtasks == s.subtasks - {st.id}
    requires r.epics == s.epics[st.epicId := EpicModel.Recomputed(s.epics[st.epicId],
      RemoveFirst(s.epics[st.epicId].subtasks, st.id))]
    requires Wellformed(r)
    ensures ListsStored(r)
  {
    var eid := st.epicId;
    var e := s.epics[eid];
    var l := RemoveFirst(e.subtasks, st.id);
    EpicModel.RecomputedIsDerived(e, l);
    RemoveFirstKeepsOthers(e.subtasks, st.id);
    forall x | x in r.epics ensures
      forall i :: 0 <= i < |r.epics[x].subtasks| ==>
        var y := r.epics[x].subtasks[i];
        y.id in r.subtasks && r.subtasks[y.id] == y && y.epicId == x
    {
      if x == eid {
        forall i | 0 <= i < |l| ensures l[i].id in r.subtasks && r.subtasks[l[i].id] == l[i] && l[i].epicId == x {
          assert l[i] in e.subtasks;
        }
      } else {
        forall i | 0 <= i < |s.epics[x].subtasks| ensures s.epics[x].subtasks[i].id != st.id {
          var y := s.epics[x].subtasks[i];
          assert s.subtasks[y.id] == y && y.epicId == x;
        }
      }
    }
  }

  lemma DeleteSubtaskListed(s: Store, r: Store, st: Task)
    requires Wellformed(s) && SubtasksListed(s)
    requires st.Subtask? && st.id in s.subtasks && st.epicId in s.epics && DistinctIds(s.epics[st.epicId].subtasks)
    requires r.subtasks == s.subtasks - {st.id}
    requires r.epics == s.epics[st.epicId := EpicModel.Recomputed(s.epics[st.epicId],
      RemoveFirst(s.epics[st.epicId].subtasks, st.id))]
    ensures Wellformed(r) && SubtasksListed(r)
  {
    var eid := st.epicId;
    var e := s.epics[eid];
    var l := RemoveFirst(e.subtasks, st.id);
    EpicModel.RecomputedIsDerived(e, l);
    RemoveFirstKeepsOthers(e.subtasks, st.id);
    forall k | k in r.subtasks ensures
      r.subtasks[k].epicId in r.epics && HasId(r.epics[r.subtasks[k].epicId].subtasks, k)
    {
      if s.subtasks[k].epicId == eid {
        var j :| 0 <= j < |e.subtasks| && e.subtasks[j].id == k;
        assert e.subtasks[j] in l;
      }
    }
  }

  // ------------------------------------------------------------- clearing

  lemma ValueIdsAreKeys(m: map<int, Task>)
    requires forall k :: k in m ==> m[k].id == k
    ensures ValueIds(m) == m.Keys
  {
    forall k | k in m ensures k in ValueIds(m) {
      assert m[k].id == k;
    }
  }

  /** `clearTasks` keeps the invariant. */
  lemma ClearTasksInv(s: Store)
    requires Inv(s)
    ensures Inv(ClearTasks(s).next)
  {
    var r := ClearTasks(s).next;
    ValueIdsAreKeys(s.tasks);
    assert r.tasks == map[] && r.history == RemoveIds(s.history, s.tasks.Keys);
    assert r.prioritized == FilterKeys(s.prioritized, StartKeysOf(s.tasks));
    assert r.epics == s.epics && r.subtasks == s.subtasks && r.currentId == s.currentId;
    assert forall x :: Stored(r, x) <==> x.id in s.subtasks && s.subtasks[x.id] == x;
    forall x | x in s.prioritized ensures Key(x) in StartKeysOf(s.tasks) <==> !Stored(r, x) {
      assert Stored(s, x);
      if Key(x) in StartKeysOf(s.tasks) {
        var k :| k in s.tasks && s.tasks[k].startTime.Some? && Key(s.tasks[k]) == Key(x);
      }
    }
    IndexAfterFilter(s, r, StartKeysOf(s.tasks));
    HistoryAfterRemove(s, r, s.tasks.Keys);
  }

  /** `clearEpics` keeps the invariant, and leaves no epic and no subtask. */
  lemma ClearEpicsInv(s: Store)
    requires Inv(s)
    ensures Inv(ClearEpics(s).next)
    ensures ClearEpics(s).next.epics == map[] && ClearEpics(s).next.subtasks == map[]
  {
    var r := ClearEpics(s).next;
    ValueIdsAreKeys(s.epics);
    ValueIdsAreKeys(s.subtasks);
    RemoveIdsTwice(s.history, s.epics.Keys, s.subtasks.Keys);
    assert r.history == RemoveIds(s.history, s.epics.Keys + s.subtasks.Keys);
    assert r.prioritized == FilterKeys(s.prioritized, StartKeysOf(s.subtasks));
    assert r.tasks == s.tasks && r.currentId == s.currentId;
    assert forall x :: Stored(r, x) <==> x.id in s.tasks && s.tasks[x.id] == x;
    forall x | x in s.prioritized ensures Key(x) in StartKeysOf(s.subtasks) <==> !Stored(r, x) {
      assert Stored(s, x);
      if Key(x) in StartKeysOf(s.subtasks) {
        var k :| k in s.subtasks && s.subtasks[k].startTime.Some? && Key(s.subtasks[k]) == Key(x);
      }
    }
    IndexAfterFilter(s, r, StartKeysOf(s.subtasks));
    HistoryAfterRemove(s, r, s.epics.Keys + s.subtasks.Keys);
  }

  /** Under the invariant, `clearSubtasks` leaves every epic with an empty
      list (each listed subtask names that epic) and recomputed or untouched. */
  lemma ClearedEpicEmpty(s: Store, x: int)
    requires Wellformed(s) && KeysAreIds(s) && ListsStored(s) && EpicsDerived(s) && x in s.epics
    ensures var c := ClearedEpic(s.epics[x], OwnedBy(s.subtasks, x));
      c.subtasks == [] && c.id == x && c.Epic? &&
      (EpicModel.Derived(c) || c == NewEpic(c.id, c.name, c.description))
  {
    var e := s.epics[x];
    var owned := OwnedBy(s.subtasks, x);
    forall i | 0 <= i < |e.subtasks| ensures e.subtasks[i].id in owned {
      var y := e.subtasks[i];
      assert y.id in s.subtasks && s.subtasks[y.id] == y && y.epicId == x;
    }
    if owned != {} {
      RemoveEachAll(e.subtasks, owned);
      EpicModel.RecomputedIsDerived(e, []);
    }
  }

  /** `clearSubtasks` keeps the invariant and empties every epic's list. */
  lemma ClearSubtasksInv(s: Store)
    requires Inv(s)
    ensures Inv(ClearSubtasks(s).next)
    ensures forall x :: x in ClearSubtasks(s).next.epics ==> ClearSubtasks(s).next.epics[x].subtasks == []
    ensures ClearSubtasks(s).next.epics.Keys == s.epics.Keys
  {
    var r := ClearSubtasks(s).next;
    ValueIdsAreKeys(s.subtasks);
    assert r.history == RemoveIds(s.history, s.subtasks.Keys);
    assert r.prioritized == FilterKeys(s.prioritized, StartKeysOf(s.subtasks));
    assert r.tasks == s.tasks && r.currentId == s.currentId && r.subtasks == map[];
    ClearSubtasksEpics(s, r);
    ClearSubtasksIndex(s, r);
    HistoryAfterRemove(s, r, s.subtasks.Keys);
    KeysKept(s, r);
  }

  lemma ClearSubtasksEpics(s: Store, r: Store)
    requires Wellformed(s) && KeysAreIds(s) && ListsStored(s) && EpicsDerived(s)
    requires r.epics == map x | x in s.epics :: ClearedEpic(s.epics[x], OwnedBy(s.subtasks, x))
    requires r.subtasks == map[]
    ensures forall x :: x in r.epics ==> r.epics[x].subtasks == [] && r.epics[x].id == x
    ensures Wellformed(r) && ListsStored(r) && SubtasksListed(r) && EpicsDerived(r)
  {
    forall x | x in r.epics
      ensures r.epics[x].subtasks == [] && r.epics[x].id == x && r.epics[x].Epic?
      ensures EpicModel.Derived(r.epics[x]) || r.epics[x] == NewEpic(r.epics[x].id, r.epics[x].name, r.epics[x].description)
    {
      ClearedEpicEmpty(s, x);
    }
  }

  lemma ClearSubtasksIndex(s: Store, r: Store)
    requires KeysAreIds(s) && Disjoint(s) && IndexExact(s) && NoOverlap(s.prioritized)
    requires r.prioritized == FilterKeys(s.prioritized, StartKeysOf(s.subtasks))
    requires r.tasks == s.tasks && r.subtasks == map[]
    ensures IndexExact(r) && NoOverlap(r.prioritized)
  {
    assert forall x :: Stored(r, x) <==> x.id in s.tasks && s.tasks[x.id] == x;
    forall x | x in s.prioritized ensures Key(x) in StartKeysOf(s.subtasks) <==> !Stored(r, x) {
      assert Stored(s, x);
      if Key(x) in StartKeysOf(s.subtasks) {
        var k :| k in s.subtasks && s.subtasks[k].startTime.Some? && Key(s.subtasks[k]) == Key(x);
      }
    }
    IndexAfterFilter(s, r, StartKeysOf(s.subtasks));
  }

  // ------------------------------------------------------------- lookups

  /** A successful lookup adds a stored value to the history, which keeps
      the invariant; a failed one changes nothing. */
  lemma GetByIdInv(s: Store, m: map<int, Task>, id: int)
    requires Inv(s) && (m == s.tasks || m == s.epics || m == s.subtasks)
    ensures Inv(GetById(s, m, id).next)
  {
    if id in m {
      var r := GetById(s, m, id).next;
      AddedSpec(s.history, m[id]);
      forall i | 0 <= i < |r.history|
        ensures r.history[i].id in r.tasks || r.history[i].id in r.epics || r.history[i].id in r.subtasks
      {
        assert r.history[i] in r.history;
      }
    }
  }
}
