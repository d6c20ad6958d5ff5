/**
 * What the store's operations promise, stated against the abstract state:
 * id assignment, the overlap guard, lookups, the shape of the prioritized
 * list, and what updates and deletions do to the epic lists.
 */
module StoreProperties {
  import opened Wrappers
  import opened Model
  import EpicModel
  import opened PriorityIndex
  import opened History
  import opened TaskStore
  import opened StoreInvariant

  // ------------------------------------------------------------- ids

  /** Every add hands out the counter as the new id and advances the counter
      by one; `addSubtask` does so even when it then fails for an unknown epic. */
  lemma AddsAssignCounter(s: Store, t: Task)
    ensures AddTask(s, t).result.Ok? ==>
      AddTask(s, t).result.value == s.currentId && AddTask(s, t).next.currentId == s.currentId + 1 &&
      AddTask(s, t).next.tasks[s.currentId] == WithId(t, s.currentId)
    ensures AddEpic(s, t).result == Ok(s.currentId) && AddEpic(s, t).next.currentId == s.currentId + 1
    ensures AddEpic(s, t).next.epics[s.currentId] == WithId(t, s.currentId)
    ensures Wellformed(s) && t.Subtask? && AddSubtask(s, t).result != Err(Overlap) ==>
      AddSubtask(s, t).next.currentId == s.currentId + 1 &&
      AddSubtask(s, t).next.subtasks[s.currentId] == WithId(t, s.currentId) &&
      (AddSubtask(s, t).result.Ok? ==> AddSubtask(s, t).result.value == s.currentId)
  {
  }

  /** The first entity added to a new manager gets id 1. */
  lemma FirstIdIsOne(t: Task)
    ensures AddTask(Empty(), t).result == Ok(1)
    ensures AddEpic(Empty(), t).result == Ok(1)
    ensures t.Subtask? ==> AddSubtask(Empty(), t).next.subtasks.Keys == {1}
  {
    assert !IsTaskOverlapping([], t);
  }

  /** Ids strictly increase across kinds: an id handed out by any add is
      below every id handed out by a later add. */
  lemma IdsIncrease(s: Store, t: Task, e: Task, st: Task)
    requires Wellformed(s) && e.Epic? && st.Subtask?
    ensures var s1 := AddTask(s, t);
      var s2 := AddEpic(s1.next, e);
      Wellformed(s2.next) &&
      var s3 := AddSubtask(s2.next, st);
      s1.result.Ok? ==> (s1.result.value < s2.result.value &&
        (s3.result.Ok? ==> s2.result.value < s3.result.value))
  {
    var s1 := AddTask(s, t);
    assert s1.next.epics == s.epics && s1.next.subtasks == s.subtasks;
  }

  // ------------------------------------------------------------- overlap

  /** The overlap test is on half-open intervals: items that merely touch do
      not overlap, and an item missing a start or end overlaps nothing. */
  lemma OverlapsHalfOpen(a: Task, b: Task)
    ensures Overlaps(a, b) <==> Overlaps(b, a)
    ensures a.startTime.None? || EndTime(a).None? || b.startTime.None? || EndTime(b).None? ==> !Overlaps(a, b)
    ensures EndTime(a).Some? && b.startTime == EndTime(a) ==> !Overlaps(a, b)
    ensures a.startTime.Some? && EndTime(a).Some? && b.startTime.Some? && EndTime(b).Some? ==>
      (Overlaps(a, b) <==> a.startTime.value < EndTime(b).value && b.startTime.value < EndTime(a).value)
  {
  }

  /** An indexed item carrying the candidate's own id never counts: adding
      it anywhere in the list leaves the test's verdict as it was. */
  lemma OverlapSkipsSameId(p: seq<Task>, q: seq<Task>, x: Task, t: Task)
    requires x.id == t.id
    ensures IsTaskOverlapping(p + [x] + q, t) <==> IsTaskOverlapping(p + q, t)
  {
    var l, m := p + [x] + q, p + q;
    if IsTaskOverlapping(l, t) {
      var i :| 0 <= i < |l| && l[i].id != t.id && Overlaps(l[i], t);
      var j := if i < |p| then i else i - 1;
      assert m[j] == l[i];
    }
    if IsTaskOverlapping(m, t) {
      var j :| 0 <= j < |m| && m[j].id != t.id && Overlaps(m[j], t);
      var i := if j < |p| then j else j + 1;
      assert l[i] == m[j];
    }
  }

  /** The guarded operations throw `Overlap` exactly when the overlap test
      fires, and then change nothing. */
  lemma OverlapGuard(s: Store, t: Task)
    ensures AddTask(s, t).result == Err(Overlap) <==> IsTaskOverlapping(s.prioritized, t)
    ensures UpdateTask(s, t).result == Err(Overlap) <==> IsTaskOverlapping(s.prioritized, t)
    ensures IsTaskOverlapping(s.prioritized, t) ==> AddTask(s, t).next == s && UpdateTask(s, t).next == s
    ensures Wellformed(s) && t.Subtask? ==>
      (AddSubtask(s, t).result == Err(Overlap) <==> IsTaskOverlapping(s.prioritized, t)) &&
      (UpdateSubtask(s, t).result == Err(Overlap) <==> IsTaskOverlapping(s.prioritized, t)) &&
      (IsTaskOverlapping(s.prioritized, t) ==> AddSubtask(s, t).next == s && UpdateSubtask(s, t).next == s)
  {
  }

  /** A task overlapping an indexed one by half an hour is refused, and the
      store keeps only the first. */
  lemma OverlapScenario(t1: Task, t2: Task)
    requires t1 == Task(0, "Task 1", "desc", New, Some(60), Some(13 * 60))
    requires t2 == Task(0, "Task 2", "desc", New, Some(30), Some(13 * 60 + 30))
    ensures var s1 := AddTask(Empty(), t1).next;
      AddTask(s1, t2).result == Err(Overlap) && |AddTask(s1, t2).next.tasks| == 1
  {
    var s1 := AddTask(Empty(), t1).next;
    assert s1.prioritized == [WithId(t1, 1)];
    assert Overlaps(s1.prioritized[0], t2);
    assert s1.tasks.Keys == {1};
  }

  // ------------------------------------------------------------- lookups

  /** A lookup fails with `NotFound` exactly for an absent id, changing
      nothing; otherwise it returns the stored value, which becomes the
      newest history entry and the only one with its id. */
  lemma GetByIdSpec(s: Store, m: map<int, Task>, id: int)
    requires DistinctIds(s.history)
    ensures GetById(s, m, id).result == Err(NotFound) <==> id !in m
    ensures id !in m ==> GetById(s, m, id).next == s
    ensures id in m ==>
      var r := GetById(s, m, id);
      var h := r.next.history;
      r.result == Ok(m[id]) && r.next == s.(history := h) &&
      |h| > 0 && h[|h| - 1] == m[id] && (forall i :: 0 <= i < |h| - 1 ==> h[i].id != m[id].id) &&
      DistinctIds(h)
  {
    if id in m {
      AddedSpec(s.history, m[id]);
    }
  }

  /** Viewing a task, updating it and viewing it again leaves one history
      entry, holding the updated version. */
  lemma HistoryScenario(t: Task, u: Task)
    requires t == Task(0, "task", "initial desc", New, Some(60), Some(13 * 60))
    requires u == Task(1, "updated task name", "updated desc", Done, Some(60), Some(13 * 60))
    ensures var s1 := AddTask(Empty(), t).next;
      var s2 := GetTaskById(s1, 1).next;
      var s3 := UpdateTask(s2, u).next;
      var s4 := GetTaskById(s3, 1).next;
      s4.history == [u]
  {
    var s1 := AddTask(Empty(), t).next;
    var t1 := WithId(t, 1);
    assert s1.tasks == map[1 := t1] && s1.prioritized == [t1];
    var s2 := GetTaskById(s1, 1).next;
    assert s2.history == [t1];
    assert !IsTaskOverlapping(s2.prioritized, u);
    var s3 := UpdateTask(s2, u).next;
    assert s3.tasks == map[1 := u];
    assert s3.history == [t1];
    assert RemoveIds([t1], {1}) == [];
  }

  // ------------------------------------------------------------- prioritized list

  /** Under the invariant the prioritized list is ordered by start time, ties
      by id; it holds exactly the stored tasks and subtasks that have a start
      time, and never an epic. */
  lemma PrioritizedShape(s: Store)
    requires Inv(s)
    ensures forall i, j :: 0 <= i < j < |s.prioritized| ==>
      s.prioritized[i].startTime.value < s.prioritized[j].startTime.value ||
      (s.prioritized[i].startTime == s.prioritized[j].startTime && s.prioritized[i].id < s.prioritized[j].id)
    ensures forall i :: 0 <= i < |s.prioritized| ==> !s.prioritized[i].Epic?
    ensures forall k :: k in s.tasks ==> (s.tasks[k] in s.prioritized <==> s.tasks[k].startTime.Some?)
    ensures forall k :: k in s.subtasks ==> (s.subtasks[k] in s.prioritized <==> s.subtasks[k].startTime.Some?)
    ensures forall k :: k in s.epics ==> s.epics[k] !in s.prioritized
  {
    var p := s.prioritized;
    forall i, j | 0 <= i < j < |p|
      ensures p[i].startTime.value < p[j].startTime.value ||
        (p[i].startTime == p[j].startTime && p[i].id < p[j].id)
    {
      assert Compare(p[i], p[j]) < 0;
    }
    forall i | 0 <= i < |p| ensures !p[i].Epic? {
      assert Stored(s, p[i]);
    }
    forall k | k in s.tasks ensures s.tasks[k] in p <==> s.tasks[k].startTime.Some? {
      assert Stored(s, s.tasks[k]);
    }
    forall k | k in s.subtasks ensures s.subtasks[k] in p <==> s.subtasks[k].startTime.Some? {
      assert Stored(s, s.subtasks[k]);
    }
  }

  /** Added in the order 15:00, 13:00, 14:00, three tasks come out by start time. */
  lemma PrioritizedScenario(t1: Task, t2: Task, t3: Task)
    requires t1 == Task(0, "Task 1", "desc", New, Some(60), Some(13 * 60))
    requires t2 == Task(0, "Task 2", "desc", New, Some(60), Some(14 * 60))
    requires t3 == Task(0, "Task 3", "desc", New, Some(60), Some(15 * 60))
    ensures var s1 := AddTask(Empty(), t3).next;
      var s2 := AddTask(s1, t1).next;
      var s3 := AddTask(s2, t2).next;
      s3.prioritized == [WithId(t1, 2), WithId(t2, 3), WithId(t3, 1)]
  {
    var a, b, c := WithId(t3, 1), WithId(t1, 2), WithId(t2, 3);
    var s1 := AddTask(Empty(), t3).next;
    assert s1.prioritized == [a];
    var s2 := AddTask(s1, t1).next;
    assert !Overlaps(a, t1);
    assert !IsTaskOverlapping(s1.prioritized, t1);
    assert s2.prioritized == [b, a];
    assert !Overlaps(b, t2) && !Overlaps(a, t2);
    assert !IsTaskOverlapping(s2.prioritized, t2);
    assert Insert([a], c) == [c, a];
  }

  /** A task without a start time stays out of the list; updating the one
      indexed task to have no start time takes it out, leaving the list empty. */
  lemma NullStartScenario(t1: Task, t2: Task, u: Task)
    requires t1 == Task(0, "Task 1", "desc", New, Some(60), None)
    requires t2 == Task(0, "Task 2", "desc", New, Some(60), Some(14 * 60))
    requires u == Task(2, "Task 2", "desc updated", New, Some(60), None)
    ensures var s2 := AddTask(AddTask(Empty(), t1).next, t2).next;
      |s2.prioritized| == 1 && UpdateTask(s2, u).result == Ok(()) &&
      UpdateTask(s2, u).next.prioritized == []
  {
    var a := WithId(t2, 2);
    var s1 := AddTask(Empty(), t1).next;
    assert s1.prioritized == [] && s1.currentId == 2;
    var s2 := AddTask(s1, t2).next;
    assert s2.prioritized == [a] && s2.tasks[2] == a;
    assert !Overlaps(a, u);
    assert !IsTaskOverlapping(s2.prioritized, u);
    assert Remove([a], a) == [] by {
      assert [a][1..] == [];
      assert FilterKeys([a], {Key(a)}) == FilterKeys([], {Key(a)});
    }
  }

  // ------------------------------------------------------------- updates

  /** `updateEpic` keeps the stored epic's list, takes the name and
      description passed, and recomputes; an unknown id throws before any change. */
  lemma UpdateEpicKeepsList(s: Store, e: Task)
    requires Wellformed(s) && e.Epic?
    ensures e.id !in s.epics ==> UpdateEpic(s, e) == Step(s, Err(NullReference))
    ensures e.id in s.epics ==>
      var n := UpdateEpic(s, e).next.epics[e.id];
      n.subtasks == s.epics[e.id].subtasks && n.name == e.name && n.description == e.description &&
      EpicModel.Derived(n)
  {
    if e.id in s.epics {
      EpicModel.RecomputedIsDerived(e, s.epics[e.id].subtasks);
    }
  }

  /** `updateSubtask` for a stored subtask that stays with its epic replaces
      the entry with its id at the same position of the epic's list, leaves
      the other entries, and recomputes the epic. An absent id throws
      `NotFound` with no change. */
  lemma UpdateSubtaskInPlace(s: Store, st: Task)
    requires Inv(s) && st.Subtask? && !IsTaskOverlapping(s.prioritized, st)
    requires st.id in s.subtasks ==> st.epicId == s.subtasks[st.id].epicId
    ensures st.id !in s.subtasks ==> UpdateSubtask(s, st) == Step(s, Err(NotFound))
    ensures st.id in s.subtasks ==>
      var l := s.epics[st.epicId].subtasks;
      var n := UpdateSubtask(s, st).next;
      var l' := n.epics[st.epicId].subtasks;
      UpdateSubtask(s, st).result == Ok(()) && n.subtasks[st.id] == st &&
      |l'| == |l| &&
      (forall i :: 0 <= i < |l| ==> l'[i] == if l[i].id == st.id then st else l[i]) &&
      EpicModel.Derived(n.epics[st.epicId])
  {
    if st.id in s.subtasks {
      SubtaskListed(s, st.id);
      var e := s.epics[st.epicId];
      var l := e.subtasks;
      var k := IndexOfId(l, st.id);
      EpicModel.RecomputedIsDerived(e, l[k := st]);
      forall i | 0 <= i < |l| && i != k ensures l[i].id != st.id {
      }
    }
  }

  /** `updateSubtask` naming an unknown epic throws `NotFound` after writing
      the subtask into the map. */
  lemma UpdateSubtaskUnknownEpic(s: Store, st: Task)
    requires Wellformed(s) && st.Subtask? && !IsTaskOverlapping(s.prioritized, st)
    requires st.id in s.subtasks && st.epicId !in s.epics
    ensures UpdateSubtask(s, st).result == Err(NotFound)
    ensures UpdateSubtask(s, st).next.subtasks == s.subtasks[st.id := st]
  {
  }

  /** `updateTask` stores under the passed id even when nothing was stored there. */
  lemma UpdateTaskUpserts(s: Store, t: Task)
    requires !IsTaskOverlapping(s.prioritized, t)
    ensures UpdateTask(s, t).result == Ok(())
    ensures UpdateTask(s, t).next.tasks == s.tasks[t.id := t]
    ensures t.startTime.None? ==> forall x :: x in UpdateTask(s, t).next.prioritized ==> x in s.prioritized
  {
    if t.id in s.tasks {
      FilterKeysSpec(s.prioritized, {Key(s.tasks[t.id])});
    }
  }

  // ------------------------------------------------------------- deletions

  /** `deleteEpic` on the stored epic removes it and each of its subtasks
      from the maps, the history and the index, and no subtask left names it. */
  lemma DeleteEpicRemovesAll(s: Store, e: Task)
    requires Inv(s) && e.id in s.epics && s.epics[e.id] == e
    ensures var n := DeleteEpic(s, e).next;
      e.id !in n.epics &&
      (forall i :: 0 <= i < |e.subtasks| ==> e.subtasks[i].id !in n.subtasks) &&
      (forall k :: k in n.subtasks ==> n.subtasks[k].epicId != e.id) &&
      (forall i :: 0 <= i < |n.history| ==> n.history[i].id != e.id && !HasId(e.subtasks, n.history[i].id)) &&
      (forall x :: x in n.prioritized ==> !HasId(e.subtasks, x.id))
  {
    var n := DeleteEpic(s, e).next;
    DeleteEpicInv(s, e);
    RemoveIdsSpec(s.history, Ids(e.subtasks) + {e.id});
    forall i | 0 <= i < |n.history| ensures n.history[i].id != e.id && !HasId(e.subtasks, n.history[i].id) {
      assert n.history[i] in n.history;
    }
    forall x | x in n.prioritized ensures !HasId(e.subtasks, x.id) {
      assert Stored(n, x);
    }
    forall k | k in n.subtasks ensures n.subtasks[k].epicId != e.id {
      assert n.subtasks[k].epicId in n.epics;
    }
  }

  /** `deleteSubtask` on the stored subtask takes it off its epic's list
      (recomputing the epic) and out of the map, the history and the index;
      with its epic absent it throws before any change. */
  lemma DeleteSubtaskRemovesAll(s: Store, st: Task)
    requires Wellformed(s) && st.Subtask?
    ensures st.epicId !in s.epics <==> DeleteSubtask(s, st).result == Err(NullReference)
    ensures st.epicId !in s.epics ==> DeleteSubtask(s, st).next == s
    ensures Inv(s) && st.id in s.subtasks && s.subtasks[st.id] == st ==>
      var n := DeleteSubtask(s, st).next;
      st.epicId in n.epics && !HasId(n.epics[st.epicId].subtasks, st.id) &&
      EpicModel.Derived(n.epics[st.epicId]) &&
      st.id !in n.subtasks &&
      (forall i :: 0 <= i < |n.history| ==> n.history[i].id != st.id) &&
      (forall x :: x in n.prioritized ==> x.id != st.id)
  {
    if Inv(s) && st.id in s.subtasks && s.subtasks[st.id] == st {
      var n := DeleteSubtask(s, st).next;
      SubtaskListed(s, st.id);
      var e := s.epics[st.epicId];
      RemoveFirstKeepsOthers(e.subtasks, st.id);
      EpicModel.RecomputedIsDerived(e, RemoveFirst(e.subtasks, st.id));
      DeleteSubtaskInv(s, st);
      RemoveIdsSpec(s.history, {st.id});
      forall i | 0 <= i < |n.history| ensures n.history[i].id != st.id {
        assert n.history[i] in n.history;
      }
      forall x | x in n.prioritized ensures x.id != st.id {
        assert Stored(n, x);
      }
    }
  }
}
