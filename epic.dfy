/**
 * An epic's derived fields. Whenever its subtask list changes (append,
 * remove, replace) the epic recomputes its status with a single pass over
 * the list and its duration, start and end with three folds.
 */
module EpicModel {
  import opened Wrappers
  import opened Model

  // ---------------------------------------------------------------- status

  predicate AllHaveStatus(subs: seq<Task>, st: Status) {
    forall i :: 0 <= i < |subs| ==> subs[i].status == st
  }

  /** The status rule: NEW with no subtasks or when all are NEW, DONE when
      all are DONE, IN_PROGRESS otherwise. */
  function StatusOf(subs: seq<Task>): Status {
    if |subs| == 0 then New
    else if AllHaveStatus(subs, New) then New
    else if AllHaveStatus(subs, Done) then Done
    else InProgress
  }

  /** `updateStatus`: one pass that clears `allNew` / `allDone` on the first
      subtask that is not NEW / not DONE. */
  method UpdateStatus(subs: seq<Task>) returns (st: Status)
    ensures st == StatusOf(subs)
    ensures st == New <==> AllHaveStatus(subs, New)
    ensures st == Done <==> |subs| > 0 && AllHaveStatus(subs, Done)
    ensures st == InProgress <==>
      (exists i :: 0 <= i < |subs| && subs[i].status != New) &&
      (exists j :: 0 <= j < |subs| && subs[j].status != Done)
  {
    if |subs| == 0 {
      return New;
    }
    var allNew, allDone := true, true;
    for i := 0 to |subs|
      invariant allNew <==> AllHaveStatus(subs[..i], New)
      invariant allDone <==> AllHaveStatus(subs[..i], Done)
    {
      if subs[i].status != New {
        allNew := false;
      }
      if subs[i].status != Done {
        allDone := false;
      }
      assert subs[..i + 1] == subs[..i] + [subs[i]];
    }
    assert subs[..|subs|] == subs;
    if !allDone && !allNew {
      st := InProgress;
    } else if allNew {
      st := New;
      assert subs[0].status == New;
    } else {
      st := Done;
      assert subs[0].status == Done;
    }
  }

  // ----------------------------------------------------------- time fields

  function DurationOrZero(t: Task): int {
    if t.duration.Some? then t.duration.value else 0
  }

  /** Sum of the durations that are present; absent ones add nothing. */
  function TotalDuration(subs: seq<Task>): int {
    if |subs| == 0 then 0 else DurationOrZero(subs[0]) + TotalDuration(subs[1..])
  }

  function MinOpt(a: Option<int>, b: Option<int>): Option<int> {
    if a.None? then b else if b.None? then a
    else if a.value <= b.value then a else b
  }

  function MaxOpt(a: Option<int>, b: Option<int>): Option<int> {
    if a.None? then b else if b.None? then a
    else if a.value >= b.value then a else b
  }

  /** The earliest start time present among the subtasks; absent if none has one. */
  function EarliestStart(subs: seq<Task>): (r: Option<int>)
    ensures r.None? <==> forall i :: 0 <= i < |subs| ==> subs[i].startTime.None?
    ensures r.Some? ==> exists i :: 0 <= i < |subs| && subs[i].startTime == r
    ensures r.Some? ==> forall i :: 0 <= i < |subs| && subs[i].startTime.Some? ==>
      r.value <= subs[i].startTime.value
  {
    if |subs| == 0 then None
    else
      var rest := EarliestStart(subs[1..]);
      assert forall i :: 1 <= i < |subs| ==> subs[i] == subs[1..][i - 1];
      MinOpt(subs[0].startTime, rest)
  }

  /** The latest end time present among the subtasks; absent if none has one. */
  function LatestEnd(subs: seq<Task>): (r: Option<int>)
    ensures r.None? <==> forall i :: 0 <= i < |subs| ==> EndTime(subs[i]).None?
    ensures r.Some? ==> exists i :: 0 <= i < |subs| && EndTime(subs[i]) == r
    ensures r.Some? ==> forall i :: 0 <= i < |subs| && EndTime(subs[i]).Some? ==>
      EndTime(subs[i]).value <= r.value
  {
    if |subs| == 0 then None
    else
      var rest := LatestEnd(subs[1..]);
      assert forall i :: 1 <= i < |subs| ==> subs[i] == subs[1..][i - 1];
      MaxOpt(EndTime(subs[0]), rest)
  }

  // --------------------------------------------------------- recomputation

  /** The epic after its list is set to `subs` and its derived fields recomputed. */
  function Recomputed(e: Task, subs: seq<Task>): (r: Task)
    requires e.Epic?
  {
    e.(subtasks := subs, status := StatusOf(subs), duration := Some(TotalDuration(subs)),
       startTime := EarliestStart(subs), endTime := LatestEnd(subs))
  }

  /** An epic whose status and time fields agree with its own subtask list. */
  predicate Derived(e: Task) {
    e.Epic? && e == Recomputed(e, e.subtasks)
  }

  /** `setSubtasks`: replaces the list, then runs `updateStatus` and `updateTimeFields`. */
  method SetSubtasks(e: Task, subs: seq<Task>) returns (r: Task)
    requires e.Epic?
    ensures r == Recomputed(e, subs)
  {
    var st := UpdateStatus(subs);
    r := e.(subtasks := subs, status := st, duration := Some(TotalDuration(subs)),
            startTime := EarliestStart(subs), endTime := LatestEnd(subs));
  }

  /** `addSubtask`: appends, then recomputes. */
  method AddSubtask(e: Task, s: Task) returns (r: Task)
    requires e.Epic?
    ensures r == Recomputed(e, e.subtasks + [s])
  {
    r := SetSubtasks(e, e.subtasks + [s]);
  }

  /** `removeSubtask`: drops the first subtask with the same id, then recomputes. */
  method RemoveSubtask(e: Task, s: Task) returns (r: Task)
    requires e.Epic?
    ensures r == Recomputed(e, RemoveFirst(e.subtasks, s.id))
  {
    r := SetSubtasks(e, RemoveFirst(e.subtasks, s.id));
  }

  // ---------------------------------------------------------------- lemmas

  /** Recomputation keeps the epic's identity, name and description, and
      leaves it consistent with the new list. */
  lemma RecomputedIsDerived(e: Task, subs: seq<Task>)
    requires e.Epic?
    ensures Derived(Recomputed(e, subs))
    ensures Recomputed(e, subs).subtasks == subs
    ensures Recomputed(e, subs).id == e.id && Recomputed(e, subs).name == e.name
    ensures Recomputed(e, subs).description == e.description
  {
  }

  /** The derived fields depend only on the list: recomputing again with the
      same list changes nothing, and a later recomputation supersedes an earlier one. */
  lemma RecomputeIdempotent(e: Task, l1: seq<Task>, l2: seq<Task>)
    requires e.Epic?
    ensures Recomputed(Recomputed(e, l1), l1) == Recomputed(e, l1)
    ensures Recomputed(Recomputed(e, l1), l2) == Recomputed(e, l2)
  {
  }

  /** With no subtasks: NEW, zero duration, no start and no end. */
  lemma EmptyEpicFields(e: Task)
    requires e.Epic?
    ensures Recomputed(e, []).status == New
    ensures Recomputed(e, []).duration == Some(0)
    ensures Recomputed(e, []).startTime.None? && Recomputed(e, []).endTime.None?
  {
  }

  /** The three cases of the status rule, each in both directions. */
  lemma StatusCases(subs: seq<Task>)
    ensures StatusOf(subs) == New <==> AllHaveStatus(subs, New)
    ensures StatusOf(subs) == Done <==> |subs| > 0 && AllHaveStatus(subs, Done)
    ensures StatusOf(subs) == InProgress <==>
      (exists i :: 0 <= i < |subs| && subs[i].status != New) &&
      (exists j :: 0 <= j < |subs| && subs[j].status != Done)
  {
    if |subs| > 0 && AllHaveStatus(subs, Done) {
      assert subs[0].status == Done;
    }
  }

  /** The total duration of a concatenation is the sum of the totals. */
  lemma {:induction false} TotalDurationAppend(a: seq<Task>, b: seq<Task>)
    ensures TotalDuration(a + b) == TotalDuration(a) + TotalDuration(b)
  {
    if |a| > 0 {
      assert (a + b)[1..] == a[1..] + b;
      TotalDurationAppend(a[1..], b);
    } else {
      assert a + b == b;
    }
  }

  /** The total is zero when no duration is present, and never negative when
      every present duration is non-negative. */
  lemma {:induction false} TotalDurationBounds(subs: seq<Task>)
    ensures (forall i :: 0 <= i < |subs| ==> subs[i].duration.None?) ==> TotalDuration(subs) == 0
    ensures (forall i :: 0 <= i < |subs| && subs[i].duration.Some? ==> subs[i].duration.value >= 0)
      ==> TotalDuration(subs) >= 0
  {
    if |subs| > 0 {
      assert forall i :: 1 <= i < |subs| ==> subs[i] == subs[1..][i - 1];
      TotalDurationBounds(subs[1..]);
    }
  }

  /** An epic built from name and description alone is NEW; two NEW
      subtasks (13:00 for 60 minutes, 14:00 for 240 minutes) keep it NEW, and
      it then runs from 13:00 to 18:00 for 300 minutes. */
  lemma EpicScenarioAllNew(e0: Task, s1: Task, s2: Task)
    requires e0 == NewEpic(0, "test epic", "epic desc")
    requires s1 == Subtask(0, "subtask 1", "subtask desc", New, Some(60), Some(13 * 60), 1)
    requires s2 == Subtask(0, "subtask 2", "subtask desc", New, Some(240), Some(14 * 60), 1)
    ensures e0.status == New
    ensures var e2 := Recomputed(Recomputed(e0, e0.subtasks + [s1]), [s1] + [s2]);
            e2.status == New && e2.subtasks == [s1, s2] && e2.startTime == Some(13 * 60) &&
            e2.endTime == Some(18 * 60) && e2.duration == Some(300)
  {
    assert e0.subtasks + [s1] == [s1];
    assert [s1] + [s2] == [s1, s2];
    assert [s1, s2][1..] == [s2];
    assert [s2][1..] == [];
    assert EarliestStart([s1, s2]) == Some(13 * 60);
    assert LatestEnd([s1, s2]) == Some(18 * 60);
    assert TotalDuration([s2]) == 240 by { assert TotalDuration([s2][1..]) == 0; }
    assert AllHaveStatus([s1, s2], New);
  }

  /** Two DONE subtasks (the same times) make the epic DONE. */
  lemma EpicScenarioAllDone(e0: Task, s1: Task, s2: Task)
    requires e0 == NewEpic(0, "test epic", "epic desc")
    requires s1 == Subtask(0, "subtask 1", "subtask desc", Done, Some(60), Some(13 * 60), 1)
    requires s2 == Subtask(0, "subtask 2", "subtask desc", Done, Some(240), Some(14 * 60), 1)
    ensures Recomputed(e0, [s1, s2]).status == Done
  {
    assert AllHaveStatus([s1, s2], Done);
    assert [s1, s2][0].status != New;
  }

  /** A NEW and a DONE subtask make the epic IN_PROGRESS. */
  lemma EpicScenarioMixed(e0: Task, s1: Task, s2: Task)
    requires e0 == NewEpic(0, "test epic", "epic desc")
    requires s1 == Subtask(0, "subtask 1", "subtask desc", New, Some(60), Some(13 * 60), 1)
    requires s2 == Subtask(0, "subtask 2", "subtask desc", Done, Some(240), Some(14 * 60), 1)
    ensures Recomputed(e0, [s1, s2]).status == InProgress
  {
    assert [s1, s2][1].status != New;
    assert [s1, s2][0].status != Done;
  }

  /** A DONE subtask 2 and a NEW subtask 3 give IN_PROGRESS; removing
      subtask 3 leaves DONE, and removing subtask 2 as well leaves NEW. */
  lemma EpicScenarioRemoval(e0: Task, s1: Task, s2: Task)
    requires e0 == NewEpic(0, "test epic", "epic desc")
    requires s1 == Subtask(2, "subtask 1", "subtask desc", Done, Some(60), Some(13 * 60), 1)
    requires s2 == Subtask(3, "subtask 2", "subtask desc", New, Some(240), Some(14 * 60), 1)
    ensures var e2 := Recomputed(e0, [s1, s2]);
            var e3 := Recomputed(e2, RemoveFirst(e2.subtasks, s2.id));
            var e4 := Recomputed(e3, RemoveFirst(e3.subtasks, s1.id));
            e2.status == InProgress && e3.subtasks == [s1] && e3.status == Done &&
            e4.subtasks == [] && e4.status == New
  {
    assert [s1, s2][0].status != New && [s1, s2][1].status != Done;
    assert [s1, s2][1..] == [s2];
    assert RemoveFirst([s2], s2.id) == [];
    assert RemoveFirst([s1, s2], s2.id) == [s1];
    assert RemoveFirst([s1], s1.id) == [];
    assert StatusOf([s1]) == Done by {
      assert [s1][0].status != New;
      assert AllHaveStatus([s1], Done);
    }
  }
}
