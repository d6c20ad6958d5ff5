/**
 * `InMemoryTaskManager` as an object: the three maps, the prioritized index,
 * the id counter and the list its `HistoryManager` holds are fields updated
 * in place, and the `clear*` and `deleteEpic` operations loop over their
 * collections. Each method is proved to take the
 * abstract state `State()` exactly where the store's operation of the same
 * name takes it, and to report the same outcome.
 */
module Manager {
  import opened Wrappers
  import opened Model
  import EpicModel
  import opened PriorityIndex
  import opened History
  import opened TaskStore
  import StoreInvariant

  /** The ids of the values of `m` stored under the keys `ks`. */
  ghost function IdsOn(m: map<int, Task>, ks: set<int>): set<int> {
    set k | k in ks && k in m :: m[k].id
  }

  /** The index keys of the values of `m` under `ks` that have a start time. */
  ghost function KeysOn(m: map<int, Task>, ks: set<int>): set<(Option<int>, int)> {
    set k | k in ks && k in m && m[k].startTime.Some? :: Key(m[k])
  }

  /** The ids of the subtasks of `m` under `ks` that name `epicId`. */
  ghost function OwnedOn(m: map<int, Task>, ks: set<int>, epicId: int): set<int> {
    set k | k in ks && k in m && m[k].Subtask? && m[k].epicId == epicId :: m[k].id
  }

  /** Every value is stored under its own id. */
  ghost predicate KeyedById(m: map<int, Task>) {
    forall k :: k in m ==> m[k].id == k
  }

  /** The epic map holds epics, each under its own id. */
  ghost predicate EpicsOk(epics: map<int, Task>) {
    forall k :: k in epics ==> epics[k].Epic? && epics[k].id == k
  }

  /** The subtask map holds subtasks, each under its own id. */
  ghost predicate SubtasksOk(subtasks: map<int, Task>) {
    forall k :: k in subtasks ==> subtasks[k].Subtask? && subtasks[k].id == k
  }

  /** Taking in one more key adds that value's id and index key. */
  lemma OnStep(m: map<int, Task>, ks: set<int>, k: int)
    requires k in m && k !in ks
    ensures IdsOn(m, ks + {k}) == IdsOn(m, ks) + {m[k].id}
    ensures m[k].startTime.Some? ==> KeysOn(m, ks + {k}) == KeysOn(m, ks) + {Key(m[k])}
    ensures m[k].startTime.None? ==> KeysOn(m, ks + {k}) == KeysOn(m, ks)
  {
  }


  /** Taking in one more key adds that subtask to the epic it names. */
  lemma OwnedStep(m: map<int, Task>, ks: set<int>, k: int)
    requires k in m && k !in ks
    ensures forall x :: (OwnedOn(m, ks + {k}, x) ==
      OwnedOn(m, ks, x) + (if m[k].Subtask? && m[k].epicId == x then {m[k].id} else {}))
  {
  }

  /** Over all the keys, the restricted sets are the store's own. */
  lemma OnAll(m: map<int, Task>)
    ensures IdsOn(m, m.Keys) == ValueIds(m)
    ensures KeysOn(m, m.Keys) == StartKeysOf(m)
    ensures (forall k :: k in m ==> m[k].Subtask?) ==> forall x :: OwnedOn(m, m.Keys, x) == OwnedBy(m, x)
  {
  }

  /** Growing a prefix of a list by one element adds its id and index key. */
  lemma PrefixStep(l: seq<Task>, i: nat)
    requires i < |l|
    ensures Ids(l[..i + 1]) == Ids(l[..i]) + {l[i].id}
    ensures StartKeys(l[..i + 1]) == StartKeys(l[..i]) + (if l[i].startTime.Some? then {Key(l[i])} else {})
  {
    var a, b := l[..i], l[..i + 1];
    assert forall j :: 0 <= j < i ==> b[j] == a[j];
    assert b[i] == l[i];
    assert StartKeys(b) == StartKeys(a) + (if l[i].startTime.Some? then {Key(l[i])} else {}) by {
      forall y | y in StartKeys(b) ensures y in StartKeys(a) || (l[i].startTime.Some? && y == Key(l[i])) {
        var j :| 0 <= j < |b| && b[j].startTime.Some? && y == Key(b[j]);
      }
    }
  }

  /** Taking one more subtask off an epic cleared of `owned` is clearing it
      of `owned` and that subtask, whichever order the subtasks come in. */
  lemma ClearedEpicStep(e: Task, owned: set<int>, id: int)
    requires e.Epic? && id !in owned
    ensures ClearedEpic(e, owned).Epic?
    ensures EpicModel.Recomputed(ClearedEpic(e, owned), RemoveFirst(ClearedEpic(e, owned).subtasks, id))
         == ClearedEpic(e, owned + {id})
  {
    var c := ClearedEpic(e, owned);
    if owned == {} {
      RemoveEachNone(e.subtasks);
      assert owned + {id} == {} + {id};
    } else {
      EpicModel.RecomputeIdempotent(e, RemoveEach(e.subtasks, owned), RemoveFirst(c.subtasks, id));
    }
    RemoveEachStep(e.subtasks, owned, id);
  }

  /** The epics after `clearSubtasks` has handled the subtasks under `done`. */
  ghost predicate ClearedSoFar(epics: map<int, Task>, start: map<int, Task>, m: map<int, Task>, done: set<int>)
    requires forall x :: x in start ==> start[x].Epic?
  {
    && epics.Keys == start.Keys
    && forall x :: x in epics ==> epics[x] == ClearedEpic(start[x], OwnedOn(m, done, x))
  }

  /** Handling one more subtask of `m` keeps `ClearedSoFar`. */
  lemma ClearedSoFarStep(epics: map<int, Task>, start: map<int, Task>, m: map<int, Task>, done: set<int>, k: int)
    requires forall x :: x in start ==> start[x].Epic?
    requires SubtasksOk(m) && k in m && k !in done
    requires ClearedSoFar(epics, start, m, done)
    ensures var st := m[k];
      var epics' := if st.epicId in epics
                    then epics[st.epicId := EpicModel.Recomputed(epics[st.epicId], RemoveFirst(epics[st.epicId].subtasks, st.id))]
                    else epics;
      ClearedSoFar(epics', start, m, done + {k})
  {
    var st := m[k];
    OwnedStep(m, done, k);
    var epics' := if st.epicId in epics
                  then epics[st.epicId := EpicModel.Recomputed(epics[st.epicId], RemoveFirst(epics[st.epicId].subtasks, st.id))]
                  else epics;
    forall x | x in epics' ensures epics'[x] == ClearedEpic(start[x], OwnedOn(m, done + {k}, x)) {
      var owned := OwnedOn(m, done, x);
      if x == st.epicId {
        assert OwnedOn(m, done + {k}, x) == owned + {st.id};
        assert st.id !in owned;
        assert epics[x] == ClearedEpic(start[x], owned);
        ClearedEpicStep(start[x], owned, st.id);
      } else {
        assert OwnedOn(m, done + {k}, x) == owned + {};
        assert owned + {} == owned;
      }
    }
  }

  /** Once every subtask is handled, the epics are those `clearSubtasks` leaves. */
  lemma ClearedSoFarDone(epics: map<int, Task>, start: map<int, Task>, m: map<int, Task>)
    requires forall x :: x in start ==> start[x].Epic?
    requires forall k :: k in m ==> m[k].Subtask?
    requires ClearedSoFar(epics, start, m, m.Keys)
    ensures epics == map x | x in start :: ClearedEpic(start[x], OwnedBy(m, x))
  {
    OnAll(m);
  }

  class InMemoryTaskManager {
    /** What the `HistoryManager` holds, oldest first; `InMemoryHistoryManager`
        implements `add` and `remove` as `Added` and `RemoveIds`. */
    var history: seq<Task>
    var currentId: int
    var tasks: map<int, Task>
    var epics: map<int, Task>
    var subtasks: map<int, Task>
    var prioritized: seq<Task>

    /** The abstract state the fields make up. */
    ghost function State(): Store
      reads this
    {
      Store(tasks, epics, subtasks, prioritized, history, currentId)
    }

    /** The maps hold the declared kinds, and every value is stored under its
        own id (every `put` uses it). */
    ghost predicate Valid()
      reads this
    {
      KeyedById(tasks) && EpicsOk(epics) && SubtasksOk(subtasks)
    }

    constructor ()
      ensures Valid() && State() == Empty()
    {
      history := [];
      currentId := 1;
      tasks, epics, subtasks := map[], map[], map[];
      prioritized := [];
    }

    method GetTasks() returns (r: map<int, Task>)
      requires Valid()
      ensures r == State().tasks && KeyedById(r)
    {
      r := tasks;
    }

    method GetEpics() returns (r: map<int, Task>)
      requires Valid()
      ensures r == State().epics && forall k :: k in r ==> r[k].id == k && r[k].Epic?
    {
      r := epics;
    }

    method GetSubtasks() returns (r: map<int, Task>)
      requires Valid()
      ensures r == State().subtasks && forall k :: k in r ==> r[k].id == k && r[k].Subtask?
    {
      r := subtasks;
    }

    method GetPrioritizedTasks() returns (r: seq<Task>)
      requires Valid()
      ensures r == State().prioritized
      ensures StoreInvariant.Inv(State()) ==> Sorted(r) && Scheduled(r)
    {
      r := prioritized;
    }

    method GetHistory() returns (r: seq<Task>)
      requires Valid()
      ensures r == State().history
      ensures StoreInvariant.Inv(State()) ==> DistinctIds(r)
    {
      r := history;
    }

    method AddTask(t: Task) returns (r: Result<int, Error>)
      requires Valid()
      modifies this
      ensures Valid() && TaskStore.AddTask(old(State()), t) == Step(State(), r)
    {
      if TaskStore.IsTaskOverlapping(prioritized, t) {
        return Err(Overlap);
      }
      var t' := WithId(t, currentId);
      tasks := tasks[currentId := t'];
      r := Ok(currentId);
      currentId := currentId + 1;
      if t.startTime.Some? {
        prioritized := Insert(prioritized, t');
      }
    }

    method AddEpic(e: Task) returns (r: Result<int, Error>)
      requires Valid() && e.Epic?
      modifies this
      ensures Valid() && TaskStore.AddEpic(old(State()), e) == Step(State(), r)
    {
      epics := epics[currentId := WithId(e, currentId)];
      r := Ok(currentId);
      currentId := currentId + 1;
    }

    method AddSubtask(st: Task) returns (r: Result<int, Error>)
      requires Valid() && st.Subtask?
      modifies this
      ensures Valid() && TaskStore.AddSubtask(old(State()), st) == Step(State(), r)
    {
      if TaskStore.IsTaskOverlapping(prioritized, st) {
        return Err(Overlap);
      }
      var st' := WithId(st, currentId);
      subtasks := subtasks[currentId := st'];
      var id := currentId;
      currentId := currentId + 1;
      if st.epicId !in epics {
        return Err(NotFound);
      }
      var e0 := epics[st.epicId];
      var e := EpicModel.AddSubtask(e0, st');
      assert e.Epic? && e.id == e0.id by {
        EpicModel.RecomputedIsDerived(e0, e0.subtasks + [st']);
      }
      epics := epics[st.epicId := e];
      if st.startTime.Some? {
        prioritized := Insert(prioritized, st');
      }
      r := Ok(id);
    }

    method UpdateTask(t: Task) returns (r: Result<(), Error>)
      requires Valid()
      modifies this
      ensures Valid() && TaskStore.UpdateTask(old(State()), t) == Step(State(), r)
    {
      if TaskStore.IsTaskOverlapping(prioritized, t) {
        return Err(Overlap);
      }
      if t.id in tasks && tasks[t.id].startTime.Some? {
        prioritized := PriorityIndex.Remove(prioritized, tasks[t.id]);
      }
      if t.startTime.Some? {
        prioritized := Insert(prioritized, t);
      }
      tasks := tasks[t.id := t];
      r := Ok(());
    }

    method UpdateEpic(e: Task) returns (r: Result<(), Error>)
      requires Valid() && e.Epic?
      modifies this
      ensures Valid() && TaskStore.UpdateEpic(old(State()), e) == Step(State(), r)
    {
      if e.id !in epics {
        return Err(NullReference);
      }
      var e' := EpicModel.SetSubtasks(e, epics[e.id].subtasks);
      assert e'.Epic? && e'.id == e.id by {
        EpicModel.RecomputedIsDerived(e, epics[e.id].subtasks);
      }
      epics := epics[e.id := e'];
      r := Ok(());
    }

    method UpdateSubtask(st: Task) returns (r: Result<(), Error>)
      requires Valid() && st.Subtask?
      modifies this
      ensures Valid() && TaskStore.UpdateSubtask(old(State()), st) == Step(State(), r)
    {
      if TaskStore.IsTaskOverlapping(prioritized, st) {
        return Err(Overlap);
      }
      if st.id !in subtasks {
        return Err(NotFound);
      }
      var prev := subtasks[st.id];
      if prev.startTime.Some? {
        prioritized := PriorityIndex.Remove(prioritized, prev);
      }
      if st.startTime.Some? {
        prioritized := Insert(prioritized, st);
      }
      subtasks := subtasks[st.id := st];
      if st.epicId !in epics {
        return Err(NotFound);
      }
      var e := epics[st.epicId];
      if HasId(e.subtasks, st.id) {
        var l := e.subtasks[IndexOfId(e.subtasks, st.id) := st];
        var e' := EpicModel.SetSubtasks(e, l);
        assert e'.Epic? && e'.id == e.id by {
          EpicModel.RecomputedIsDerived(e, l);
        }
        epics := epics[st.epicId := e'];
      }
      r := Ok(());
    }

    method GetTaskById(id: int) returns (r: Result<Task, Error>)
      requires Valid()
      modifies this`history
      ensures Valid() && TaskStore.GetTaskById(old(State()), id) == Step(State(), r)
    {
      r := GetFrom(tasks, id);
    }

    method GetEpicById(id: int) returns (r: Result<Task, Error>)
      requires Valid()
      modifies this`history
      ensures Valid() && TaskStore.GetEpicById(old(State()), id) == Step(State(), r)
    {
      r := GetFrom(epics, id);
    }

    method GetSubtaskById(id: int) returns (r: Result<Task, Error>)
      requires Valid()
      modifies this`history
      ensures Valid() && TaskStore.GetSubtaskById(old(State()), id) == Step(State(), r)
    {
      r := GetFrom(subtasks, id);
    }

    /** The lookup the three getters share: a miss throws, a hit is recorded. */
    method GetFrom(m: map<int, Task>, id: int) returns (r: Result<Task, Error>)
      modifies this`history
      ensures GetById(old(State()), m, id) == Step(State(), r)
    {
      if id !in m {
        return Err(NotFound);
      }
      history := Added(history, m[id]);
      r := Ok(m[id]);
    }

    method GetSubtasksInEpic(e: Task) returns (r: Result<seq<Task>, Error>)
      requires Valid()
      ensures r == TaskStore.GetSubtasksInEpic(State(), e)
      ensures r.Ok? ==> forall i :: 0 <= i < |r.value| ==> r.value[i] in State().epics[e.id].subtasks
    {
      if e.id !in epics {
        return Err(NotFound);
      }
      r := Ok(epics[e.id].subtasks);
    }

    method DeleteTask(t: Task) returns (r: Result<(), Error>)
      requires Valid()
      modifies this
      ensures Valid() && TaskStore.DeleteTask(old(State()), t) == Step(State(), r)
    {
      tasks := tasks - {t.id};
      history := RemoveIds(history, {t.id});
      prioritized := FilterKeys(prioritized, {Key(t)});
      r := Ok(());
    }

    method DeleteSubtask(st: Task) returns (r: Result<(), Error>)
      requires Valid() && st.Subtask?
      modifies this
      ensures Valid() && TaskStore.DeleteSubtask(old(State()), st) == Step(State(), r)
    {
      if st.epicId !in epics {
        return Err(NullReference);
      }
      var e0 := epics[st.epicId];
      var e := EpicModel.RemoveSubtask(e0, st);
      assert e.Epic? && e.id == e0.id by {
        EpicModel.RecomputedIsDerived(e0, RemoveFirst(e0.subtasks, st.id));
      }
      epics := epics[st.epicId := e];
      subtasks := subtasks - {st.id};
      history := RemoveIds(history, {st.id});
      prioritized := FilterKeys(prioritized, {Key(st)});
      r := Ok(());
    }

    /** `epic.removeSubtask(subtask)` on the epic the subtask names, if stored. */
    method Detach(st: Task)
      requires EpicsOk(epics) && st.Subtask?
      modifies this`epics
      ensures EpicsOk(epics)
      ensures epics == if st.epicId in old(epics)
                       then old(epics)[st.epicId := EpicModel.Recomputed(old(epics)[st.epicId],
                              RemoveFirst(old(epics)[st.epicId].subtasks, st.id))]
                       else old(epics)
    {
      if st.epicId in epics {
        var e0 := epics[st.epicId];
        var e := EpicModel.RemoveSubtask(e0, st);
        assert e.Epic? && e.id == e0.id by {
          EpicModel.RecomputedIsDerived(e0, RemoveFirst(e0.subtasks, st.id));
        }
        epics := epics[st.epicId := e];
      }
    }

    /** The `forEach` loops of `clearTasks` and `clearEpics`: every value of
        `m` is forgotten, in an order left open. */
    method ForgetAll(m: map<int, Task>, unindex: bool)
      modifies this`history, this`prioritized
      ensures history == RemoveIds(old(history), ValueIds(m))
      ensures prioritized == if unindex then FilterKeys(old(prioritized), StartKeysOf(m)) else old(prioritized)
    {
      ghost var h, p := history, prioritized;
      var ks := m.Keys;
      ghost var done: set<int> := {};
      RemoveIdsAbsent(h, {});
      FilterKeysAbsent(p, {});
      assert IdsOn(m, done) == {} && KeysOn(m, done) == {};
      while ks != {}
        invariant ks !! done && ks + done == m.Keys
        invariant history == RemoveIds(h, IdsOn(m, done))
        invariant prioritized == if unindex then FilterKeys(p, KeysOn(m, done)) else p
        decreases ks
      {
        var k := Pick(ks);
        var t := m[k];
        OnStep(m, done, k);
        RemoveIdsTwice(h, IdsOn(m, done), {t.id});
        history := RemoveIds(history, {t.id});
        if unindex && t.startTime.Some? {
          FilterKeysTwice(p, KeysOn(m, done), {Key(t)});
          prioritized := FilterKeys(prioritized, {Key(t)});
        }
        ks, done := ks - {k}, done + {k};
      }
      OnAll(m);
    }

    method ClearTasks()
      requires Valid()
      modifies this
      ensures Valid() && State() == TaskStore.ClearTasks(old(State())).next
    {
      ForgetAll(tasks, true);
      tasks := map[];
    }

    method ClearEpics()
      requires Valid()
      modifies this
      ensures Valid() && State() == TaskStore.ClearEpics(old(State())).next
    {
      ForgetAll(epics, false);
      epics := map[];
      ForgetAll(subtasks, true);
      subtasks := map[];
    }

    method ClearSubtasks()
      requires Valid()
      modifies this
      ensures Valid() && State() == TaskStore.ClearSubtasks(old(State())).next
    {
      ghost var s := State();
      DetachAndForgetAll();
      OnAll(subtasks);
      ClearedSoFarDone(epics, s.epics, subtasks);
      subtasks := map[];
    }

    /** The `forEach` loop of `clearSubtasks`: each subtask, in an order left
        open, is taken off the epic it names and forgotten. */
    method DetachAndForgetAll()
      requires EpicsOk(epics) && SubtasksOk(subtasks)
      modifies this`history, this`epics, this`prioritized
      ensures EpicsOk(epics)
      ensures ClearedSoFar(epics, old(epics), subtasks, subtasks.Keys)
      ensures history == RemoveIds(old(history), IdsOn(subtasks, subtasks.Keys))
      ensures prioritized == FilterKeys(old(prioritized), KeysOn(subtasks, subtasks.Keys))
    {
      ghost var e0, h, p := epics, history, prioritized;
      var ks := subtasks.Keys;
      ghost var done: set<int> := {};
      RemoveIdsAbsent(h, {});
      FilterKeysAbsent(p, {});
      assert IdsOn(subtasks, done) == {} && KeysOn(subtasks, done) == {};
      assert forall x :: OwnedOn(subtasks, done, x) == {};
      while ks != {}
        invariant EpicsOk(epics)
        invariant ks !! done && ks + done == subtasks.Keys
        invariant ClearedSoFar(epics, e0, subtasks, done)
        invariant history == RemoveIds(h, IdsOn(subtasks, done))
        invariant prioritized == FilterKeys(p, KeysOn(subtasks, done))
        decreases ks
      {
        var k := Pick(ks);
        var st := subtasks[k];
        OnStep(subtasks, done, k);
        ClearedSoFarStep(epics, e0, subtasks, done, k);
        Detach(st);
        RemoveIdsTwice(h, IdsOn(subtasks, done), {st.id});
        history := RemoveIds(history, {st.id});
        if st.startTime.Some? {
          FilterKeysTwice(p, KeysOn(subtasks, done), {Key(st)});
          prioritized := FilterKeys(prioritized, {Key(st)});
        }
        ks, done := ks - {k}, done + {k};
      }
    }

    method DeleteEpic(e: Task) returns (r: Result<(), Error>)
      requires Valid() && e.Epic?
      modifies this
      ensures Valid() && TaskStore.DeleteEpic(old(State()), e) == Step(State(), r)
    {
      ghost var s := State();
      ForgetEach(e.subtasks);
      epics := epics - {e.id};
      history := RemoveIds(history, {e.id});
      RemoveIdsTwice(s.history, Ids(e.subtasks), {e.id});
      r := Ok(());
    }

    /** The loop of `deleteEpic` over the epic's own subtask list: each
        listed subtask leaves the subtask map, the history and the index. */
    method ForgetEach(l: seq<Task>)
      requires SubtasksOk(subtasks)
      modifies this`subtasks, this`history, this`prioritized
      ensures SubtasksOk(subtasks)
      ensures subtasks == old(subtasks) - Ids(l)
      ensures history == RemoveIds(old(history), Ids(l))
      ensures prioritized == FilterKeys(old(prioritized), StartKeys(l))
    {
      ghost var s, h, p := subtasks, history, prioritized;
      RemoveIdsAbsent(h, {});
      FilterKeysAbsent(p, {});
      assert Ids(l[..0]) == {} && StartKeys(l[..0]) == {};
      for i := 0 to |l|
        invariant SubtasksOk(subtasks)
        invariant subtasks == s - Ids(l[..i])
        invariant history == RemoveIds(h, Ids(l[..i]))
        invariant prioritized == FilterKeys(p, StartKeys(l[..i]))
      {
        var st := l[i];
        PrefixStep(l, i);
        subtasks := subtasks - {st.id};
        RemoveIdsTwice(h, Ids(l[..i]), {st.id});
        history := RemoveIds(history, {st.id});
        if st.startTime.Some? {
          FilterKeysTwice(p, StartKeys(l[..i]), {Key(st)});
          prioritized := FilterKeys(prioritized, {Key(st)});
        } else {
          assert StartKeys(l[..i + 1]) == StartKeys(l[..i]);
        }
      }
      assert l[..|l|] == l;
    }
  }

  lemma NonEmpty(ks: set<int>)
    requires ks != {}
    ensures exists k :: k in ks
  {
    if forall k :: k !in ks {
      assert false;
    }
  }

  /** Takes one key out of a non-empty key set; which one is left open, as
      the iteration order of a Java hash map is. */
  method Pick(ks: set<int>) returns (k: int)
    requires ks != {}
    ensures k in ks
  {
    NonEmpty(ks);
    k :| k in ks;
  }
}
