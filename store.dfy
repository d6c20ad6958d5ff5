/**
 * The task store as an abstract state: the three id-keyed maps, the shared id
 * counter, the prioritized index and the view history. Each operation is a
 * function from a state to the next state and the operation's outcome; a
 * failing operation keeps whatever it had already written before it threw.
 */
module TaskStore {
  import opened Wrappers
  import opened Model
  import opened EpicModel
  import opened PriorityIndex
  import opened History

  /** The thrown exceptions: `NotFoundException`, `TaskOverlapException`, and
      the `NullPointerException` of dereferencing a missing epic. */
  datatype Error = NotFound | Overlap | NullReference

  datatype Store = Store(
    tasks: map<int, Task>,
    epics: map<int, Task>,
    subtasks: map<int, Task>,
    prioritized: seq<Task>,
    history: seq<Task>,
    currentId: int)

  /** The state after an operation, and what it returned or threw. */
  datatype Step<T> = Step(next: Store, result: Result<T, Error>)

  /** A new manager: empty maps, empty index and history, counter at 1. */
  function Empty(): Store {
    Store(map[], map[], map[], [], [], 1)
  }

  /** What the declared map types guarantee: the epic map holds epics and the
      subtask map holds subtasks. */
  ghost predicate Wellformed(s: Store) {
    && (forall k :: k in s.epics ==> s.epics[k].Epic?)
    && (forall k :: k in s.subtasks ==> s.subtasks[k].Subtask?)
  }

  // ------------------------------------------------------------- overlap

  /** `isOverlapping`: both items have a start and an end, and the half-open
      intervals [start, end) intersect. */
  predicate Overlaps(a: Task, b: Task) {
    && a.startTime.Some? && EndTime(a).Some? && b.startTime.Some? && EndTime(b).Some?
    && a.startTime.value < EndTime(b).value && b.startTime.value < EndTime(a).value
  }

  /** `isTaskOverlapping`: some indexed item with another id overlaps `t`. */
  predicate IsTaskOverlapping(p: seq<Task>, t: Task) {
    exists i :: 0 <= i < |p| && p[i].id != t.id && Overlaps(p[i], t)
  }

  /** The index keys of the values in `m` that have a start time. */
  function StartKeysOf(m: map<int, Task>): set<(Option<int>, int)> {
    set k | k in m && m[k].startTime.Some? :: Key(m[k])
  }

  /** The index keys of the elements of `l` that have a start time. */
  function StartKeys(l: seq<Task>): set<(Option<int>, int)> {
    set i | 0 <= i < |l| && l[i].startTime.Some? :: Key(l[i])
  }

  /** The ids the values of `m` carry. */
  function ValueIds(m: map<int, Task>): set<int> {
    set k | k in m :: m[k].id
  }

  /** The ids of the subtasks in `m` that name `epicId` as their epic. */
  function OwnedBy(m: map<int, Task>, epicId: int): set<int>
    requires forall k :: k in m ==> m[k].Subtask?
  {
    set k | k in m && m[k].epicId == epicId :: m[k].id
  }

  /** An epic after `clearSubtasks`: `removeSubtask` was called once for each
      subtask naming it, or its fields were not touched if there were none. */
  function ClearedEpic(e: Task, owned: set<int>): Task
    requires e.Epic?
  {
    if owned == {} then e else Recomputed(e, RemoveEach(e.subtasks, owned))
  }

  // ------------------------------------------------------------- operations

  /** `addTask`. */
  function AddTask(s: Store, t: Task): Step<int> {
    if IsTaskOverlapping(s.prioritized, t) then Step(s, Err(Overlap))
    else
      var t' := WithId(t, s.currentId);
      Step(s.(tasks := s.tasks[s.currentId := t'],
              currentId := s.currentId + 1,
              prioritized := if t.startTime.Some? then Insert(s.prioritized, t') else s.prioritized),
           Ok(s.currentId))
  }

  /** `addTask` with the overlap test made on the task under the id it is
      about to receive, so no indexed item is passed over for sharing the
      caller-side id. */
  function AddTaskFreshCheck(s: Store, t: Task): Step<int> {
    var t' := WithId(t, s.currentId);
    if IsTaskOverlapping(s.prioritized, t') then Step(s, Err(Overlap))
    else
      Step(s.(tasks := s.tasks[s.currentId := t'],
              currentId := s.currentId + 1,
              prioritized := if t.startTime.Some? then Insert(s.prioritized, t') else s.prioritized),
           Ok(s.currentId))
  }

  /** `addEpic`: stored as passed, apart from the id; nothing is recomputed. */
  function AddEpic(s: Store, e: Task): Step<int> {
    Step(s.(epics := s.epics[s.currentId := WithId(e, s.currentId)], currentId := s.currentId + 1),
         Ok(s.currentId))
  }

  /** `addSubtask`: the subtask is stored and the counter advanced before the
      epic is looked up, so an unknown epic fails after those writes. */
  function AddSubtask(s: Store, st: Task): Step<int>
    requires Wellformed(s) && st.Subtask?
  {
    if IsTaskOverlapping(s.prioritized, st) then Step(s, Err(Overlap))
    else
      var st' := WithId(st, s.currentId);
      var s1 := s.(subtasks := s.subtasks[s.currentId := st'], currentId := s.currentId + 1);
      if st.epicId !in s.epics then Step(s1, Err(NotFound))
      else
        var e := s.epics[st.epicId];
        Step(s1.(epics := s.epics[st.epicId := Recomputed(e, e.subtasks + [st'])],
                 prioritized := if st.startTime.Some? then Insert(s.prioritized, st') else s.prioritized),
             Ok(s.currentId))
  }

  /** `updateTask`: re-indexes and stores under the task's own id, whether or
      not that id was stored before. */
  function UpdateTask(s: Store, t: Task): Step<()> {
    if IsTaskOverlapping(s.prioritized, t) then Step(s, Err(Overlap))
    else
      var p1 := if t.id in s.tasks && s.tasks[t.id].startTime.Some?
                then Remove(s.prioritized, s.tasks[t.id]) else s.prioritized;
      var p2 := if t.startTime.Some? then Insert(p1, t) else p1;
      Step(s.(tasks := s.tasks[t.id := t], prioritized := p2), Ok(()))
  }

  /** `updateEpic`: the passed epic takes over the stored epic's list, and
      recomputes from it; an unknown id dereferences null. */
  function UpdateEpic(s: Store, e: Task): Step<()>
    requires Wellformed(s) && e.Epic?
  {
    if e.id !in s.epics then Step(s, Err(NullReference))
    else Step(s.(epics := s.epics[e.id := Recomputed(e, s.epics[e.id].subtasks)]), Ok(()))
  }

  /** `updateSubtask`: re-indexes and stores the subtask, then replaces the
      entry with its id in the named epic's list, at the same position. */
  function UpdateSubtask(s: Store, st: Task): Step<()>
    requires Wellformed(s) && st.Subtask?
  {
    if IsTaskOverlapping(s.prioritized, st) then Step(s, Err(Overlap))
    else if st.id !in s.subtasks then Step(s, Err(NotFound))
    else
      var prev := s.subtasks[st.id];
      var p1 := if prev.startTime.Some? then Remove(s.prioritized, prev) else s.prioritized;
      var p2 := if st.startTime.Some? then Insert(p1, st) else p1;
      var s1 := s.(subtasks := s.subtasks[st.id := st], prioritized := p2);
      if st.epicId !in s.epics then Step(s1, Err(NotFound))
      else
        var e := s.epics[st.epicId];
        if HasId(e.subtasks, st.id) then
          var l := e.subtasks[IndexOfId(e.subtasks, st.id) := st];
          Step(s1.(epics := s.epics[st.epicId := Recomputed(e, l)]), Ok(()))
        else Step(s1, Ok(()))
  }

  /** `updateSubtask` refusing a change of epic with `NotFound`, so that no
      subtask stays on the list of an epic it no longer names. */
  function UpdateSubtaskSameEpic(s: Store, st: Task): Step<()>
    requires Wellformed(s) && st.Subtask?
  {
    if st.id in s.subtasks && st.epicId != s.subtasks[st.id].epicId then Step(s, Err(NotFound))
    else UpdateSubtask(s, st)
  }

  /** `deleteTask`: by the passed task's id, and its key in the index. */
  function DeleteTask(s: Store, t: Task): Step<()> {
    Step(s.(tasks := s.tasks - {t.id}, history := RemoveIds(s.history, {t.id}),
            prioritized := Remove(s.prioritized, t)),
         Ok(()))
  }

  /** `deleteEpic`: the subtasks on the passed epic's list, then the epic. */
  function DeleteEpic(s: Store, e: Task): Step<()>
    requires e.Epic?
  {
    var ids := Ids(e.subtasks);
    Step(s.(subtasks := s.subtasks - ids, epics := s.epics - {e.id},
            history := RemoveIds(s.history, ids + {e.id}),
            prioritized := FilterKeys(s.prioritized, StartKeys(e.subtasks))),
         Ok(()))
  }

  /** `deleteSubtask`: off its epic's list (an absent epic dereferences
      null before anything changes), then out of the store. */
  function DeleteSubtask(s: Store, st: Task): Step<()>
    requires Wellformed(s) && st.Subtask?
  {
    if st.epicId !in s.epics then Step(s, Err(NullReference))
    else
      var e := s.epics[st.epicId];
      Step(s.(epics := s.epics[st.epicId := Recomputed(e, RemoveFirst(e.subtasks, st.id))],
              subtasks := s.subtasks - {st.id}, history := RemoveIds(s.history, {st.id}),
              prioritized := Remove(s.prioritized, st)),
           Ok(()))
  }

  /** `clearTasks`. */
  function ClearTasks(s: Store): Step<()> {
    Step(s.(tasks := map[], history := RemoveIds(s.history, ValueIds(s.tasks)),
            prioritized := FilterKeys(s.prioritized, StartKeysOf(s.tasks))),
         Ok(()))
  }

  /** `clearEpics`: every epic and every subtask. */
  function ClearEpics(s: Store): Step<()> {
    Step(s.(epics := map[], subtasks := map[],
            history := RemoveIds(RemoveIds(s.history, ValueIds(s.epics)), ValueIds(s.subtasks)),
            prioritized := FilterKeys(s.prioritized, StartKeysOf(s.subtasks))),
         Ok(()))
  }

  /** `clearSubtasks`: each subtask is taken off the list of the epic it
      names, if that epic exists, then all are dropped. */
  function ClearSubtasks(s: Store): Step<()>
    requires Wellformed(s)
  {
    Step(s.(epics := map x | x in s.epics :: ClearedEpic(s.epics[x], OwnedBy(s.subtasks, x)),
            subtasks := map[],
            history := RemoveIds(s.history, ValueIds(s.subtasks)),
            prioritized := FilterKeys(s.prioritized, StartKeysOf(s.subtasks))),
         Ok(()))
  }

  /** `getTaskById`, `getEpicById`, `getSubtaskById` over the chosen map. */
  function GetById(s: Store, m: map<int, Task>, id: int): Step<Task> {
    if id !in m then Step(s, Err(NotFound))
    else Step(s.(history := Added(s.history, m[id])), Ok(m[id]))
  }

  function GetTaskById(s: Store, id: int): Step<Task> { GetById(s, s.tasks, id) }
  function GetEpicById(s: Store, id: int): Step<Task> { GetById(s, s.epics, id) }
  function GetSubtaskById(s: Store, id: int): Step<Task> { GetById(s, s.subtasks, id) }

  /** `getSubtasksInEpic`: the stored epic's list, looked up by the passed epic's id. */
  function GetSubtasksInEpic(s: Store, e: Task): Result<seq<Task>, Error>
    requires Wellformed(s)
  {
    if e.id !in s.epics then Err(NotFound) else Ok(s.epics[e.id].subtasks)
  }
}
