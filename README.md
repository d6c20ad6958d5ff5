# java-kanban in Dafny

A model of the core of java-kanban, a task tracker with tasks, epics and subtasks. It covers:

- **The in-memory store** (`InMemoryTaskManager`). There are three id-keyed maps, one shared id counter and a
  start-time-ordered "prioritized" index. Adds, updates, lookups, deletes and clears run against them. Before
  writing a task or subtask, the store checks it against the index for time overlap, using half-open intervals.
- **Epic recomputation** (`Epic`). An epic's status, total duration, start and end come from its subtask list.
- **The view history** (`InMemoryHistoryManager`). It is a doubly linked list of nodes plus a map from id to node.
  Viewing an item again moves it to the tail, and removal unlinks a node in place.
- **Three small codecs:**
  - the CSV line format of `FileBackedTaskManager` (`toString` / `fromString`);
  - the path-and-method router of `BaseHttpHandler`;
  - the `"hh:mm"` JSON form of durations (`DurationTypeAdapter`).

Times and durations are whole minutes (`int`). `Task`, `Epic` and `Subtask` are the three constructors of one
datatype `Model.Task`. The store works in two layers:

- `TaskStore` gives each operation as a function from the abstract state `Store` to the next state and an outcome.
- The class `Manager.InMemoryTaskManager` holds the maps, the counter, the index and the history as fields. Its
  methods update those fields in place and loop where the source loops: the `clear*` operations and `deleteEpic`.
  Each method is proved to take `State()` exactly where the `TaskStore` function does.

`StoreInvariant.Inv` is the store's global invariant:

- ids are keys;
- the counter is fresh;
- the maps are disjoint;
- epics' lists hold stored subtasks, and epics' derived fields agree with their lists;
- the index holds exactly the scheduled tasks and subtasks, in comparator order, with no two overlapping;
- the history holds one entry per live id.

`StoreInvariant` proves which operations keep it, and under which conditions. `StoreProperties` states what each
operation promises to a caller.

The history keeps the same separation. `History.RemoveIds` and `History.Added` say what `remove` and `add` do to the
sequence of viewed items. The linked class `History.InMemoryHistoryManager` is proved to change its ghost `Entries`
exactly by those functions, through `head`, `tail`, `prev`/`next` and the map. The store's `history` field is that
sequence.

| file | module | models |
|---|---|---|
| wrappers.dfy | Wrappers | `Option`, `Result` |
| text.dfy | JavaText | `String.split` on one character, `Integer.parseInt`, decimal printing |
| tasks.dfy | Model | the item datatype, end time, id-based list helpers |
| epic.dfy | EpicModel | `Epic.updateStatus`, `updateTimeFields`, `setSubtasks`, `addSubtask`, `removeSubtask` |
| index.dfy | PriorityIndex | the prioritized `TreeSet` and its comparator |
| history.dfy | History | `InMemoryHistoryManager` and its `Node` list |
| store.dfy | TaskStore | the store operations as functions of the state |
| invariant.dfy | StoreInvariant | the store invariant and its preservation |
| properties.dfy | StoreProperties | caller-visible promises of the store operations |
| manager.dfy | Manager | `InMemoryTaskManager` as a class with in-place updates |
| csv.dfy | Csv | `FileBackedTaskManager.toString` / `fromString` |
| router.dfy | Router | `BaseHttpHandler.resolve*Endpoint` |
| duration.dfy | DurationJson | `DurationTypeAdapter.write` / `read` |

## Model

| member | source | states |
|---|---|---|
| Model.EndTime | src/model/Epic.java:80-83 | a task or subtask has an end exactly when it has both a start and a duration, and the end is start plus duration; an epic answers with its stored end |
| Model.WithId | src/service/InMemoryTaskManager.java:125-127 | `setId` changes the id and nothing else: kind, fields, list, epic id and end time are kept |
| Model.NewEpic | src/model/Epic.java:20-23 | a constructed epic has the given id, name and description, status NEW, no subtasks and no times |
| Model.RemoveFirst | src/model/Epic.java:41-45 | `List.remove` by id: splices out the first element with the id, keeping the order of the rest; the list is unchanged when no element has it |
| Model.RemoveFirstKeepsOthers | src/model/Epic.java:41-45 | on a list without repeated ids, removal leaves no element with that id, keeps every other element and introduces no repeats |
| EpicModel.UpdateStatus | src/model/Epic.java:47-72 | the flag loop yields NEW exactly when every subtask is NEW (an empty list included), DONE exactly when the list is non-empty and all are DONE, IN_PROGRESS exactly when some subtask is not NEW and some is not DONE |
| EpicModel.StatusCases | src/model/Epic.java:51-71 | the three status cases of the rule, each as an if-and-only-if over the subtask statuses |
| EpicModel.EarliestStart | src/model/Epic.java:76 | absent exactly when no subtask has a start; otherwise it is some subtask's start and no later than any subtask's start |
| EpicModel.LatestEnd | src/model/Epic.java:77 | absent exactly when no subtask has an end; otherwise it is some subtask's end and no earlier than any subtask's end |
| EpicModel.TotalDurationAppend | src/model/Epic.java:75 | the duration sum over two lists in sequence is the sum of the two sums |
| EpicModel.TotalDurationBounds | src/model/Epic.java:75 | the sum is zero when no subtask has a duration, and non-negative when every present duration is |
| EpicModel.SetSubtasks | src/model/Epic.java:29-33 | the result is the passed epic recomputed from the new list |
| EpicModel.AddSubtask | src/model/Epic.java:35-39 | the result is the epic recomputed from its list with the subtask appended |
| EpicModel.RemoveSubtask | src/model/Epic.java:41-45 | the result is the epic recomputed from its list without the first same-id subtask |
| EpicModel.RecomputedIsDerived | src/model/Epic.java:74-78 | recomputation keeps id, name, description and the given list, and yields an epic whose status and times agree with its list |
| EpicModel.RecomputeIdempotent | src/model/Epic.java:47-78 | recomputing a recomputed epic from the same list changes nothing, and recomputation from a list ignores every earlier derived value |
| EpicModel.EmptyEpicFields | src/model/Epic.java:51-54 | an epic recomputed from an empty list is NEW, has duration zero, and no start or end |
| EpicModel.EpicScenarioAllNew | test/model/EpicTest.java:25-39 | an epic built from name and description is NEW; with two NEW subtasks (13:00 for 60 minutes, 14:00 for 240 minutes) it stays NEW, holds both, and spans 13:00 to 18:00 with 300 minutes in all |
| EpicModel.EpicScenarioAllDone | test/model/EpicTest.java:41-49 | two DONE subtasks make the epic DONE |
| EpicModel.EpicScenarioMixed | test/model/EpicTest.java:51-59 | a NEW and a DONE subtask make the epic IN_PROGRESS |
| EpicModel.EpicScenarioRemoval | test/model/EpicTest.java:61-73 | a DONE and a NEW subtask give IN_PROGRESS; removing the NEW one leaves the DONE one alone and the epic DONE; removing that one too leaves an empty list and NEW |
| PriorityIndex.CompareIsOrder | src/service/InMemoryTaskManager.java:22-32 | the comparator returns zero exactly for equal (start, id) keys, is antisymmetric and transitive: a strict total order on keys |
| PriorityIndex.InsertMembers | src/service/InMemoryTaskManager.java:128-130 | `TreeSet.add` leaves the set unchanged when an element with the same key is present, and otherwise adds exactly the new element |
| PriorityIndex.InsertSorted | src/service/InMemoryTaskManager.java:128-130 | insertion keeps the index in comparator order |
| PriorityIndex.InsertScheduled | src/service/InMemoryTaskManager.java:154-156 | inserting an item with a start keeps every element scheduled and adds nothing but that item |
| PriorityIndex.FilterKeysSpec | src/service/InMemoryTaskManager.java:166 | `TreeSet.remove` keeps exactly the elements whose key is not removed, and keeps the order and the scheduling |
| PriorityIndex.FilterKeysAbsent | src/service/InMemoryTaskManager.java:218 | removing keys no element has changes nothing |
| History.RemoveIdsSpec | src/service/InMemoryHistoryManager.java:30-36 | removal keeps exactly the entries with other ids, introduces no repeated id, and never lengthens the history |
| History.RemoveIdsAbsent | test/InMemoryHistoryManagerTest.java:47-53 | removing an id that no entry has is a no-op |
| History.RemoveIdAt | src/service/InMemoryHistoryManager.java:60-77 | in a history without repeats, removing the id at position k is splicing out position k: the other entries keep their relative order |
| History.AddedSpec | src/service/InMemoryHistoryManager.java:22-28 | after `add`, the item is the newest entry and the only one with its id; the other entries are kept; no id repeats; the length grows by one exactly when the id was new |
| History.AddedAbsent | src/service/InMemoryHistoryManager.java:38-48 | adding an id not yet present appends the item at the tail and changes nothing else |
| History.AddedAgain | test/InMemoryHistoryManagerTest.java:80-89 | viewing the same id twice leaves what one view of the newer object leaves: one entry, holding the newer object |
| History.RemoveIdsConcat | src/service/InMemoryHistoryManager.java:30-36 | removal acts on the older and the newer part of the history independently |
| History.NoCapacityBound | test/InMemoryHistoryManagerTest.java:23-31 | adding items with distinct new ids one after another appends every one of them, in order: there is no cap |
| History.InMemoryHistoryManager.ValidIds | src/service/InMemoryHistoryManager.java:15 | the list holds no id twice, and an id has a map entry exactly when some list entry carries it |
| History.InMemoryHistoryManager.SizeMatches | src/service/InMemoryHistoryManager.java:15 | the map's keys are the set of ids in the list, and the map has as many entries as the list |
| History.InMemoryHistoryManager.constructor | src/service/InMemoryHistoryManager.java:11-15 | a new manager is well formed and empty |
| History.InMemoryHistoryManager.LinkLast | src/service/InMemoryHistoryManager.java:38-48 | for an id not in the map, the item becomes the new tail node, the entries gain it at the end and the map gains its id; the links stay consistent |
| History.InMemoryHistoryManager.Append | src/service/InMemoryHistoryManager.java:39-46 | a fresh node holding the item is linked after the old tail (or becomes the head of an empty list) with every other link kept |
| History.InMemoryHistoryManager.RemoveNode | src/service/InMemoryHistoryManager.java:60-77 | unlinking the node at any position (the sole node, the head, the tail or a middle node) leaves the remaining nodes chained in their old order with head and tail re-spliced |
| History.InMemoryHistoryManager.Remove | src/service/InMemoryHistoryManager.java:30-36 | the entries become exactly those with other ids (absent ids change nothing), the map loses the id and the list stays well formed |
| History.InMemoryHistoryManager.Add | src/service/InMemoryHistoryManager.java:22-28 | the entries become the old ones without the item's id, followed by the item; the list stays well formed |
| History.InMemoryHistoryManager.GetHistory | src/service/InMemoryHistoryManager.java:50-58 | the walk from `head` along `next` returns every entry, oldest first |
| StoreProperties.AddsAssignCounter | src/service/InMemoryTaskManager.java:125-147 | every successful add stores the item under the current counter with that id, answers with it, and advances the counter by one; `addSubtask` does so even when its epic is then missing |
| StoreProperties.FirstIdIsOne | src/service/InMemoryTaskManager.java:15 | the first item added to an empty store gets id 1 |
| StoreProperties.IdsIncrease | src/service/InMemoryTaskManager.java:125-147 | ids handed out by a task add, then an epic add, then a subtask add strictly increase |
| StoreProperties.OverlapsHalfOpen | src/service/InMemoryTaskManager.java:257-262 | overlap is symmetric, false when any of the four times is absent, false for back-to-back intervals, and otherwise exactly the half-open intersection test |
| StoreProperties.OverlapSkipsSameId | src/service/InMemoryTaskManager.java:264-267 | an indexed entry with the candidate's id never counts: inserting it anywhere in any index leaves the overlap test's verdict unchanged |
| StoreProperties.OverlapGuard | src/service/InMemoryTaskManager.java:121-185 | `addTask`, `updateTask`, `addSubtask` and `updateSubtask` fail with Overlap exactly when the overlap check fires, and then leave the whole store unchanged |
| StoreProperties.OverlapScenario | test/service/InMemoryTaskManagerTest.java:56-67 | a second task starting inside the first one's hour is refused and the store keeps one task |
| StoreProperties.GetByIdSpec | src/service/InMemoryTaskManager.java:90-118 | a lookup fails with NotFound exactly for an absent id and then changes nothing; otherwise it returns the stored value, changes only the history, and makes the value its newest and only entry for that id |
| StoreProperties.HistoryScenario | test/service/InMemoryTaskManagerTest.java:36-54 | view, update, view again leaves one history entry, the updated version |
| StoreProperties.PrioritizedShape | src/service/InMemoryTaskManager.java:22-32 | under the invariant the index is ordered by start, with ties by id; it holds no epic, and holds a stored task or subtask exactly when that item has a start |
| StoreProperties.PrioritizedScenario | test/service/InMemoryTaskManagerTest.java:69-83 | tasks added at 15:00, 13:00 and 14:00 come out ordered 13:00, 14:00, 15:00 |
| StoreProperties.NullStartScenario | test/service/InMemoryTaskManagerTest.java:84-97 | a task without a start stays out of the index, so only the second task is indexed; updating that task to have no start succeeds and leaves the index empty |
| StoreProperties.UpdateEpicKeepsList | src/service/InMemoryTaskManager.java:174-179 | an unknown id fails with NullReference and changes nothing; otherwise the stored epic takes the passed name and description, keeps the old list and is recomputed from it |
| StoreProperties.UpdateSubtaskInPlace | src/service/InMemoryTaskManager.java:181-212 | an unknown id fails with NotFound and changes nothing; otherwise the subtask is stored and replaces its same-id entry in its epic's list at the same position, and the epic is recomputed |
| StoreProperties.UpdateSubtaskUnknownEpic | src/service/InMemoryTaskManager.java:199-203 | with a missing epic the subtask is already stored when NotFound is raised |
| StoreProperties.UpdateTaskUpserts | src/service/InMemoryTaskManager.java:159-172 | without an overlap `updateTask` succeeds and stores the task under its id, new or not; a task without a start leaves the index with nothing new |
| StoreProperties.DeleteEpicRemovesAll | src/service/InMemoryTaskManager.java:221-232 | after `deleteEpic` neither the epic nor any of its subtasks is in the maps, the history or the index, and no stored subtask names the epic |
| StoreProperties.DeleteSubtaskRemovesAll | src/service/InMemoryTaskManager.java:234-241 | a subtask whose epic is missing fails with NullReference and changes nothing; otherwise the subtask leaves its epic's list (the epic recomputed), the map, the history and the index |
| StoreInvariant.EmptyInv | src/service/InMemoryTaskManager.java:14-20 | the empty store satisfies the invariant and its counter starts at 1 |
| StoreInvariant.AddTaskInv | src/service/InMemoryTaskManager.java:120-131 | `addTask` keeps the invariant for a plain task that no indexed item carrying its caller-side id overlaps; with `AddTaskSameIdOverlap` this covers every plain task |
| StoreInvariant.AddTaskSameIdOverlap | src/service/InMemoryTaskManager.java:121-130 | a task overlapping only an indexed item with its own caller-side id is added under a fresh id, and the index then holds two overlapping items |
| StoreInvariant.AddTaskSameIdExample | src/service/InMemoryTaskManager.java:264-267 | after task 1 (13:00, 60 minutes), a task from 13:30 for 30 minutes that carries id 1 is added as task 2 and the index holds an overlap |
| StoreInvariant.AddTaskFreshCheckInv | src/service/InMemoryTaskManager.java:121-130 | with the overlap test made under the id about to be assigned, a task is refused exactly when some indexed item overlaps it, and the invariant holds for every plain task |
| StoreInvariant.AddEpicInv | src/service/InMemoryTaskManager.java:133-138 | `addEpic` keeps the invariant for a freshly constructed epic |
| StoreInvariant.AddEpicClaimedStatus | src/service/InMemoryTaskManager.java:133-138 | an epic passed with an empty list and a status other than NEW is stored with that status, un-recomputed, and the store breaks the invariant |
| StoreInvariant.AddSubtaskInv | src/service/InMemoryTaskManager.java:140-157 | `addSubtask` keeps the invariant when the named epic exists and no indexed item carrying the caller-side id overlaps the subtask |
| StoreInvariant.AddSubtaskUnknownEpic | src/service/InMemoryTaskManager.java:145-151 | with an unknown epic, NotFound comes after the subtask is stored and the counter advanced, and the resulting store breaks the invariant |
| StoreInvariant.UpdateTaskInv | src/service/InMemoryTaskManager.java:159-172 | `updateTask` keeps the invariant for a plain task whose id is issued and is neither an epic's nor a subtask's: it replaces a stored task, or re-inserts one under a freed id; with `UpdateTaskUnstored` this covers every input |
| StoreInvariant.UpdateTaskUnstored | src/service/InMemoryTaskManager.java:159-172 | `updateTask` of a non-plain item, or under an epic's id, a subtask's id or an id not yet handed out, succeeds, stores the item under that id, and breaks the invariant |
| StoreInvariant.UpdateTaskEpicIdExample | src/service/InMemoryTaskManager.java:171 | after epic 1 is added, updating a task with id 1 succeeds and the store breaks the invariant |
| StoreInvariant.UpdateEpicInv | src/service/InMemoryTaskManager.java:174-179 | `updateEpic` keeps the invariant |
| StoreInvariant.UpdateSubtaskInv | src/service/InMemoryTaskManager.java:181-212 | `updateSubtask` keeps the invariant when it does not move a stored subtask to another epic |
| StoreInvariant.UpdateSubtaskMoved | src/service/InMemoryTaskManager.java:199-210 | moving a stored subtask to another epic stores it with the new epic id but changes no epic: the new epic's list gains nothing, the old one keeps its entry, and the store breaks the invariant |
| StoreInvariant.UpdateSubtaskMovedExample | src/service/InMemoryTaskManager.java:199-210 | with epics 1 and 2 and subtask 3 of epic 1, an update of subtask 3 naming epic 2 succeeds, epic 1 still lists it, and the store breaks the invariant |
| StoreInvariant.UpdateSubtaskSameEpicInv | src/service/InMemoryTaskManager.java:181-212 | with a change of epic refused by NotFound and nothing changed, `updateSubtask` keeps the invariant for every subtask |
| StoreInvariant.DeleteTaskInv | src/service/InMemoryTaskManager.java:214-219 | deleting a stored task keeps the invariant |
| StoreInvariant.DeleteEpicInv | src/service/InMemoryTaskManager.java:221-232 | deleting a stored epic keeps the invariant |
| StoreInvariant.DeleteSubtaskInv | src/service/InMemoryTaskManager.java:234-241 | deleting a stored subtask keeps the invariant |
| StoreInvariant.ClearTasksInv | src/service/InMemoryTaskManager.java:49-58 | `clearTasks` keeps the invariant |
| StoreInvariant.ClearEpicsInv | src/service/InMemoryTaskManager.java:60-73 | `clearEpics` keeps the invariant and empties both the epic and the subtask maps |
| StoreInvariant.ClearSubtasksInv | src/service/InMemoryTaskManager.java:75-88 | `clearSubtasks` keeps the invariant, keeps every epic and leaves each with an empty list |
| StoreInvariant.GetByIdInv | src/service/InMemoryTaskManager.java:90-118 | a lookup in any of the three maps keeps the invariant |
| Manager.InMemoryTaskManager.constructor | src/service/InMemoryTaskManager.java:14-20 | a new manager is the empty store with counter 1 |
| Manager.InMemoryTaskManager.GetTasks | src/service/InMemoryTaskManager.java:34-37 | returns the task map, each value under its own id |
| Manager.InMemoryTaskManager.GetEpics | src/service/InMemoryTaskManager.java:39-42 | returns the epic map: epics, each under its own id |
| Manager.InMemoryTaskManager.GetSubtasks | src/service/InMemoryTaskManager.java:44-47 | returns the subtask map: subtasks, each under its own id |
| Manager.InMemoryTaskManager.GetPrioritizedTasks | src/service/InMemoryTaskManager.java:252-255 | returns the index, which under the invariant is sorted and scheduled |
| Manager.InMemoryTaskManager.GetHistory | src/service/InMemoryTaskManager.java:269-272 | returns the history, which under the invariant repeats no id |
| Manager.InMemoryTaskManager.AddTask | src/service/InMemoryTaskManager.java:120-131 | the fields change exactly as `TaskStore.AddTask` says, with the same outcome |
| Manager.InMemoryTaskManager.AddEpic | src/service/InMemoryTaskManager.java:133-138 | the fields change exactly as `TaskStore.AddEpic` says, with the same outcome |
| Manager.InMemoryTaskManager.AddSubtask | src/service/InMemoryTaskManager.java:140-157 | the fields change exactly as `TaskStore.AddSubtask` says, with the same outcome, including the writes before a NotFound |
| Manager.InMemoryTaskManager.UpdateTask | src/service/InMemoryTaskManager.java:159-172 | the fields change exactly as `TaskStore.UpdateTask` says, with the same outcome |
| Manager.InMemoryTaskManager.UpdateEpic | src/service/InMemoryTaskManager.java:174-179 | the fields change exactly as `TaskStore.UpdateEpic` says, with the same outcome |
| Manager.InMemoryTaskManager.UpdateSubtask | src/service/InMemoryTaskManager.java:181-212 | the fields change exactly as `TaskStore.UpdateSubtask` says, with the same outcome |
| Manager.InMemoryTaskManager.GetTaskById | src/service/InMemoryTaskManager.java:90-98 | only the history changes, exactly as `TaskStore.GetTaskById` says, with the same outcome |
| Manager.InMemoryTaskManager.GetEpicById | src/service/InMemoryTaskManager.java:100-108 | only the history changes, exactly as `TaskStore.GetEpicById` says, with the same outcome |
| Manager.InMemoryTaskManager.GetSubtaskById | src/service/InMemoryTaskManager.java:110-118 | only the history changes, exactly as `TaskStore.GetSubtaskById` says, with the same outcome |
| Manager.InMemoryTaskManager.GetFrom | src/service/InMemoryTaskManager.java:92-97 | the shared lookup: NotFound with nothing changed for an absent id, else the stored value is returned and recorded in the history |
| Manager.InMemoryTaskManager.GetSubtasksInEpic | src/service/InMemoryTaskManager.java:243-250 | returns `TaskStore.GetSubtasksInEpic`: the stored epic's list, or NotFound |
| Manager.InMemoryTaskManager.DeleteTask | src/service/InMemoryTaskManager.java:214-219 | the fields change exactly as `TaskStore.DeleteTask` says |
| Manager.InMemoryTaskManager.DeleteSubtask | src/service/InMemoryTaskManager.java:234-241 | the fields change exactly as `TaskStore.DeleteSubtask` says, with the same outcome |
| Manager.InMemoryTaskManager.Detach | src/service/InMemoryTaskManager.java:78-81 | takes the subtask off the list of the epic it names, recomputing that epic, and changes nothing when the epic is missing |
| Manager.InMemoryTaskManager.ForgetAll | src/service/InMemoryTaskManager.java:51-56 | the loop drops every value's id from the history and, when asked, every scheduled value's key from the index |
| Manager.InMemoryTaskManager.ClearTasks | src/service/InMemoryTaskManager.java:49-58 | the fields become exactly `TaskStore.ClearTasks` of the old state |
| Manager.InMemoryTaskManager.ClearEpics | src/service/InMemoryTaskManager.java:60-73 | the fields become exactly `TaskStore.ClearEpics` of the old state |
| Manager.InMemoryTaskManager.ClearSubtasks | src/service/InMemoryTaskManager.java:75-88 | the fields become exactly `TaskStore.ClearSubtasks` of the old state |
| Manager.InMemoryTaskManager.DetachAndForgetAll | src/service/InMemoryTaskManager.java:77-86 | the loop leaves each epic as if cleared of the subtasks naming it, and drops all subtask ids from the history and their keys from the index |
| Manager.InMemoryTaskManager.DeleteEpic | src/service/InMemoryTaskManager.java:221-232 | the fields change exactly as `TaskStore.DeleteEpic` says |
| Manager.InMemoryTaskManager.ForgetEach | src/service/InMemoryTaskManager.java:223-229 | the loop over the epic's list drops those subtasks from the map, their ids from the history and their keys from the index |
| Csv.TypeOf | src/service/FileBackedTaskManager.java:58 | the written type is EPIC exactly for epics and SUBTASK exactly for subtasks |
| Csv.ValueOfName | src/service/FileBackedTaskManager.java:70-72 | `valueOf` reads back every written type and status name |
| Csv.TypeValueOf | src/service/FileBackedTaskManager.java:72 | a recognised type text is exactly that constant's name |
| Csv.StatusValueOf | src/service/FileBackedTaskManager.java:70 | a recognised status text is exactly that constant's name |
| Csv.ToString | src/service/FileBackedTaskManager.java:57-64 | the line ends in a newline and is otherwise the id, type, name, status and description, then the epic id for subtasks only, joined by commas |
| Csv.FromFields | src/service/FileBackedTaskManager.java:66-81 | a parsed item takes its id from field 0, its kind from field 1, name, status and description from fields 2-4 and a subtask's epic id from field 5; an epic is always NEW and empty; no item has times |
| Csv.SplitLine | src/service/FileBackedTaskManager.java:67 | splitting a comma-free item's line gives its fields with trailing empty ones dropped |
| Csv.TaskRoundTrip | test/service/FileBackedTaskManagerTest.java:38-48 | a task with a comma-free name and a non-empty comma-free description reads back with its id, name, description and status, and without times |
| Csv.SubtaskRoundTrip | test/service/FileBackedTaskManagerTest.java:50-65 | a subtask with comma-free text reads back with id, name, description, status and epic id, whatever its description |
| Csv.EpicRoundTrip | src/service/FileBackedTaskManager.java:73-74 | an epic with comma-free text and a non-empty description reads back as a new epic, NEW and empty, whatever status was written |
| Csv.BadIdRejected | src/service/FileBackedTaskManager.java:68 | a non-numeric id fails the parse |
| Csv.BadStatusRejected | src/service/FileBackedTaskManager.java:70 | an unknown status name fails the parse |
| Csv.BadTypeRejected | src/service/FileBackedTaskManager.java:72 | an unknown type name fails the parse |
| Csv.BadEpicIdRejected | src/service/FileBackedTaskManager.java:76 | a SUBTASK line with a missing or non-numeric epic id fails the parse |
| Csv.ShortLineRejected | src/service/FileBackedTaskManager.java:67-71 | a line with fewer than five fields fails the parse |
| Csv.ExtraFieldsIgnored | src/service/FileBackedTaskManager.java:78-79 | fields after the fifth do not affect a TASK line |
| Csv.EmptyDescriptionUnreadable | src/service/FileBackedTaskManager.java:67-71 | a task or epic written with an empty description cannot be read back, because `split` drops the trailing empty field |
| Csv.KeepingEmptyRoundTrip | src/service/FileBackedTaskManager.java:57-81 | with trailing empty fields kept, every comma-free item reads back, empty descriptions included |
| Router.ResolveEndpoint | src/handlers/BaseHttpHandler.java:85-104 | GET_HISTORY exactly for the path `/history` and GET_PRIORITIZED_TASKS exactly for `/prioritized`; a resource endpoint only for a path that dispatches to that resource by prefix order |
| Router.ResolveTaskEndpoint | src/handlers/BaseHttpHandler.java:106-127 | answers UNKNOWN or a task endpoint |
| Router.ResolveSubtaskEndpoint | src/handlers/BaseHttpHandler.java:129-150 | answers UNKNOWN or a subtask endpoint |
| Router.ResolveEpicEndpoint | src/handlers/BaseHttpHandler.java:152-176 | answers UNKNOWN or an epic endpoint |
| Router.TaskTable | src/handlers/BaseHttpHandler.java:106-127 | the task resolver answers an endpoint exactly when the path's part count and the method are that endpoint's (2: list, create, delete all; 3: by id, update, delete) |
| Router.SubtaskTable | src/handlers/BaseHttpHandler.java:129-150 | the same table for subtasks |
| Router.EpicTable | src/handlers/BaseHttpHandler.java:152-176 | the epic table: 2 parts as for tasks, 3 parts only GET and DELETE, 4 parts only GET for the epic's subtasks |
| Router.ResourceTable | src/handlers/BaseHttpHandler.java:106-176 | the three tables as one statement over the resource |
| Router.RouteTable | src/handlers/BaseHttpHandler.java:85-176 | the whole router answers a resource endpoint exactly when the path dispatches to its resource and part count and method match |
| Router.NoRouteIsUnknown | src/handlers/BaseHttpHandler.java:126 | a dispatched path that matches no row of its resource's table gets UNKNOWN |
| Router.NoEpicUpdate | src/handlers/BaseHttpHandler.java:163-169 | a 3-part epic path with POST has no route |
| Router.HistoryIsExact | test/handlers/HttpTaskServerHistoryTest.java:83-93 | any longer path starting with `/history` gets UNKNOWN |
| Router.HistoryAnyVerb | src/handlers/BaseHttpHandler.java:95-101 | `/history` and `/prioritized` resolve the same for every method |
| Router.ExactPathsHaveNoPrefix | src/handlers/BaseHttpHandler.java:86-99 | the exact paths are never caught by a resource prefix |
| Router.PathParts | src/handlers/BaseHttpHandler.java:107 | a path of non-empty slash-free segments splits into a leading empty part and the segments |
| Router.TaskListRequests | src/handlers/BaseHttpHandler.java:108-116 | `/tasks` (and any slash-free continuation) with GET lists and with POST creates |
| Router.TaskItemRequests | src/handlers/BaseHttpHandler.java:117-125 | `/tasks/<id>` with GET, POST and DELETE gives by-id, update and delete |
| Router.EpicSubtasksRequest | src/handlers/BaseHttpHandler.java:171-173 | `/epics/<id>/subtasks` with GET gives the epic's subtasks |
| Router.EpicUpdateRequest | src/handlers/BaseHttpHandler.java:163-169 | `/epics/<id>` with POST gives UNKNOWN |
| JavaText.DropTrailingEmpty | src/service/FileBackedTaskManager.java:67 | the result is a prefix of the pieces that does not end in an empty piece, and only empty pieces are dropped |
| JavaText.PiecesOfJoin | src/service/FileBackedTaskManager.java:67 | cutting a join of separator-free fields at the separator returns the fields |
| JavaText.SplitJoin | src/service/FileBackedTaskManager.java:67 | Java's `split` of a join of at least two separator-free fields returns them with trailing empty ones dropped |
| JavaText.ParseInt | src/service/FileBackedTaskManager.java:68 | `Integer.parseInt` only ever yields values in the 32-bit range |
| JavaText.ParseIntToString | src/service/FileBackedTaskManager.java:68 | parsing a printed integer returns it exactly when it is in the 32-bit range, and fails otherwise |
| JavaText.ParseIntExamples | src/service/FileBackedTaskManager.java:68 | the empty text and a lone sign are rejected, a leading `+` is accepted, trailing letters are rejected |
| DurationJson.JavaDiv | src/handlers/typeAdapters/DurationTypeAdapter.java:16 | `toHours` truncates toward zero: agrees with floor division on non-negative input, is within one divisor of the dividend, and is negative only below minus one hour |
| DurationJson.JavaRem | src/handlers/typeAdapters/DurationTypeAdapter.java:17 | `toMinutesPart` completes the truncated quotient to the dividend and stays strictly between minus and plus one hour |
| DurationJson.Pad2 | src/handlers/typeAdapters/DurationTypeAdapter.java:18 | `%02d` text parses back to its number inside the 32-bit range, is at least two digits for non-negative numbers and exactly two below 100 |
| DurationJson.Write | src/handlers/typeAdapters/DurationTypeAdapter.java:10-19 | null exactly for an absent duration; otherwise, for a non-negative one, the hours and the two-digit minute part joined by `:` |
| DurationJson.Read | src/handlers/typeAdapters/DurationTypeAdapter.java:21-30 | the format error exactly when the text does not split into two parts; the number error exactly when there are two parts and one does not parse; success exactly when both parse, giving hours × 60 + minutes |
| DurationJson.ReadWrite | src/handlers/typeAdapters/DurationTypeAdapter.java:16-29 | every written duration whose hour count fits a Java `int` reads back as the same number of minutes, negative ones included |
| DurationJson.HugeDurationUnreadable | src/handlers/typeAdapters/DurationTypeAdapter.java:27 | a duration of 2^31 hours is written but fails to read |
| DurationJson.WriteMinutesOnly | src/handlers/typeAdapters/DurationTypeAdapter.java:16-18 | 5 minutes are written as "00:05" |
| DurationJson.WriteHoursAndMinutes | src/handlers/typeAdapters/DurationTypeAdapter.java:16-18 | 90 minutes are written as "01:30" |
| DurationJson.WriteWide | src/handlers/typeAdapters/DurationTypeAdapter.java:16-18 | 100 hours are written as "100:00" |
| DurationJson.WriteNegative | src/handlers/typeAdapters/DurationTypeAdapter.java:16-18 | minus 90 minutes are written as "-1:-30" |
| DurationJson.ReadRejectsOnePart | src/handlers/typeAdapters/DurationTypeAdapter.java:23-26 | a text without `:` is refused with the format error |
| DurationJson.ReadRejectsThreeParts | src/handlers/typeAdapters/DurationTypeAdapter.java:23-26 | three parts are refused with the format error |
| DurationJson.ReadRejectsTrailingColon | src/handlers/typeAdapters/DurationTypeAdapter.java:23-26 | "12:" is one part after `split`, and is refused with the format error |
| DurationJson.ReadRejectsEmptyHours | src/handlers/typeAdapters/DurationTypeAdapter.java:27 | ":30" has an empty hour part, which fails to parse |
| DurationJson.ReadRejectsNonDigit | src/handlers/typeAdapters/DurationTypeAdapter.java:27 | a letter in the hour part fails to parse |
| DurationJson.ReadExample | src/handlers/typeAdapters/DurationTypeAdapter.java:27-29 | "02:15" reads as 135 minutes |

## Left out

- The HTTP layer is not part of this model: `HttpTaskServer`, the five handlers, and `handle`, `writeResponse`, `send*` and
  `getTaskId` in `BaseHttpHandler`. It is network I/O and Gson serialization; only the pure routing functions are modelled.
- `FileBackedTaskManager`'s `save`, `loadFromFile` and the save-after-mutation overrides are file I/O and are not
  modelled. Only the line codec is, without its file's newline handling beyond the final `\n`.
- `LocalDateTimeTypeAdapter` is not part of this model. It wraps the ISO date-time formatter, and times are plain
  minutes here.
- `src/TaskManager.java`, `src/Main.java` and `src/service/Main.java` are not part of this model. They hold a legacy
  store and demo drivers.
- `model/Task.java`, `Status`, `TaskType`, `Managers` and the exception classes are not part of this model. Their
  roles are inferred from use:
  - the item datatype;
  - an end time of start plus duration;
  - `equals` by id, for `List.remove`;
  - one error type `NotFound | Overlap | NullReference`.
- `NullReference` stands for the `NullPointerException` that `updateEpic` and `deleteSubtask` raise when the epic is
  missing; it is not a declared exception.
- `HistoryManager` declares `remove(Task)` while the implementation has `remove(int)`; the `int` version is modelled.
- Null fields are not modelled. A task decoded by Gson from JSON can have a null `name` or `description`; `toString`
  then writes "null", which reads back as the four-letter string. The model's names and descriptions are always strings.
- Object aliasing is not modelled. Items are values: a caller that mutates an object stored in the maps, or the list
  returned by `getSubtasks`, does not reach into the store. The store's operations are modelled on values, with the
  same outcome as the in-place Java code.
- Manager.InMemoryTaskManager: the `history` field holds the value sequence that the history manager stores, and
  `getTaskById` and the deletions update it with `History.Added` and `History.RemoveIds`. The linked implementation is
  proved separately to update its entries by exactly those functions (`History.InMemoryHistoryManager.Add` and
  `Remove`), so the store does not own a linked instance.
- Manager.InMemoryTaskManager.ForgetAll: `HashMap` iteration order is not fixed. The `clear*` loops pick keys in an
  unspecified order, and their contracts hold for every order.
- History.InMemoryHistoryManager.LinkLast: requires the id to be absent from the map, which is how `add` calls it; a
  direct call with a present id would leave a stale node linked.
- DurationJson.ReadWrite: holds only when the hour count fits a Java `int`, because `read` uses `Integer.parseInt`;
  `DurationJson.HugeDurationUnreadable` shows the failure above that.
- DurationJson.Read: `read` of a JSON null depends on Gson's `nextString` and is not modelled. Overflow of
  `Duration` arithmetic is not modelled.
- Csv.SubtaskRoundTrip: `fromString` calls a five-argument `Subtask` constructor that `src/model/Subtask.java` lacks.
  The model gives the parsed subtask no duration and no start.
- Integer widths: ids and the counter are unbounded, so 32-bit overflow of `currentId` is not modelled. Over-wide ids
  are refused only by `Integer.parseInt` in the codec.
- PriorityIndex.Compare: the id tie-break `t1.getId() - t2.getId()` (src/service/InMemoryTaskManager.java:26 and 31)
  is an unbounded difference. In Java it wraps around when two ids lie 2^31 or more apart, which only caller-chosen
  negative ids can reach, and the comparator's sign is then wrong.
- JavaText.ParseInt: accepts ASCII digits only. `Integer.parseInt` goes through `Character.digit` and also accepts the
  other Unicode decimal digits. Likewise `%02d` in `DurationJson.Pad2` is modelled with ASCII digits, as written under a
  locale whose zero digit is `0`.
- `test/service/FileBackedTaskManagerTest.java:74-85` expects an exception that the parser does not raise for that
  input; the model follows the code.
- StoreInvariant.AddTaskInv: holds only when no indexed item that carries the task's caller-side id overlaps it,
  because the overlap test skips such an item. `StoreInvariant.AddTaskSameIdOverlap` covers the remaining case and
  shows the overlap that then gets in (see Findings).
- StoreInvariant.AddSubtaskInv: holds only when the named epic exists and no indexed item that carries the caller-side
  id overlaps the subtask. `StoreInvariant.AddSubtaskUnknownEpic` shows the store left after a missing epic.
- StoreInvariant.AddEpicInv: holds only for an epic as constructed. `addEpic` stores a caller-built epic without
  recomputing it, as `EpicHandler` passes it on from JSON; `StoreInvariant.AddEpicClaimedStatus` shows one that breaks
  the invariant.
- StoreInvariant.UpdateTaskInv: holds only for a plain task whose id is below the counter and is not an epic's or a
  subtask's id. A stored task's id qualifies, and so does a deleted task's freed id. `updateTask` stores under any id,
  as `TaskHandler` passes it on from JSON. `StoreInvariant.UpdateTaskUnstored` covers every other input and shows that
  the invariant then breaks; `StoreInvariant.UpdateTaskEpicIdExample` is a concrete instance.
- StoreInvariant.UpdateSubtaskInv: holds only when a stored subtask keeps its epic; `StoreInvariant.UpdateSubtaskMoved`
  shows a moved subtask left on the old epic's list (see Findings).
- StoreProperties.UpdateSubtaskInPlace: stated only for a subtask that keeps its epic; the change-of-epic case, where
  no list changes, is stated by `StoreInvariant.UpdateSubtaskMoved`.

## Findings

| source | as written | input that shows it | evidently intended | confidence | as-written member | corrected member |
|---|---|---|---|---|---|---|
| src/service/FileBackedTaskManager.java:67-71 | `value.split(",")` drops trailing empty fields, so `values[4]` is out of range when the description is empty | a task with id 1, name "a", status NEW and description "" is written as "1,TASK,a,NEW,," and reads back as an error | every line `toString` writes reads back (a split keeping trailing empty fields) | not executed | Csv.EmptyDescriptionUnreadable | Csv.KeepingEmptyRoundTrip |
| src/service/InMemoryTaskManager.java:121-130 | the overlap test skips indexed items with the task's caller-side id, but `addTask` then stores it under a fresh id | after task 1 from 13:00 for 60 minutes, a task from 13:30 for 30 minutes carrying id 1 is added as task 2 | a task is refused when it overlaps any indexed item, as the test under its assigned id does | not executed | StoreInvariant.AddTaskSameIdExample | StoreInvariant.AddTaskFreshCheckInv |
| src/service/InMemoryTaskManager.java:199-210 | a subtask updated with another epic id is stored with it, the new epic's list has no entry to replace, and the old epic's list keeps the previous version | epics 1 and 2, subtask 3 of epic 1, then an update of subtask 3 naming epic 2 | no subtask stays on the list of an epic it no longer names (the correction refuses the move) | not executed | StoreInvariant.UpdateSubtaskMovedExample | StoreInvariant.UpdateSubtaskSameEpicInv |
