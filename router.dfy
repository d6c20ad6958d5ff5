/**
 * The router of the HTTP handlers: a request path and method name are
 * mapped to the endpoint that serves them. Dispatch is by path prefix, then
 * by how many parts `path.split("/")` gives, then by method.
 */
module Router {
  import opened Wrappers
  import opened JavaText

  datatype Endpoint =
    | GetTasks | CreateTask | DeleteAllTasks
    | GetTaskById | UpdateTask | DeleteTask
    | GetSubtasks | CreateSubtask | DeleteAllSubtasks
    | GetSubtaskById | UpdateSubtask | DeleteSubtask
    | GetEpics | CreateEpic | DeleteAllEpics
    | GetEpicById | DeleteEpic | GetSubtasksInEpic
    | GetHistory | GetPrioritizedTasks
    | Unknown

  /** The three resources whose endpoints are chosen by part count and method. */
  datatype Resource = Tasks | Subtasks | Epics

  // ----------------------------------------------------- the route table

  /** The resource an endpoint belongs to, if any. */
  function ResourceOf(e: Endpoint): Option<Resource> {
    match e
    case GetTasks | CreateTask | DeleteAllTasks | GetTaskById | UpdateTask | DeleteTask => Some(Tasks)
    case GetSubtasks | CreateSubtask | DeleteAllSubtasks | GetSubtaskById | UpdateSubtask | DeleteSubtask => Some(Subtasks)
    case GetEpics | CreateEpic | DeleteAllEpics | GetEpicById | DeleteEpic | GetSubtasksInEpic => Some(Epics)
    case _ => None
  }

  /** The method a resource endpoint answers to. */
  function MethodOf(e: Endpoint): string {
    match e
    case CreateTask | UpdateTask | CreateSubtask | UpdateSubtask | CreateEpic => "POST"
    case DeleteAllTasks | DeleteTask | DeleteAllSubtasks | DeleteSubtask | DeleteAllEpics | DeleteEpic => "DELETE"
    case _ => "GET"
  }

  /** How many parts its path splits into: two for the collection
      ("/tasks"), three for one item ("/tasks/1"), four for an epic's
      subtasks ("/epics/1/subtasks"). */
  function PartsOf(e: Endpoint): nat {
    match e
    case GetTasks | CreateTask | DeleteAllTasks => 2
    case GetSubtasks | CreateSubtask | DeleteAllSubtasks => 2
    case GetEpics | CreateEpic | DeleteAllEpics => 2
    case GetSubtasksInEpic => 4
    case _ => 3
  }

  function Prefix(r: Resource): string {
    match r
    case Tasks => "/tasks"
    case Subtasks => "/subtasks"
    case Epics => "/epics"
  }

  predicate StartsWith(s: string, p: string) {
    |p| <= |s| && s[..|p|] == p
  }

  /** No path with a resource prefix is one of the two exact paths. */
  lemma ExactPathsHaveNoPrefix(path: string)
    ensures path == "/history" || path == "/prioritized" ==>
      !StartsWith(path, "/tasks") && !StartsWith(path, "/subtasks") && !StartsWith(path, "/epics")
  {
    if path == "/history" || path == "/prioritized" {
      assert path[1] == 'h' || path[1] == 'p';
      assert "/tasks"[1] == 't' && "/subtasks"[1] == 's' && "/epics"[1] == 'e';
      assert forall p :: |p| >= 2 && StartsWith(path, p) ==> p[1] == path[1];
    }
  }

  /** The three method names the resolvers compare against differ. */
  lemma VerbsDiffer()
    ensures "GET" != "POST" && "GET" != "DELETE" && "POST" != "DELETE"
  {
    assert "GET"[0] == 'G' && "POST"[0] == 'P' && "DELETE"[0] == 'D';
  }

  /** The path is handed to this resource's resolver: it has the resource's
      prefix and none of the prefixes tried before it. */
  predicate DispatchesTo(path: string, r: Resource) {
    && StartsWith(path, Prefix(r))
    && (r != Tasks ==> !StartsWith(path, "/tasks"))
    && (r == Epics ==> !StartsWith(path, "/subtasks"))
  }

  // -------------------------------------------------------- the resolvers

  /** `resolveEndpoint`: the prefixes in the order `/tasks`, `/subtasks`,
      `/epics`, then the two exact paths `/history` and `/prioritized`,
      whatever the method. */
  function ResolveEndpoint(path: string, verb: string): (r: Endpoint)
    ensures r == GetHistory <==> path == "/history"
    ensures r == GetPrioritizedTasks <==> path == "/prioritized"
    ensures ResourceOf(r).Some? ==> DispatchesTo(path, ResourceOf(r).value)
  {
    ExactPathsHaveNoPrefix(path);
    if StartsWith(path, "/tasks") then ResolveTaskEndpoint(path, verb)
    else if StartsWith(path, "/subtasks") then ResolveSubtaskEndpoint(path, verb)
    else if StartsWith(path, "/epics") then ResolveEpicEndpoint(path, verb)
    else if path == "/history" then GetHistory
    else if path == "/prioritized" then GetPrioritizedTasks
    else Unknown
  }

  /** `resolveTaskEndpoint`: only task endpoints, or `Unknown`. */
  function ResolveTaskEndpoint(path: string, verb: string): (r: Endpoint)
    ensures r == Unknown || ResourceOf(r) == Some(Tasks)
  {
    var n := |Split(path, '/')|;
    if n == 2 && verb == "GET" then GetTasks
    else if n == 2 && verb == "POST" then CreateTask
    else if n == 2 && verb == "DELETE" then DeleteAllTasks
    else if n == 3 && verb == "GET" then GetTaskById
    else if n == 3 && verb == "POST" then UpdateTask
    else if n == 3 && verb == "DELETE" then DeleteTask
    else Unknown
  }

  /** `resolveSubtaskEndpoint`: the same table, for subtasks. */
  function ResolveSubtaskEndpoint(path: string, verb: string): (r: Endpoint)
    ensures r == Unknown || ResourceOf(r) == Some(Subtasks)
  {
    var n := |Split(path, '/')|;
    if n == 2 && verb == "GET" then GetSubtasks
    else if n == 2 && verb == "POST" then CreateSubtask
    else if n == 2 && verb == "DELETE" then DeleteAllSubtasks
    else if n == 3 && verb == "GET" then GetSubtaskById
    else if n == 3 && verb == "POST" then UpdateSubtask
    else if n == 3 && verb == "DELETE" then DeleteSubtask
    else Unknown
  }

  /** `resolveEpicEndpoint`: no update route, and a four-part GET for the
      subtasks of one epic. */
  function ResolveEpicEndpoint(path: string, verb: string): (r: Endpoint)
    ensures r == Unknown || ResourceOf(r) == Some(Epics)
  {
    var n := |Split(path, '/')|;
    if n == 2 && verb == "GET" then GetEpics
    else if n == 2 && verb == "POST" then CreateEpic
    else if n == 2 && verb == "DELETE" then DeleteAllEpics
    else if n == 3 && verb == "GET" then GetEpicById
    else if n == 3 && verb == "DELETE" then DeleteEpic
    else if n == 4 && verb == "GET" then GetSubtasksInEpic
    else Unknown
  }

  /** The resolver of one resource, by the resource. */
  function ResolveIn(r: Resource, path: string, verb: string): Endpoint {
    match r
    case Tasks => ResolveTaskEndpoint(path, verb)
    case Subtasks => ResolveSubtaskEndpoint(path, verb)
    case Epics => ResolveEpicEndpoint(path, verb)
  }

  /** Each resource's resolver follows the route table, in both directions:
      it answers with one of the resource's endpoints exactly when the part
      count and the method are that endpoint's. */
  lemma ResourceTable(r: Resource, path: string, verb: string, e: Endpoint)
    requires ResourceOf(e) == Some(r)
    ensures ResolveIn(r, path, verb) == e <==> |Split(path, '/')| == PartsOf(e) && verb == MethodOf(e)
  {
    match r
    case Tasks => TaskTable(path, verb, e);
    case Subtasks => SubtaskTable(path, verb, e);
    case Epics => EpicTable(path, verb, e);
  }

  lemma TaskTable(path: string, verb: string, e: Endpoint)
    requires ResourceOf(e) == Some(Tasks)
    ensures ResolveTaskEndpoint(path, verb) == e <==> |Split(path, '/')| == PartsOf(e) && verb == MethodOf(e)
  {
    VerbsDiffer();
  }

  lemma SubtaskTable(path: string, verb: string, e: Endpoint)
    requires ResourceOf(e) == Some(Subtasks)
    ensures ResolveSubtaskEndpoint(path, verb) == e <==> |Split(path, '/')| == PartsOf(e) && verb == MethodOf(e)
  {
    VerbsDiffer();
  }

  lemma EpicTable(path: string, verb: string, e: Endpoint)
    requires ResourceOf(e) == Some(Epics)
    ensures ResolveEpicEndpoint(path, verb) == e <==> |Split(path, '/')| == PartsOf(e) && verb == MethodOf(e)
  {
    VerbsDiffer();
  }

  // ----------------------------------------------------------- properties

  /** The router agrees with the route table, in both directions: a request
      reaches a resource endpoint exactly when its path goes to that
      resource and has that endpoint's part count and method. */
  lemma RouteTable(path: string, verb: string, e: Endpoint)
    requires ResourceOf(e).Some?
    ensures ResolveEndpoint(path, verb) == e <==>
      DispatchesTo(path, ResourceOf(e).value) && |Split(path, '/')| == PartsOf(e) && verb == MethodOf(e)
  {
    var r := ResourceOf(e).value;
    ResourceTable(r, path, verb, e);
    if DispatchesTo(path, r) {
      assert ResolveEndpoint(path, verb) == ResolveIn(r, path, verb);
    }
  }

  /** A request that goes to a resource but matches no row of its table is
      `Unknown`: a part count other than two or three (four for an epic GET),
      or a method other than GET, POST and DELETE. */
  lemma NoRouteIsUnknown(path: string, verb: string, r: Resource)
    requires DispatchesTo(path, r)
    requires forall e :: ResourceOf(e) == Some(r) ==> !(|Split(path, '/')| == PartsOf(e) && verb == MethodOf(e))
    ensures ResolveEndpoint(path, verb) == Unknown
  {
    var res := ResolveEndpoint(path, verb);
    if res != Unknown {
      assert ResourceOf(res) == Some(r);
      RouteTable(path, verb, res);
      assert false;
    }
  }

  /** The route table has no POST on one epic: updating an epic by path is `Unknown`. */
  lemma NoEpicUpdate(path: string)
    requires DispatchesTo(path, Epics) && |Split(path, '/')| == 3
    ensures ResolveEndpoint(path, "POST") == Unknown
  {
  }

  /** `path.split("/")` of "/" followed by separator-free segments, the last
      non-empty: an empty part for the leading slash, then the segments. */
  lemma PathParts(segs: seq<string>)
    requires |segs| >= 1 && SeparatorFree(segs, '/') && segs[|segs| - 1] != ""
    ensures Split("/" + Join(segs, '/'), '/') == [""] + segs
  {
    var fs := [""] + segs;
    assert fs[1..] == segs;
    assert Join(fs, '/') == "/" + Join(segs, '/');
    SplitJoin(fs, '/');
  }

  /** `"/" + name + "/" + id`, for a segment `id` free of slashes, splits
      into three parts. */
  lemma ItemPath(name: string, id: string)
    requires name != "" && '/' !in name && id != "" && '/' !in id
    ensures Split("/" + name + "/" + id, '/') == ["", name, id]
  {
    var segs := [name, id];
    assert Join(segs, '/') == name + "/" + id by {
      assert segs[1..] == [id];
    }
    PathParts(segs);
    assert "/" + Join(segs, '/') == "/" + name + "/" + id;
  }

  /** Neither exact path takes a suffix: the history test's request for
      "/history/unknown" is `Unknown`, and so is any longer path. */
  lemma HistoryIsExact(suffix: string, verb: string)
    requires suffix != ""
    ensures ResolveEndpoint("/history" + suffix, verb) == Unknown
  {
    var path := "/history" + suffix;
    assert path[1] == 'h';
    assert !StartsWith(path, "/tasks") && !StartsWith(path, "/subtasks") && !StartsWith(path, "/epics") by {
      assert "/tasks"[1] == 't' && "/subtasks"[1] == 's' && "/epics"[1] == 'e';
      assert forall p :: |p| >= 2 && StartsWith(path, p) ==> p[1] == path[1];
    }
    assert path != "/history" by { assert |path| > |"/history"|; }
    assert path != "/prioritized" by { assert "/prioritized"[1] == 'p'; }
  }

  lemma HistoryAnyVerb(verb: string)
    ensures ResolveEndpoint("/history", verb) == GetHistory
    ensures ResolveEndpoint("/prioritized", verb) == GetPrioritizedTasks
  {
  }

  /** The task list: "/tasks", and any path that merely begins with it and
      holds no further slash, such as "/tasksabc" (dispatch checks a prefix,
      not a whole segment). */
  lemma TaskListRequests(suffix: string)
    requires '/' !in suffix
    ensures ResolveEndpoint("/tasks" + suffix, "GET") == GetTasks
    ensures ResolveEndpoint("/tasks" + suffix, "POST") == CreateTask
  {
    var path := "/tasks" + suffix;
    var name := "tasks" + suffix;
    assert '/' !in name by {
      assert forall i :: 0 <= i < |name| ==> name[i] != '/' by {
        assert forall i :: 0 <= i < 5 ==> name[i] == "tasks"[i];
        assert forall i :: 5 <= i < |name| ==> name[i] == suffix[i - 5];
      }
    }
    assert path == "/" + Join([name], '/');
    PathParts([name]);
    assert path[..6] == "/tasks";
    RouteTable(path, "GET", GetTasks);
    RouteTable(path, "POST", CreateTask);
  }

  /** `"/tasks/" + id` goes to the task resolver and splits into three parts. */
  lemma TaskItemPath(id: string)
    requires id != "" && '/' !in id
    ensures DispatchesTo("/tasks/" + id, Tasks) && |Split("/tasks/" + id, '/')| == 3
  {
    var path := "/tasks/" + id;
    assert '/' !in "tasks";
    ItemPath("tasks", id);
    assert path == "/" + "tasks" + "/" + id;
    assert path[..6] == "/tasks";
  }

  /** One task, by any id segment. */
  lemma TaskItemRequests(id: string)
    requires id != "" && '/' !in id
    ensures ResolveEndpoint("/tasks/" + id, "GET") == GetTaskById
    ensures ResolveEndpoint("/tasks/" + id, "POST") == UpdateTask
    ensures ResolveEndpoint("/tasks/" + id, "DELETE") == DeleteTask
  {
    TaskItemPath(id);
    RouteTable("/tasks/" + id, "GET", GetTaskById);
    RouteTable("/tasks/" + id, "POST", UpdateTask);
    RouteTable("/tasks/" + id, "DELETE", DeleteTask);
  }

  /** `"/epics/" + id + "/subtasks"` splits into four parts. */
  lemma EpicSubtasksPath(id: string)
    requires id != "" && '/' !in id
    ensures Split("/epics/" + id + "/subtasks", '/') == ["", "epics", id, "subtasks"]
  {
    assert '/' !in "epics" && '/' !in "subtasks";
    var segs := ["epics", id, "subtasks"];
    assert Join(segs[1..], '/') == id + "/" + "subtasks" by {
      assert segs[1..] == [id, "subtasks"] && segs[1..][1..] == ["subtasks"];
    }
    assert Join(segs, '/') == "epics" + "/" + (id + "/" + "subtasks");
    PathParts(segs);
    assert "/epics/" + id + "/subtasks" == "/" + Join(segs, '/');
  }

  /** Any path that begins with "/epics" goes to the epic resolver. */
  lemma EpicsDispatch(path: string)
    requires |path| >= 6 && path[..6] == "/epics"
    ensures DispatchesTo(path, Epics)
  {
    assert !StartsWith(path, "/tasks") && !StartsWith(path, "/subtasks") by {
      assert path[1] == "/epics"[1] == 'e' && "/tasks"[1] == 't' && "/subtasks"[1] == 's';
    }
  }

  /** The subtasks of one epic, by any id segment. */
  lemma EpicSubtasksRequest(id: string)
    requires id != "" && '/' !in id
    ensures ResolveEndpoint("/epics/" + id + "/subtasks", "GET") == GetSubtasksInEpic
  {
    EpicSubtasksPath(id);
    assert ("/epics/" + id + "/subtasks")[..6] == "/epics";
    EpicsDispatch("/epics/" + id + "/subtasks");
    RouteTable("/epics/" + id + "/subtasks", "GET", GetSubtasksInEpic);
  }

  /** The epic table has no update row: POST on one epic is `Unknown`. */
  lemma EpicUpdateRequest(id: string)
    requires id != "" && '/' !in id
    ensures ResolveEndpoint("/epics/" + id, "POST") == Unknown
  {
    var path := "/epics/" + id;
    assert '/' !in "epics";
    ItemPath("epics", id);
    assert path == "/" + "epics" + "/" + id;
    assert path[..6] == "/epics";
    EpicsDispatch(path);
    NoEpicUpdate(path);
  }
}
