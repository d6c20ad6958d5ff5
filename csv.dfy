/**
 * The line format of the file-backed manager: one item per line,
 * `id,TYPE,name,STATUS,description,epic`, where the last field holds the
 * epic id of a subtask and is empty otherwise. Duration and start time are
 * not part of the format.
 */
module Csv {
  import opened Wrappers
  import opened JavaText
  import opened Model

  /** `TaskType`: which of the three kinds a line describes. */
  datatype TaskType = TaskKind | EpicKind | SubtaskKind

  /** The exceptions a malformed line raises in `fromString`: a missing
      field (`ArrayIndexOutOfBoundsException`), a field that is not an
      integer (`NumberFormatException`), and a type or status name that is
      no constant of its enum (`IllegalArgumentException` from `valueOf`). */
  datatype ParseError = MissingField | NotANumber | UnknownName

  /** `getType()`. */
  function TypeOf(t: Task): (k: TaskType)
    ensures k == EpicKind <==> t.Epic?
    ensures k == SubtaskKind <==> t.Subtask?
  {
    match t
    case Task(_, _, _, _, _, _) => TaskKind
    case Epic(_, _, _, _, _, _, _, _) => EpicKind
    case Subtask(_, _, _, _, _, _, _) => SubtaskKind
  }

  /** The enum constant names, as `toString` of an enum prints them. */
  function TypeName(k: TaskType): string {
    match k
    case TaskKind => "TASK"
    case EpicKind => "EPIC"
    case SubtaskKind => "SUBTASK"
  }

  function StatusName(s: Status): string {
    match s
    case New => "NEW"
    case InProgress => "IN_PROGRESS"
    case Done => "DONE"
  }

  /** `TaskType.valueOf`: the constant with exactly this name. */
  function TypeValueOf(s: string): (r: Option<TaskType>)
    ensures r.Some? ==> TypeName(r.value) == s
  {
    if s == "TASK" then Some(TaskKind)
    else if s == "EPIC" then Some(EpicKind)
    else if s == "SUBTASK" then Some(SubtaskKind)
    else None
  }

  /** `Status.valueOf`: the constant with exactly this name. */
  function StatusValueOf(s: string): (r: Option<Status>)
    ensures r.Some? ==> StatusName(r.value) == s
  {
    if s == "NEW" then Some(New)
    else if s == "IN_PROGRESS" then Some(InProgress)
    else if s == "DONE" then Some(Done)
    else None
  }

  /** `valueOf` finds every constant by its own name. */
  lemma ValueOfName(k: TaskType, s: Status)
    ensures TypeValueOf(TypeName(k)) == Some(k)
    ensures StatusValueOf(StatusName(s)) == Some(s)
  {
    assert "TASK"[0] == 'T' && "EPIC"[0] == 'E' && "SUBTASK"[0] == 'S';
    assert "NEW"[0] == 'N' && "IN_PROGRESS"[0] == 'I' && "DONE"[0] == 'D';
  }

  // -------------------------------------------------------------- writing

  /** The six fields `toString` writes, in order. */
  function Fields(t: Task): (fs: seq<string>)
    ensures |fs| == 6
  {
    [IntToString(t.id), TypeName(TypeOf(t)), t.name, StatusName(t.status), t.description,
     if t.Subtask? then IntToString(t.epicId) else ""]
  }

  /** `toString(task)`: the fields joined by commas, then a line break. */
  function ToString(t: Task): (r: string)
    ensures |r| > 0 && r[|r| - 1] == '\n'
    ensures r[..|r| - 1] == Join(Fields(t), ',')
  {
    var line := IntToString(t.id) + "," + TypeName(TypeOf(t)) + "," + t.name + "," +
      StatusName(t.status) + "," + t.description + "," +
      (if t.Subtask? then IntToString(t.epicId) else "");
    JoinSix(Fields(t));
    line + "\n"
  }

  lemma JoinSix(fs: seq<string>)
    requires |fs| == 6
    ensures Join(fs, ',') == fs[0] + "," + fs[1] + "," + fs[2] + "," + fs[3] + "," + fs[4] + "," + fs[5]
  {
    var c := ",";
    assert fs[4..][1..] == fs[5..] && fs[3..][1..] == fs[4..] && fs[2..][1..] == fs[3..];
    assert fs[1..][1..] == fs[2..];
    assert Join(fs[5..], ',') == fs[5];
    assert Join(fs[4..], ',') == fs[4] + c + fs[5];
    assert Join(fs[3..], ',') == fs[3] + c + (fs[4] + c + fs[5]);
    assert Join(fs[2..], ',') == fs[2] + c + (fs[3] + c + (fs[4] + c + fs[5]));
    assert Join(fs[1..], ',') == fs[1] + c + (fs[2] + c + (fs[3] + c + (fs[4] + c + fs[5])));
  }

  /** The line `readLine` gives back: the text without its line break. */
  function Line(t: Task): (l: string)
    ensures l == Join(Fields(t), ',')
  {
    var s := ToString(t);
    s[..|s| - 1]
  }

  // -------------------------------------------------------------- reading

  /** `fromString(value)`: split at commas, then read the fields by
      position. */
  function FromString(value: string): Result<Task, ParseError> {
    FromFields(Split(value, ','))
  }

  /** The positional reads of `fromString`, in the order Java evaluates
      them: id, name, status, description, type, and for a subtask the epic
      id. An epic line ignores the status it carries; fields past the sixth
      are never read. */
  function FromFields(values: seq<string>): (r: Result<Task, ParseError>)
    ensures r.Ok? ==>
      && |values| >= 5
      && ParseInt(values[0]) == Some(r.value.id)
      && TypeValueOf(values[1]) == Some(TypeOf(r.value))
      && r.value.name == values[2]
      && StatusValueOf(values[3]).Some?
      && r.value.description == values[4]
      && r.value.duration.None? && r.value.startTime.None?
    ensures r.Ok? && !r.value.Epic? ==> StatusValueOf(values[3]) == Some(r.value.status)
    ensures r.Ok? && r.value.Epic? ==> r.value == NewEpic(r.value.id, values[2], values[4])
    ensures r.Ok? && r.value.Subtask? ==> |values| >= 6 && ParseInt(values[5]) == Some(r.value.epicId)
  {
    if |values| == 0 then Err(MissingField)
    else
      match ParseInt(values[0])
      case None => Err(NotANumber)
      case Some(id) =>
        if |values| < 4 then Err(MissingField)
        else
          match StatusValueOf(values[3])
          case None => Err(UnknownName)
          case Some(status) =>
            if |values| < 5 then Err(MissingField)
            else
              var name, desc, kind := values[2], values[4], TypeValueOf(values[1]);
              if kind.None? then Err(UnknownName)
              else if kind.value == EpicKind then Ok(NewEpic(id, name, desc))
              else if kind.value == SubtaskKind then
                if |values| < 6 then Err(MissingField)
                else
                  match ParseInt(values[5])
                  case None => Err(NotANumber)
                  case Some(epicId) => Ok(Subtask(id, name, desc, status, None, None, epicId))
              else Ok(Task(id, name, desc, status, None, None))
  }

  // ----------------------------------------------------------- round trips

  /** What the format can carry: an id a Java `int` holds, and name and
      description free of commas. */
  predicate Writable(t: Task) {
    && IsInt32(t.id)
    && ',' !in t.name && ',' !in t.description
    && (t.Subtask? ==> IsInt32(t.epicId))
  }

  /** No field of a writable item holds a comma. */
  lemma FieldsCommaFree(t: Task)
    requires Writable(t)
    ensures SeparatorFree(Fields(t), ',')
  {
    IntToStringAvoids(t.id, ',');
    if t.Subtask? {
      IntToStringAvoids(t.epicId, ',');
    }
    assert ',' !in TypeName(TypeOf(t)) && ',' !in StatusName(t.status);
  }

  /** `split` on a written line: all six fields for a subtask (its epic id is
      never empty), and the fields before the empty sixth one otherwise. */
  lemma SplitLine(t: Task)
    requires Writable(t)
    ensures Split(Line(t), ',') == DropTrailingEmpty(Fields(t))
  {
    FieldsCommaFree(t);
    SplitJoin(Fields(t), ',');
  }

  /** The read of a written standalone task: id, name, status and description
      come back, and duration and start time are lost. */
  lemma {:induction false} TaskRoundTrip(t: Task)
    requires t.Task? && Writable(t) && t.description != ""
    ensures FromString(Line(t)) == Ok(Task(t.id, t.name, t.description, t.status, None, None))
  {
    var fs := Fields(t);
    SplitLine(t);
    assert DropTrailingEmpty(fs) == fs[..5];
    ParseIntToString(t.id);
    ValueOfName(TypeOf(t), t.status);
  }

  /** The read of a written subtask also brings back its epic id; its
      description may even be empty, as the epic id follows it. */
  lemma {:induction false} SubtaskRoundTrip(t: Task)
    requires t.Subtask? && Writable(t)
    ensures FromString(Line(t)) == Ok(Subtask(t.id, t.name, t.description, t.status, None, None, t.epicId))
  {
    var fs := Fields(t);
    SplitLine(t);
    assert fs[5] == IntToString(t.epicId);
    assert DropTrailingEmpty(fs) == fs;
    ParseIntToString(t.id);
    ParseIntToString(t.epicId);
    ValueOfName(TypeOf(t), t.status);
  }

  /** A written epic reads back as a fresh epic: status NEW and no subtasks,
      whatever status and subtasks were written from. */
  lemma {:induction false} EpicRoundTrip(t: Task)
    requires t.Epic? && Writable(t) && t.description != ""
    ensures FromString(Line(t)) == Ok(NewEpic(t.id, t.name, t.description))
  {
    var fs := Fields(t);
    SplitLine(t);
    assert DropTrailingEmpty(fs) == fs[..5];
    ParseIntToString(t.id);
    ValueOfName(TypeOf(t), t.status);
  }

  // ---------------------------------------------------------------- errors

  /** The id field must be an integer. */
  lemma BadIdRejected(values: seq<string>)
    requires |values| >= 1 && ParseInt(values[0]).None?
    ensures FromFields(values) == Err(NotANumber)
  {
  }

  /** The status must be a constant's name, even on an epic line. */
  lemma BadStatusRejected(values: seq<string>)
    requires |values| >= 4 && ParseInt(values[0]).Some? && StatusValueOf(values[3]).None?
    ensures FromFields(values) == Err(UnknownName)
  {
  }

  /** The type must be a constant's name. */
  lemma BadTypeRejected(values: seq<string>)
    requires |values| >= 5 && ParseInt(values[0]).Some? && StatusValueOf(values[3]).Some?
    requires TypeValueOf(values[1]).None?
    ensures FromFields(values) == Err(UnknownName)
  {
  }

  /** A subtask line needs an integer sixth field. */
  lemma BadEpicIdRejected(values: seq<string>)
    requires |values| >= 5 && ParseInt(values[0]).Some? && StatusValueOf(values[3]).Some?
    requires TypeValueOf(values[1]) == Some(SubtaskKind)
    requires |values| == 5 || ParseInt(values[5]).None?
    ensures FromFields(values).Err?
  {
  }

  /** Fewer than five fields never parse. */
  lemma ShortLineRejected(values: seq<string>)
    requires |values| < 5
    ensures FromFields(values).Err?
  {
  }

  /** Fields after the ones a kind uses are ignored: a task line with a
      non-numeric sixth field and a seventh still parses. */
  lemma ExtraFieldsIgnored(id: int, name: string, desc: string, extra: seq<string>)
    requires IsInt32(id)
    ensures FromFields([IntToString(id), "TASK", name, "NEW", desc] + extra) == Ok(Task(id, name, desc, New, None, None))
  {
    ParseIntToString(id);
    ValueOfName(TaskKind, New);
  }

  // -------------------------------------------------- the empty description

  /** As written, a standalone task or an epic with an empty description is
      written as a line that cannot be read back: `split` drops the empty
      description together with the empty last field, leaving four fields. */
  lemma EmptyDescriptionUnreadable(t: Task)
    requires !t.Subtask? && Writable(t) && t.description == ""
    ensures FromString(Line(t)) == Err(MissingField)
  {
    var fs := Fields(t);
    SplitLine(t);
    assert fs[3] != "" by {
      assert |StatusName(t.status)| > 0;
    }
    assert DropTrailingEmpty(fs) == DropTrailingEmpty(fs[..5]) == fs[..4];
    ParseIntToString(t.id);
    ValueOfName(TypeOf(t), t.status);
  }

  /** The read with `split(",", -1)`, which keeps trailing empty fields. */
  function FromStringKeepingEmpty(value: string): Result<Task, ParseError> {
    FromFields(Pieces(value, ','))
  }

  /** With trailing empty fields kept, every writable item reads back, an
      empty description included. */
  lemma {:induction false} KeepingEmptyRoundTrip(t: Task)
    requires Writable(t)
    ensures FromStringKeepingEmpty(Line(t)) ==
      match t
      case Task(id, n, d, st, _, _) => Ok(Task(id, n, d, st, None, None))
      case Epic(id, n, d, _, _, _, _, _) => Ok(NewEpic(id, n, d))
      case Subtask(id, n, d, st, _, _, e) => Ok(Subtask(id, n, d, st, None, None, e))
  {
    FieldsCommaFree(t);
    PiecesOfJoin(Fields(t), ',');
    ParseIntToString(t.id);
    if t.Subtask? {
      ParseIntToString(t.epicId);
    }
    ValueOfName(TypeOf(t), t.status);
  }
}
