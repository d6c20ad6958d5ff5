/**
 * The entity model: a standalone task, an epic and a subtask share id, name,
 * description, status, an optional duration and an optional start time.
 * Points in time and durations are whole minutes.
 */
module Model {
  import opened Wrappers

  datatype Status = New | InProgress | Done

  datatype Task =
    | Task(id: int, name: string, description: string, status: Status,
           duration: Option<int>, startTime: Option<int>)
    | Epic(id: int, name: string, description: string, status: Status,
           duration: Option<int>, startTime: Option<int>,
           subtasks: seq<Task>, endTime: Option<int>)
    | Subtask(id: int, name: string, description: string, status: Status,
              duration: Option<int>, startTime: Option<int>, epicId: int)

  /** `getEndTime`: an epic reports its stored end time; any other item ends
      its duration after its start, and has no end when either is absent. */
  function EndTime(t: Task): (r: Option<int>)
    ensures !t.Epic? ==> (r.Some? <==> t.startTime.Some? && t.duration.Some?)
    ensures !t.Epic? && r.Some? ==> r.value == t.startTime.value + t.duration.value
  {
    if t.Epic? then t.endTime
    else if t.startTime.Some? && t.duration.Some? then Some(t.startTime.value + t.duration.value)
    else None
  }

  /** `setId`: the same item under another id. */
  function WithId(t: Task, id: int): (r: Task)
    ensures r.id == id && r.name == t.name && r.description == t.description
    ensures r.status == t.status && r.duration == t.duration && r.startTime == t.startTime
    ensures r.Task? == t.Task? && r.Epic? == t.Epic? && r.Subtask? == t.Subtask?
    ensures t.Epic? ==> r.subtasks == t.subtasks && r.endTime == t.endTime
    ensures t.Subtask? ==> r.epicId == t.epicId
    ensures EndTime(r) == EndTime(t)
  {
    match t
    case Task(_, n, d, st, du, sta) => Task(id, n, d, st, du, sta)
    case Epic(_, n, d, st, du, sta, subs, en) => Epic(id, n, d, st, du, sta, subs, en)
    case Subtask(_, n, d, st, du, sta, eid) => Subtask(id, n, d, st, du, sta, eid)
  }

  /** `new Epic(id, name, description)`: status NEW, no subtasks and, as the
      Task constructor leaves them, no duration, start or end. */
  function NewEpic(id: int, name: string, description: string): (e: Task)
    ensures e.Epic? && e.id == id && e.name == name && e.description == description
    ensures e.status == New && e.subtasks == []
    ensures e.duration.None? && e.startTime.None? && e.endTime.None?
  {
    Epic(id, name, description, New, None, None, [], None)
  }

  /** Some element has this id (Java's `equals` on tasks compares ids). */
  predicate HasId(l: seq<Task>, id: int) {
    exists i :: 0 <= i < |l| && l[i].id == id
  }

  /** No two elements share an id. */
  predicate DistinctIds(l: seq<Task>) {
    forall i, j :: 0 <= i < |l| && 0 <= j < |l| && i != j ==> l[i].id != l[j].id
  }

  function Ids(l: seq<Task>): (r: set<int>)
    ensures forall x :: x in r <==> HasId(l, x)
  {
    set i | 0 <= i < |l| :: l[i].id
  }

  /** `List.indexOf` under id equality: the position of the first element with this id. */
  function IndexOfId(l: seq<Task>, id: int): (k: nat)
    requires HasId(l, id)
    ensures k < |l| && l[k].id == id
    ensures forall i :: 0 <= i < k ==> l[i].id != id
  {
    if l[0].id == id then 0
    else
      assert HasId(l[1..], id) by {
        var i :| 0 <= i < |l| && l[i].id == id;
        assert l[1..][i - 1].id == id;
      }
      1 + IndexOfId(l[1..], id)
  }

  /** `List.remove(Object)` under id equality: drops the first element with
      this id, if there is one. */
  function RemoveFirst(l: seq<Task>, id: int): (r: seq<Task>)
    ensures HasId(l, id) ==> r == l[..IndexOfId(l, id)] + l[IndexOfId(l, id) + 1..]
    ensures !HasId(l, id) ==> r == l
  {
    if |l| == 0 then []
    else if l[0].id == id then l[1..]
    else
      var r := RemoveFirst(l[1..], id);
      RemoveFirstStep(l, id, r);
      [l[0]] + r
  }

  /** The recursive step of `RemoveFirst`: putting back a first element with
      another id turns a removal from the rest into a removal from the list. */
  lemma RemoveFirstStep(l: seq<Task>, id: int, r: seq<Task>)
    requires |l| > 0 && l[0].id != id
    requires HasId(l[1..], id) ==> r == l[1..][..IndexOfId(l[1..], id)] + l[1..][IndexOfId(l[1..], id) + 1..]
    requires !HasId(l[1..], id) ==> r == l[1..]
    ensures HasId(l, id) ==> [l[0]] + r == l[..IndexOfId(l, id)] + l[IndexOfId(l, id) + 1..]
    ensures !HasId(l, id) ==> [l[0]] + r == l
  {
    HasIdTail(l, id);
    if HasId(l, id) {
      var k := IndexOfId(l[1..], id);
      assert [l[0]] + l[1..][..k] == l[..1 + k];
      assert l[1..][k + 1..] == l[1 + k + 1..];
    } else {
      assert l == [l[0]] + l[1..];
    }
  }

  /** Distinct ids are as many as the elements carrying them. */
  lemma {:induction false} DistinctIdsCard(l: seq<Task>)
    requires DistinctIds(l)
    ensures |Ids(l)| == |l|
  {
    if |l| > 0 {
      var t := l[1..];
      assert DistinctIds(t) by {
        forall i, j | 0 <= i < |t| && 0 <= j < |t| && i != j ensures t[i].id != t[j].id {
          assert t[i] == l[i + 1] && t[j] == l[j + 1];
        }
      }
      DistinctIdsCard(t);
      assert Ids(l) == {l[0].id} + Ids(t) by {
        assert l == [l[0]] + t;
      }
      assert l[0].id !in Ids(t) by {
        forall i | 0 <= i < |t| ensures t[i].id != l[0].id {
          assert t[i] == l[i + 1];
        }
      }
    }
  }

  /** Past a first element with another id, the id is found in the rest,
      one position further on. */
  lemma HasIdTail(l: seq<Task>, id: int)
    requires |l| > 0 && l[0].id != id
    ensures HasId(l, id) <==> HasId(l[1..], id)
    ensures HasId(l, id) ==> IndexOfId(l, id) == 1 + IndexOfId(l[1..], id)
  {
    if HasId(l[1..], id) {
      var i :| 0 <= i < |l[1..]| && l[1..][i].id == id;
      assert l[i + 1].id == id;
    }
    if HasId(l, id) {
      var i :| 0 <= i < |l| && l[i].id == id;
      assert l[1..][i - 1].id == id;
    }
  }

  /** Dropping position `k`: the elements before it stay put, those after move down one. */
  lemma DropAt(l: seq<Task>, k: nat)
    requires k < |l|
    ensures |l[..k] + l[k + 1..]| == |l| - 1
    ensures forall i :: 0 <= i < |l| - 1 ==>
      (l[..k] + l[k + 1..])[i] == (if i < k then l[i] else l[i + 1])
  {
  }

  /** In a list without repeated ids, removing one id keeps the others, in order. */
  lemma {:induction false} RemoveFirstKeepsOthers(l: seq<Task>, id: int)
    requires DistinctIds(l)
    ensures DistinctIds(RemoveFirst(l, id))
    ensures !HasId(RemoveFirst(l, id), id)
    ensures forall x :: x in RemoveFirst(l, id) <==> x in l && x.id != id
  {
    if HasId(l, id) {
      var k := IndexOfId(l, id);
      DropDistinct(l, k);
      DropMembers(l, k);
    }
  }

  /** Dropping a position of a list without repeated ids leaves no repeats,
      and no element with the dropped id. */
  lemma DropDistinct(l: seq<Task>, k: nat)
    requires DistinctIds(l) && k < |l|
    ensures DistinctIds(l[..k] + l[k + 1..])
    ensures !HasId(l[..k] + l[k + 1..], l[k].id)
  {
    var r := l[..k] + l[k + 1..];
    DropAt(l, k);
    forall i, j | 0 <= i < |r| && 0 <= j < |r| && i != j ensures r[i].id != r[j].id {
      var i' := if i < k then i else i + 1;
      var j' := if j < k then j else j + 1;
      assert r[i] == l[i'] && r[j] == l[j'];
    }
    forall i | 0 <= i < |r| ensures r[i].id != l[k].id {
      var i' := if i < k then i else i + 1;
      assert r[i] == l[i'];
    }
  }

  /** Dropping a position of a list without repeated ids leaves exactly the
      elements with other ids. */
  lemma DropMembers(l: seq<Task>, k: nat)
    requires DistinctIds(l) && k < |l|
    ensures forall x :: x in l[..k] + l[k + 1..] <==> x in l && x.id != l[k].id
  {
    var r := l[..k] + l[k + 1..];
    DropAt(l, k);
    forall x ensures x in r <==> x in l && x.id != l[k].id {
      if x in l && x.id != l[k].id {
        var i :| 0 <= i < |l| && l[i] == x;
        assert i != k;
        if i < k { assert r[i] == x; } else { assert r[i - 1] == x; }
      }
      if x in r {
        var i :| 0 <= i < |r| && r[i] == x;
        assert x == l[if i < k then i else i + 1];
      }
    }
  }

  /** The list after `List.remove` once for each id in `ids`, whatever the
      order: the first element with each of those ids goes. */
  function RemoveEach(l: seq<Task>, ids: set<int>): seq<Task> {
    if |l| == 0 then []
    else if l[0].id in ids then RemoveEach(l[1..], ids - {l[0].id})
    else [l[0]] + RemoveEach(l[1..], ids)
  }

  lemma {:induction false} RemoveEachNone(l: seq<Task>)
    ensures RemoveEach(l, {}) == l
  {
    if |l| > 0 {
      RemoveEachNone(l[1..]);
      assert l == [l[0]] + l[1..];
    }
  }

  /** One more `List.remove` extends the set of removed ids; so removing
      ids one at a time gives the same list in any order. */
  lemma {:induction false} RemoveEachStep(l: seq<Task>, ids: set<int>, a: int)
    requires a !in ids
    ensures RemoveFirst(RemoveEach(l, ids), a) == RemoveEach(l, ids + {a})
  {
    if |l| > 0 {
      if l[0].id in ids {
        assert (ids + {a}) - {l[0].id} == (ids - {l[0].id}) + {a};
        RemoveEachStep(l[1..], ids - {l[0].id}, a);
      } else if l[0].id == a {
        assert (ids + {a}) - {a} == ids;
      } else {
        RemoveEachStep(l[1..], ids, a);
      }
    }
  }

  /** Removing every id of a repeat-free list leaves nothing. */
  lemma {:induction false} RemoveEachAll(l: seq<Task>, ids: set<int>)
    requires DistinctIds(l)
    requires forall i :: 0 <= i < |l| ==> l[i].id in ids
    ensures RemoveEach(l, ids) == []
  {
    if |l| > 0 {
      var t := l[1..];
      assert DistinctIds(t) by {
        forall i, j | 0 <= i < |t| && 0 <= j < |t| && i != j ensures t[i].id != t[j].id {
          assert t[i] == l[i + 1] && t[j] == l[j + 1];
        }
      }
      forall i | 0 <= i < |t| ensures t[i].id in ids - {l[0].id} {
        assert t[i] == l[i + 1];
      }
      RemoveEachAll(t, ids - {l[0].id});
    }
  }
}
