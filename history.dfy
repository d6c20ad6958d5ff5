/**
 * The view history: the most recently viewed entry per id, oldest first.
 * Kept as a doubly linked list of nodes plus a map from id to node, so that
 * an entry can be unlinked from any position in constant time.
 */
module History {
  import opened Wrappers
  import opened Model

  // ------------------------------------------------- abstract history

  /** The history without the entries whose id is in `ids`. */
  function RemoveIds(h: seq<Task>, ids: set<int>): seq<Task> {
    if |h| == 0 then []
    else if h[0].id in ids then RemoveIds(h[1..], ids)
    else [h[0]] + RemoveIds(h[1..], ids)
  }

  /** The history after viewing `t`: any entry for its id goes, `t` becomes the newest. */
  function Added(h: seq<Task>, t: Task): seq<Task> {
    RemoveIds(h, {t.id}) + [t]
  }

  /** Removing keeps exactly the other entries, without introducing repeats. */
  lemma {:induction false} RemoveIdsSpec(h: seq<Task>, ids: set<int>)
    ensures forall x :: x in RemoveIds(h, ids) <==> x in h && x.id !in ids
    ensures DistinctIds(h) ==> DistinctIds(RemoveIds(h, ids))
    ensures |RemoveIds(h, ids)| <= |h|
  {
    if |h| > 0 {
      RemoveIdsSpec(h[1..], ids);
      assert h == [h[0]] + h[1..];
      var r := RemoveIds(h[1..], ids);
      if DistinctIds(h) {
        assert DistinctIds(h[1..]) by {
          forall i, j | 0 <= i < |h[1..]| && 0 <= j < |h[1..]| && i != j
            ensures h[1..][i].id != h[1..][j].id
          {
            assert h[1..][i] == h[i + 1] && h[1..][j] == h[j + 1];
          }
        }
        if h[0].id !in ids {
          forall y | y in r ensures y.id != h[0].id {
            var j :| 0 <= j < |h[1..]| && h[1..][j] == y;
            assert h[j + 1] == y;
          }
          var q := [h[0]] + r;
          forall i, j | 0 <= i < |q| && 0 <= j < |q| && i != j ensures q[i].id != q[j].id {
            if i == 0 { assert q[j] in r; }
            else if j == 0 { assert q[i] in r; }
            else { assert q[i] == r[i - 1] && q[j] == r[j - 1]; }
          }
        }
      }
    }
  }

  /** A removal that finds nothing to remove changes nothing. */
  lemma {:induction false} RemoveIdsAbsent(h: seq<Task>, ids: set<int>)
    requires forall i :: 0 <= i < |h| ==> h[i].id !in ids
    ensures RemoveIds(h, ids) == h
  {
    if |h| > 0 {
      assert forall i :: 1 <= i < |h| ==> h[1..][i - 1] == h[i];
      RemoveIdsAbsent(h[1..], ids);
      assert h == [h[0]] + h[1..];
    }
  }

  lemma {:induction false} RemoveIdsTwice(h: seq<Task>, a: set<int>, b: set<int>)
    ensures RemoveIds(RemoveIds(h, a), b) == RemoveIds(h, a + b)
  {
    if |h| > 0 {
      RemoveIdsTwice(h[1..], a, b);
    }
  }

  /** Removing the id at position `k` of a repeat-free history keeps every
      other entry in its relative order. */
  lemma {:induction false} RemoveIdAt(h: seq<Task>, k: nat)
    requires DistinctIds(h) && k < |h|
    ensures RemoveIds(h, {h[k].id}) == h[..k] + h[k + 1..]
  {
    if k == 0 {
      assert forall i :: 1 <= i < |h| ==> h[1..][i - 1] == h[i] && h[i].id != h[0].id;
      RemoveIdsAbsent(h[1..], {h[0].id});
    } else {
      var t := h[1..];
      assert DistinctIds(t) by {
        forall i, j | 0 <= i < |t| && 0 <= j < |t| && i != j ensures t[i].id != t[j].id {
          assert t[i] == h[i + 1] && t[j] == h[j + 1];
        }
      }
      assert t[k - 1] == h[k];
      RemoveIdAt(t, k - 1);
      assert h[0].id != h[k].id;
      assert h[..k] == [h[0]] + t[..k - 1];
      assert h[k + 1..] == t[k..];
    }
  }

  /** Viewing `t` leaves a repeat-free history with `t` newest and no other
      entry for its id; the history grows by one exactly when the id is new. */
  lemma AddedSpec(h: seq<Task>, t: Task)
    requires DistinctIds(h)
    ensures var r := Added(h, t);
      DistinctIds(r) && |r| > 0 && r[|r| - 1] == t &&
      (forall i :: 0 <= i < |r| - 1 ==> r[i].id != t.id) &&
      (forall x :: x in r <==> x == t || (x in h && x.id != t.id)) &&
      |r| == if HasId(h, t.id) then |h| else |h| + 1
  {
    RemoveIdsSpec(h, {t.id});
    var q := RemoveIds(h, {t.id});
    var r := q + [t];
    forall i | 0 <= i < |r| - 1 ensures r[i].id != t.id {
      assert r[i] == q[i] && q[i] in q;
    }
    forall i, j | 0 <= i < |r| && 0 <= j < |r| && i != j ensures r[i].id != r[j].id {
      if i < |q| && j < |q| { assert r[i] == q[i] && r[j] == q[j]; }
    }
    if HasId(h, t.id) {
      var k :| 0 <= k < |h| && h[k].id == t.id;
      RemoveIdAt(h, k);
    } else {
      RemoveIdsAbsent(h, {t.id});
    }
  }

  /** Viewing an id that is not in the history appends it and keeps the rest. */
  lemma AddedAbsent(h: seq<Task>, t: Task)
    requires !HasId(h, t.id)
    ensures Added(h, t) == h + [t]
  {
    RemoveIdsAbsent(h, {t.id});
  }

  /** Viewing an id again leaves one entry for it, holding the object passed last. */
  lemma {:induction false} AddedAgain(h: seq<Task>, t: Task, t': Task)
    requires t'.id == t.id
    ensures Added(Added(h, t), t') == Added(h, t')
  {
    var q := RemoveIds(h, {t.id});
    RemoveIdsSpec(h, {t.id});
    calc {
      RemoveIds(q + [t], {t.id});
      { RemoveIdsConcat(q, [t], {t.id}); }
      RemoveIds(q, {t.id}) + RemoveIds([t], {t.id});
      { RemoveIdsTwice(h, {t.id}, {t.id}); assert {t.id} + {t.id} == {t.id}; }
      q;
    }
  }

  lemma {:induction false} RemoveIdsConcat(a: seq<Task>, b: seq<Task>, ids: set<int>)
    ensures RemoveIds(a + b, ids) == RemoveIds(a, ids) + RemoveIds(b, ids)
  {
    if |a| == 0 {
      assert a + b == b;
    } else {
      assert (a + b)[0] == a[0] && (a + b)[1..] == a[1..] + b;
      RemoveIdsConcat(a[1..], b, ids);
    }
  }

  /** Views in order, starting from `h`. */
  function AddAll(h: seq<Task>, ts: seq<Task>): seq<Task>
    decreases |ts|
  {
    if |ts| == 0 then h else AddAll(Added(h, ts[0]), ts[1..])
  }

  /** There is no capacity bound: viewing n items with distinct ids, starting
      from an empty history, gives exactly those n entries in viewing order. */
  lemma {:induction false} NoCapacityBound(h: seq<Task>, ts: seq<Task>)
    requires DistinctIds(h + ts)
    ensures AddAll(h, ts) == h + ts
    decreases |ts|
  {
    if |ts| > 0 {
      assert !HasId(h, ts[0].id) by {
        forall i | 0 <= i < |h| ensures h[i].id != ts[0].id {
          assert (h + ts)[i] == h[i] && (h + ts)[|h|] == ts[0];
        }
      }
      AddedAbsent(h, ts[0]);
      assert h + ts == (h + [ts[0]]) + ts[1..];
      NoCapacityBound(h + [ts[0]], ts[1..]);
    }
  }

  // ------------------------------------------------- linked implementation

  /** The map part of the history's invariant, on values: entry `i`'s id
      leads to node `i`, and every id in the map has an entry. */
  ghost predicate MapInv(history: map<int, Node>, nodes: seq<Node>, entries: seq<Task>) {
    && |entries| == |nodes|
    && (forall i :: 0 <= i < |nodes| ==> entries[i].id in history && history[entries[i].id] == nodes[i])
    && (forall id :: id in history ==> HasId(entries, id))
  }

  ghost predicate DistinctNodes(nodes: seq<Node>) {
    forall i, j :: 0 <= i < j < |nodes| ==> nodes[i] != nodes[j]
  }

  lemma DistinctRemove(nodes: seq<Node>, k: nat)
    requires DistinctNodes(nodes) && k < |nodes|
    ensures DistinctNodes(nodes[..k] + nodes[k + 1..])
  {
    var ns := nodes[..k] + nodes[k + 1..];
    forall i, j | 0 <= i < j < |ns| ensures ns[i] != ns[j] {
      var i' := if i < k then i else i + 1;
      var j' := if j < k then j else j + 1;
      assert ns[i] == nodes[i'] && ns[j] == nodes[j'];
    }
  }

  /** Dropping position `k` from a chain whose neighbours of `k` were linked
      to each other: the `prev` links of what is left still form the chain. */
  lemma PrevAfterDrop(ns: seq<Node>, k: nat)
    requires k < |ns|
    requires forall i :: 0 < i < |ns| && i != k && i != k + 1 ==> ns[i].prev == ns[i - 1]
    requires 0 < k < |ns| - 1 ==> ns[k + 1].prev == ns[k - 1]
    ensures var r := ns[..k] + ns[k + 1..];
      forall i :: 0 < i < |r| ==> r[i].prev == r[i - 1]
  {
    var r := ns[..k] + ns[k + 1..];
    forall i | 0 < i < |r| ensures r[i].prev == r[i - 1] {
      if i < k {
        assert r[i] == ns[i] && r[i - 1] == ns[i - 1];
      } else if i == k {
        assert r[i] == ns[k + 1] && r[i - 1] == ns[k - 1];
      } else {
        assert r[i] == ns[i + 1] && r[i - 1] == ns[i];
      }
    }
  }

  /** The same for the `next` links. */
  lemma NextAfterDrop(ns: seq<Node>, k: nat)
    requires k < |ns|
    requires forall i :: 0 <= i < |ns| - 1 && i != k - 1 && i != k ==> ns[i].next == ns[i + 1]
    requires 0 < k < |ns| - 1 ==> ns[k - 1].next == ns[k + 1]
    ensures var r := ns[..k] + ns[k + 1..];
      forall i :: 0 <= i < |r| - 1 ==> r[i].next == r[i + 1]
  {
    var r := ns[..k] + ns[k + 1..];
    forall i | 0 <= i < |r| - 1 ensures r[i].next == r[i + 1] {
      if i < k - 1 {
        assert r[i] == ns[i] && r[i + 1] == ns[i + 1];
      } else if i == k - 1 {
        assert r[i] == ns[k - 1] && r[i + 1] == ns[k + 1];
      } else {
        assert r[i] == ns[i + 1] && r[i + 1] == ns[i + 2];
      }
    }
  }

  /** Dropping the same position from the nodes and their entries keeps
      each node in `repr` and carrying its entry. */
  lemma DataAfterDrop(ns: seq<Node>, es: seq<Task>, k: nat, repr: set<Node>)
    requires k < |ns| && |es| == |ns|
    requires forall i :: 0 <= i < |ns| ==> ns[i] in repr && ns[i].data == es[i]
    ensures var r, q := ns[..k] + ns[k + 1..], es[..k] + es[k + 1..];
      |q| == |r| && forall i :: 0 <= i < |r| ==> r[i] in repr && r[i].data == q[i]
  {
    var r, q := ns[..k] + ns[k + 1..], es[..k] + es[k + 1..];
    forall i | 0 <= i < |r| ensures r[i] in repr && r[i].data == q[i] {
      var j := if i < k then i else i + 1;
      assert r[i] == ns[j] && q[i] == es[j];
    }
  }

  /** With distinct nodes, the map determines the ids: no two entries share one,
      and the map's keys are exactly the entries' ids. */
  lemma MapInvIds(history: map<int, Node>, nodes: seq<Node>, entries: seq<Task>)
    requires MapInv(history, nodes, entries) && DistinctNodes(nodes)
    ensures DistinctIds(entries)
    ensures forall id :: id in history <==> HasId(entries, id)
    ensures forall id, i :: id in history && 0 <= i < |nodes| && history[id] == nodes[i] ==> entries[i].id == id
  {
    forall id, i | id in history && 0 <= i < |nodes| && history[id] == nodes[i]
      ensures entries[i].id == id
    {
      var j :| 0 <= j < |entries| && entries[j].id == id;
      assert history[entries[j].id] == nodes[j];
    }
  }

  lemma MapInvAppend(history: map<int, Node>, nodes: seq<Node>, entries: seq<Task>, n: Node, t: Task)
    requires MapInv(history, nodes, entries) && t.id !in history
    ensures MapInv(history[t.id := n], nodes + [n], entries + [t])
  {
    var h', ns, es := history[t.id := n], nodes + [n], entries + [t];
    forall id | id in h' ensures HasId(es, id) {
      if id == t.id {
        assert es[|entries|].id == id;
      } else {
        var j :| 0 <= j < |entries| && entries[j].id == id;
        assert es[j] == entries[j];
      }
    }
    forall i | 0 <= i < |ns| ensures es[i].id in h' && h'[es[i].id] == ns[i] {
      if i < |nodes| {
        assert es[i] == entries[i] && ns[i] == nodes[i];
        assert entries[i].id in history;
      }
    }
  }

  lemma MapInvRemove(history: map<int, Node>, nodes: seq<Node>, entries: seq<Task>, k: nat)
    requires MapInv(history, nodes, entries) && DistinctNodes(nodes) && k < |nodes|
    ensures MapInv(history - {entries[k].id}, nodes[..k] + nodes[k + 1..], entries[..k] + entries[k + 1..])
  {
    MapInvIds(history, nodes, entries);
    var id := entries[k].id;
    var h', ns, es := history - {id}, nodes[..k] + nodes[k + 1..], entries[..k] + entries[k + 1..];
    forall i | 0 <= i < |ns| ensures es[i].id in h' && h'[es[i].id] == ns[i] {
      var j := if i < k then i else i + 1;
      assert es[i] == entries[j] && ns[i] == nodes[j];
      assert entries[j].id != id;
    }
    forall x | x in h' ensures HasId(es, x) {
      var j :| 0 <= j < |entries| && entries[j].id == x;
      assert j != k;
      if j < k { assert es[j] == entries[j]; } else { assert es[j - 1] == entries[j]; }
    }
  }

  /** Dropping a mapped id from the map, its node from the list and its
      entry from the entries keeps the invariant, and drops exactly that entry. */
  lemma MapInvRemoveId(history: map<int, Node>, nodes: seq<Node>, entries: seq<Task>, id: int)
    returns (k: nat)
    requires MapInv(history, nodes, entries) && DistinctNodes(nodes) && id in history
    ensures k < |nodes| && nodes[k] == history[id]
    ensures MapInv(history - {id}, nodes[..k] + nodes[k + 1..], entries[..k] + entries[k + 1..])
    ensures entries[..k] + entries[k + 1..] == RemoveIds(entries, {id})
  {
    MapInvIds(history, nodes, entries);
    var j :| 0 <= j < |entries| && entries[j].id == id;
    k := j;
    MapInvRemove(history, nodes, entries, k);
    RemoveIdAt(entries, k);
  }

  class Node {
    var prev: Node?
    var data: Task
    var next: Node?

    constructor (prev: Node?, data: Task, next: Node?)
      ensures this.prev == prev && this.data == data && this.next == next
    {
      this.prev := prev;
      this.data := data;
      this.next := next;
    }
  }

  class InMemoryHistoryManager {
    var head: Node?
    var tail: Node?
    var history: map<int, Node>

    /** The nodes from head to tail, their data, and the nodes allocated so far. */
    ghost var nodes: seq<Node>
    ghost var Entries: seq<Task>
    ghost var Repr: set<Node>

    /** The list part of the invariant: `nodes` is the chain from `head`
        along `next` to `tail`, with `prev` the reverse chain. */
    ghost predicate Linked()
      reads this`head, this`tail, this`nodes, this`Entries, this`Repr, Repr
    {
      && (forall i :: 0 <= i < |nodes| ==> nodes[i] in Repr)
      && |Entries| == |nodes|
      && (forall i :: 0 <= i < |nodes| ==> nodes[i].data == Entries[i])
      && DistinctNodes(nodes)
      && (forall i :: 0 < i < |nodes| ==> nodes[i].prev == nodes[i - 1])
      && (forall i :: 0 <= i < |nodes| - 1 ==> nodes[i].next == nodes[i + 1])
      && (|nodes| > 0 ==> nodes[0].prev == null && nodes[|nodes| - 1].next == null)
      && head == (if |nodes| == 0 then null else nodes[0])
      && tail == (if |nodes| == 0 then null else nodes[|nodes| - 1])
    }

    /** The whole invariant: the list, and the map from each entry's id to its node. */
    ghost predicate Valid()
      reads this, Repr
    {
      Linked() && MapInv(history, nodes, Entries)
    }

    lemma ValidIds()
      requires Valid()
      ensures DistinctIds(Entries)
      ensures forall id :: id in history <==> HasId(Entries, id)
    {
      MapInvIds(history, nodes, Entries);
    }

    /** The map's keys are exactly the ids in the list, one per entry. */
    lemma SizeMatches()
      requires Valid()
      ensures history.Keys == Ids(Entries) && |history| == |Entries|
    {
      ValidIds();
      DistinctIdsCard(Entries);
      assert forall id :: id in history.Keys <==> id in Ids(Entries);
    }

    constructor ()
      ensures Valid() && fresh(Repr) && Entries == []
    {
      head, tail := null, null;
      history := map[];
      nodes, Entries := [], [];
      Repr := {};
    }

    /** `linkLast`: a new node after the old tail, registered in the map. */
    method LinkLast(task: Task)
      requires Valid() && task.id !in history
      modifies this, Repr
      ensures Valid() && fresh(Repr - old(Repr))
      ensures Entries == old(Entries) + [task]
      ensures history.Keys == old(history.Keys) + {task.id}
    {
      ghost var ns, es := nodes, Entries;
      var newNode := Append(task);
      MapInvAppend(history, ns, es, newNode, task);
      history := history[task.id := newNode];
    }

    /** The list part of `linkLast`. */
    method Append(task: Task) returns (newNode: Node)
      requires Linked()
      modifies this`head, this`tail, this`nodes, this`Entries, this`Repr, Repr
      ensures Linked() && fresh(newNode) && Repr == old(Repr) + {newNode}
      ensures nodes == old(nodes) + [newNode] && Entries == old(Entries) + [task]
    {
      ghost var ns := nodes;
      var oldTail := tail;
      newNode := new Node(oldTail, task, null);
      Entries := Entries + [task];
      Repr := Repr + {newNode};
      nodes := nodes + [newNode];
      tail := newNode;
      if oldTail == null {
        head := newNode;
      } else {
        oldTail.next := newNode;
      }
      assert forall i :: 0 <= i < |ns| ==> nodes[i] == ns[i];
      assert DistinctNodes(nodes);
      forall i | 0 <= i < |nodes| - 1 ensures nodes[i].next == nodes[i + 1] {
        if i < |ns| - 1 {
          assert ns[i] != ns[|ns| - 1];
        }
      }
    }

    /** `removeNode`: splices the node out, from the head, the tail, the
        middle, or as the only node. */
    method RemoveNode(node: Node, ghost k: nat)
      requires Linked() && k < |nodes| && nodes[k] == node
      modifies this`head, this`tail, this`nodes, this`Entries, Repr
      ensures Linked() && Repr == old(Repr)
      ensures nodes == old(nodes[..k] + nodes[k + 1..])
      ensures Entries == old(Entries[..k] + Entries[k + 1..])
    {
      ghost var ns, es := nodes, Entries;
      ghost var n := |ns|;
      var next := node.next;
      var prev := node.prev;
      assert next == if k == n - 1 then null else ns[k + 1];
      assert prev == if k == 0 then null else ns[k - 1];
      if next == null && prev == null {
        head := null;
        tail := null;
      } else if prev == null {
        head := next;
        next.prev := null;
      } else if next == null {
        tail := prev;
        prev.next := null;
      } else {
        prev.next := next;
        next.prev := prev;
      }
      nodes := ns[..k] + ns[k + 1..];
      Entries := es[..k] + es[k + 1..];
      assert forall i :: 0 <= i < n && i != k + 1 ==> ns[i].prev == old(ns[i].prev);
      assert forall i :: 0 <= i < n && i != k - 1 ==> ns[i].next == old(ns[i].next);
      DroppedLinked(ns, es, k);
    }

    /** `Linked` for the chain `ns` without position `k`, once the links
        around `k` are mended. */
    lemma DroppedLinked(ns: seq<Node>, es: seq<Task>, k: nat)
      requires k < |ns| && |es| == |ns|
      requires nodes == ns[..k] + ns[k + 1..] && Entries == es[..k] + es[k + 1..]
      requires forall i :: 0 <= i < |ns| ==> ns[i] in Repr && ns[i].data == es[i]
      requires DistinctNodes(ns)
      requires forall i :: 0 < i < |ns| && i != k && i != k + 1 ==> ns[i].prev == ns[i - 1]
      requires forall i :: 0 <= i < |ns| - 1 && i != k - 1 && i != k ==> ns[i].next == ns[i + 1]
      requires 0 < k < |ns| - 1 ==> ns[k + 1].prev == ns[k - 1] && ns[k - 1].next == ns[k + 1]
      requires k == 0 && |ns| > 1 ==> ns[1].prev == null
      requires k == |ns| - 1 && |ns| > 1 ==> ns[k - 1].next == null
      requires 0 < k ==> ns[0].prev == null
      requires k < |ns| - 1 ==> ns[|ns| - 1].next == null
      requires head == (if |ns| == 1 then null else if k == 0 then ns[1] else ns[0])
      requires tail == (if |ns| == 1 then null else if k == |ns| - 1 then ns[k - 1] else ns[|ns| - 1])
      ensures Linked()
    {
      PrevAfterDrop(ns, k);
      NextAfterDrop(ns, k);
      DataAfterDrop(ns, es, k, Repr);
      DistinctRemove(ns, k);
      if |nodes| > 0 {
        assert nodes[0] == if k == 0 then ns[1] else ns[0];
        assert nodes[|nodes| - 1] == if k == |ns| - 1 then ns[k - 1] else ns[|ns| - 1];
      }
    }

    /** `remove(id)`: unlinks the entry for `id`, if any. */
    method Remove(id: int)
      requires Valid()
      modifies this, Repr
      ensures Valid() && Repr == old(Repr)
      ensures Entries == RemoveIds(old(Entries), {id})
      ensures history.Keys == old(history.Keys) - {id}
    {
      if id in history {
        ghost var ns, es := nodes, Entries;
        var node := history[id];
        ghost var k := MapInvRemoveId(history, ns, es, id);
        RemoveNode(node, k);
        assert nodes == ns[..k] + ns[k + 1..] && Entries == es[..k] + es[k + 1..];
        history := history - {id};
        assert Linked() && MapInv(history, nodes, Entries);
      } else {
        AbsentKept(id);
      }
    }

    /** An id without an entry removes nothing. */
    lemma AbsentKept(id: int)
      requires Valid() && id !in history
      ensures RemoveIds(Entries, {id}) == Entries
    {
      ValidIds();
      RemoveIdsAbsent(Entries, {id});
    }

    /** `add`: drops the old entry for the id, if any, then links `task` last. */
    method Add(task: Task)
      requires Valid()
      modifies this, Repr
      ensures Valid() && fresh(Repr - old(Repr))
      ensures Entries == Added(old(Entries), task)
    {
      if task.id in history {
        Remove(task.id);
      } else {
        ValidIds();
        RemoveIdsAbsent(Entries, {task.id});
      }
      LinkLast(task);
    }

    /** `getHistory` / `getTasks`: a new list, walked from head to tail. */
    method GetHistory() returns (r: seq<Task>)
      requires Valid()
      ensures r == Entries
    {
      r := [];
      var current := head;
      ghost var i := 0;
      while current != null
        invariant 0 <= i <= |nodes|
        invariant current == if i < |nodes| then nodes[i] else null
        invariant r == Entries[..i]
        decreases |nodes| - i
      {
        assert current.next == if i + 1 < |nodes| then nodes[i + 1] else null;
        r := r + [current.data];
        current := current.next;
        i := i + 1;
      }
      assert Entries[..|nodes|] == Entries;
    }
  }
}
