/**
 The list of running nodes of qsf_node.c. Every operation below runs under the
 mutex, so a run of the program is a sequence of them.
 */
module NodeRegistry {
  import opened Basics

  const MAX_ID_LENGTH: nat := 32

  type Name = string

  /** A node; `next` is its link in the list. */
  class Node {
    const name: Name
    var next: Node?

    constructor (name: Name)
      ensures this.name == name && next == null
    {
      this.name := name;
      next := null;
    }
  }

  type Nodes = seq<Node>

  // ----- what the operations do to the list of nodes

  /** The position of the first node with this name, or the length */
  function IndexOf(s: Nodes, name: Name): (k: nat)
    ensures k <= |s|
    ensures k < |s| ==> s[k].name == name
    ensures forall i :: 0 <= i < k ==> s[i].name != name
  {
    if s == [] then 0 else if s[0].name == name then 0 else 1 + IndexOf(s[1..], name)
  }

  function RemoveAt(s: Nodes, k: nat): Nodes
  {
    if k < |s| then s[..k] + s[k + 1..] else s
  }

  /** The answers of qsf_create_node before it touches the list; 0 means it goes on. */
  function Refusal(s: Nodes, name: Name): int
  {
    if |name| >= MAX_ID_LENGTH then 1
    else if name == "sys" then 2
    else if IndexOf(s, name) < |s| then 3
    else 0
  }

  /** The names are distinct, short enough for a socket identity, and none is reserved. */
  predicate Proper(s: Nodes)
  {
    && (forall i :: 0 <= i < |s| ==> |s[i].name| < MAX_ID_LENGTH && s[i].name != "sys")
    && (forall i, j :: 0 <= i < j < |s| ==> s[i].name != s[j].name)
  }

  /** Removal by the name of a node in a proper list removes that very node and no other. */
  lemma RemoveByNameIsExact(s: Nodes, k: nat)
    requires Proper(s) && k < |s|
    ensures IndexOf(s, s[k].name) == k
    ensures Proper(RemoveAt(s, k)) && s[k] !in RemoveAt(s, k) && |RemoveAt(s, k)| == |s| - 1
    ensures forall i :: 0 <= i < |s| && i != k ==> s[i] in RemoveAt(s, k)
    ensures forall i :: 0 <= i < |s| - 1 ==> RemoveAt(s, k)[i] == s[if i < k then i else i + 1]
  {
    var rest := RemoveAt(s, k);
    assert forall i :: 0 <= i < |rest| ==> rest[i] == s[if i < k then i else i + 1];
    forall i | 0 <= i < |s| && i != k
      ensures s[i] in rest
    {
      assert s[i] == rest[if i < k then i else i - 1];
    }
  }

  // ----- events

  datatype Event =
    | Create(n: Node, started: bool)  // qsf_create_node gets as far as making a node; does its thread start?
    | Refuse(name: Name)              // qsf_create_node refuses
    | Exit(n: Node)                   // cleanup_node, on the node's own thread

  /** The list, and the nodes freed so far, in the order of freeing */
  datatype State = State(live: Nodes, freed: Nodes)

  function Step(s: State, ev: Event): State
  {
    match ev
    case Create(n, started) => if started then s.(live := s.live + [n]) else s.(freed := s.freed + [n])
    case Refuse(_) => s
    case Exit(n) =>
      var k := IndexOf(s.live, n.name);
      if k < |s.live| then State(RemoveAt(s.live, k), s.freed + [s.live[k]]) else s
  }

  /** A created node is a new object with an acceptable name; only a running node exits. */
  predicate Enabled(s: State, ev: Event)
  {
    match ev
    case Create(n, _) => Refusal(s.live, n.name) == 0 && n !in s.live && n !in s.freed
    case Refuse(name) => Refusal(s.live, name) != 0
    case Exit(n) => n in s.live
  }

  predicate Inv(s: State)
  {
    && Proper(s.live)
    && NoRepeat(s.freed)
    && forall i :: 0 <= i < |s.live| ==> s.live[i] !in s.freed
  }

  lemma StepInv(s: State, ev: Event)
    requires Inv(s) && Enabled(s, ev)
    ensures Inv(Step(s, ev))
  {
    match ev
    case Create(n, started) =>
    case Refuse(_) =>
    case Exit(n) => ExitInv(s, n);
  }

  lemma ExitInv(s: State, n: Node)
    requires Inv(s) && n in s.live
    ensures Inv(Step(s, Exit(n)))
  {
    hide Proper, RemoveAt, IndexOf;
    var k :| 0 <= k < |s.live| && s.live[k] == n;
    RemoveByNameIsExact(s.live, k);
    AppendFresh(s.freed, n);
  }

  lemma AppendFresh(s: Nodes, n: Node)
    requires NoRepeat(s) && n !in s
    ensures NoRepeat(s + [n])
  {
  }

  // ----- what each event does

  /** A node whose thread started is last in the list; one whose thread did not is freed, and the list is as before. */
  lemma CreateLaw(s: State, n: Node, started: bool)
    ensures var t := Step(s, Create(n, started));
      && (started ==> t.live == s.live + [n] && t.freed == s.freed)
      && (!started ==> t.live == s.live && t.freed == s.freed + [n])
  {
  }

  /** An exit frees the node that exits, and takes it and no other out of the list. */
  lemma ExitLaw(s: State, n: Node, k: nat)
    requires Inv(s) && k < |s.live| && s.live[k] == n
    ensures var t := Step(s, Exit(n));
      && t.live == s.live[..k] + s.live[k + 1..] && n !in t.live
      && t.freed == s.freed + [n]
  {
    RemoveByNameIsExact(s.live, k);
  }

  /** Which names are refused, and how */
  lemma RefusalMeans(s: Nodes, name: Name)
    ensures Refusal(s, name) == 1 <==> |name| >= 32
    ensures Refusal(s, name) == 2 <==> name == "sys"
    ensures Refusal(s, name) == 3 <==>
      |name| < 32 && name != "sys" && exists i :: 0 <= i < |s| && s[i].name == name
    ensures Refusal(s, name) == 0 <==>
      |name| < 32 && name != "sys" && forall i :: 0 <= i < |s| ==> s[i].name != name
  {
    var k := IndexOf(s, name);
    if k < |s| {
      assert s[k].name == name;
    }
  }

  // ----- whole runs

  predicate Possible(s: State, evs: seq<Event>)
    decreases |evs|
  {
    evs != [] ==> Enabled(s, evs[0]) && Possible(Step(s, evs[0]), evs[1..])
  }

  /** The registry after any run of creations, refusals, failed thread starts and exits */
  function Run(s: State, evs: seq<Event>): (t: State)
    requires Inv(s) && Possible(s, evs)
    ensures Inv(t)
    decreases |evs|
  {
    if evs == [] then s
    else
      StepInv(s, evs[0]);
      Run(Step(s, evs[0]), evs[1..])
  }

  /** A node that has exited is freed once, and is never in the list again. */
  lemma {:induction false} FreedForGood(s: State, evs: seq<Event>, n: Node)
    requires Inv(s) && Possible(s, evs) && n in s.freed
    ensures n in Run(s, evs).freed && n !in Run(s, evs).live && NoRepeat(Run(s, evs).freed)
    decreases |evs|
  {
    if evs == [] {
      assert forall i :: 0 <= i < |s.live| ==> s.live[i] != n;
    } else {
      StepInv(s, evs[0]);
      FreedForGood(Step(s, evs[0]), evs[1..], n);
    }
  }

  // ----- the list itself

  function NodeAt(s: Nodes, i: int): Node?
  {
    if 0 <= i < |s| then s[i] else null
  }

  class Context {
    var count: int
    var list: Node?
    ghost var state: State

    ghost predicate Linked(s: Nodes)
      reads this`list, s`next
    {
      && list == NodeAt(s, 0)
      && forall i {:trigger s[i].next} :: 0 <= i < |s| ==> s[i].next == NodeAt(s, i + 1)
    }

    ghost predicate Valid()
      reads this, state.live
    {
      Inv(state) && Linked(state.live) && count == |state.live|
    }

    /** qsf_node_init */
    constructor ()
      ensures Valid() && state == State([], [])
    {
      count, list, state := 0, null, State([], []);
    }

    /** find_from_node_list */
    method Find(name: Name) returns (n: Node?)
      requires Valid()
      ensures var k := IndexOf(state.live, name); n == NodeAt(state.live, k)
    {
      ghost var s, k := state.live, 0;
      n := list;
      while n != null
        invariant k <= |s| && n == NodeAt(s, k) && k <= IndexOf(s, name)
        decreases |s| - k
      {
        if n.name == name {
          return;
        }
        n, k := n.next, k + 1;
      }
    }

    /** create_from_node_list: append at the end */
    method Append(name: Name) returns (n: Node)
      requires Valid()
      modifies this`count, this`list, state.live`next
      ensures fresh(n) && n.name == name && Linked(state.live + [n]) && count == old(count) + 1
    {
      n := new Node(name);
      ghost var s := state.live;
      ghost var after := s + [n];
      if list == null {
        list := n;
      } else {
        var last: Node := list;
        ghost var k := 0;
        while last.next != null
          invariant k < |s| && last == s[k]
          decreases |s| - k
        {
          last, k := last.next, k + 1;
        }
        DistinctNodes(s);
        last.next := n;
      }
      count := count + 1;
    }

    /** Unlink the node at position `k` */
    method Unlink(prev: Node?, cur: Node, ghost s: Nodes, ghost k: nat)
      requires Linked(s) && NoRepeat(s) && k < |s| && cur == s[k] && prev == NodeAt(s, k - 1)
      modifies this`list, s`next
      ensures Linked(RemoveAt(s, k))
    {
      ghost var rest := RemoveAt(s, k);
      assert forall i :: 0 <= i < |rest| ==> rest[i] == s[if i < k then i else i + 1];
      if prev == null {
        list := cur.next;
      } else {
        prev.next := cur.next;
      }
    }

    /** remove_from_node_list: unlink and free the first node that has this name */
    method Remove(name: Name, ghost s: Nodes) returns (ghost k: nat)
      requires Linked(s) && NoRepeat(s)
      modifies this`count, this`list, s`next
      ensures k == IndexOf(s, name) && Linked(RemoveAt(s, k))
      ensures count == old(count) - if k < |s| then 1 else 0
    {
      hide NoRepeat;
      var prev, cur: Node? := null, list;
      k := 0;
      while cur != null && cur.name != name
        invariant k <= |s| && cur == NodeAt(s, k) && prev == NodeAt(s, k - 1) && k <= IndexOf(s, name)
        modifies {}
        decreases |s| - k
      {
        prev, cur, k := cur, cur.next, k + 1;
      }
      if cur != null {
        Unlink(prev, cur, s, k);
        count := count - 1;
      }
    }

    /**
     qsf_create_node; `started` is whether uv_thread_create can start the thread,
     and `r` what it answers.
     */
    method CreateNode(name: Name, r: int) returns (result: int, ghost n: Node?)
      requires Valid()
      modifies this, state.live`next
      ensures Valid()
      ensures result == if Refusal(old(state).live, name) != 0 then Refusal(old(state).live, name) else r
      ensures Refusal(old(state).live, name) != 0 ==> state == Step(old(state), Refuse(name)) == old(state)
      ensures Refusal(old(state).live, name) == 0 ==>
        && n != null && fresh(n) && n.name == name && state == Step(old(state), Create(n, r >= 0))
        && (r < 0 ==> state.live == old(state).live && state.freed == old(state).freed + [n])
        && (r >= 0 ==> state.live == old(state).live + [n] && state.freed == old(state).freed)
    {
      hide Linked, NoRepeat, Proper, RemoveAt;
      n := null;
      if |name| >= MAX_ID_LENGTH {
        return 1, n;
      }
      if name == "sys" {
        return 2, n;
      }
      var found := Find(name);
      if found != null {
        return 3, n;
      }
      ghost var s := state;
      var node := Append(name);
      n := node;
      NewNode(s.live, node);
      StepInv(s, Create(node, r >= 0));
      if r < 0 {
        ghost var k := Remove(name, s.live + [node]);
        LastRemoved(s.live, node, k);
        state := s.(freed := s.freed + [node]);
      } else {
        state := s.(live := s.live + [node]);
      }
      return r, n;
    }

    /** cleanup_node, as far as the list is concerned */
    method Cleanup(s: Node)
      requires Valid() && s in state.live
      modifies this, state.live`next
      ensures Valid() && state == Step(old(state), Exit(s))
      ensures s !in state.live && state.freed == old(state).freed + [s]
    {
      ghost var before := state;
      ghost var i :| 0 <= i < |before.live| && before.live[i] == s;
      RemoveByNameIsExact(before.live, i);
      StepInv(before, Exit(s));
      DistinctNodes(before.live);
      ghost var k := Remove(s.name, before.live);
      state := Step(before, Exit(s));
    }
  }

  lemma DistinctNodes(s: Nodes)
    requires Proper(s)
    ensures NoRepeat(s)
  {
    forall i, j | 0 <= i < j < |s|
      ensures s[i] != s[j]
    {
      assert s[i].name != s[j].name;
    }
  }

  lemma LastRemoved(s: Nodes, n: Node, k: nat)
    requires k == |s|
    ensures RemoveAt(s + [n], k) == s
  {
  }

  lemma NewNode(s: Nodes, n: Node)
    requires Proper(s) && Refusal(s, n.name) == 0
    ensures Proper(s + [n]) && NoRepeat(s + [n]) && IndexOf(s + [n], n.name) == |s|
  {
    DistinctNodes(s + [n]);
    assert forall i :: 0 <= i < |s| ==> (s + [n])[i] == s[i];
    assert (s + [n])[|s|] == n;
  }
}
