/**
 Messages between nodes: every node has a dealer socket named after it, and a
 single router takes what dealers send, swaps receiver and sender, and passes it
 on. Messages may be dropped on the way; what arrives is genuine and in order.
 */
module Messaging {
  import opened Basics
  import NodeRegistry

  type Frame = seq<int>
  type Identity = Frame
  type Data = Frame

  /** A message, with the node at the other end: the receiver before the router, the sender after it */
  datatype Msg = Msg(peer: Identity, data: Data)

  type Queues = map<Identity, seq<Msg>>

  function Of(q: Queues, a: Identity): seq<Msg>
  {
    if a in q then q[a] else []
  }

  datatype State = State(
    outgoing: Queues,  // by sender: given to the dealer, not yet taken by the router
    incoming: Queues,  // by receiver: passed on by the router, not yet received
    sent: Queues,      // by sender: everything ever sent
    got: Queues)       // by receiver: everything ever handed to its handler

  datatype Event =
    | Send(a: Identity, to: Identity, data: Data, queued: bool)  // `queued`: does the dealer have room?
    | Dispatch(a: Identity, passed: bool)                        // the router serves `a`; can it pass the message on?
    | Receive(b: Identity)
    | Exit(a: Identity, flushed: nat)                            // the dealer closes; `flushed` messages still get out

  function Front(q: seq<Msg>, k: nat): seq<Msg>
  {
    if k < |q| then q[..k] else q
  }

  function Step(s: State, ev: Event): State
  {
    match ev
    case Send(a, to, data, queued) =>
      var m := Msg(to, data);
      s.(sent := s.sent[a := Of(s.sent, a) + [m]],
         outgoing := if queued then s.outgoing[a := Of(s.outgoing, a) + [m]] else s.outgoing)
    case Dispatch(a, passed) =>
      var q := Of(s.outgoing, a);
      if q == [] then s
      else
        var b := q[0].peer;
        s.(outgoing := s.outgoing[a := q[1..]],
           incoming := if passed then s.incoming[b := Of(s.incoming, b) + [Msg(a, q[0].data)]] else s.incoming)
    case Receive(b) =>
      var q := Of(s.incoming, b);
      if q == [] then s
      else
        s.(incoming := s.incoming[b := q[1..]],
           got := if q[0].data == [] then s.got else s.got[b := Of(s.got, b) + [q[0]]])
    case Exit(a, flushed) =>
      s.(incoming := s.incoming[a := []], outgoing := s.outgoing[a := Front(Of(s.outgoing, a), flushed)])
  }

  function Run(s: State, evs: seq<Event>): State
    decreases |evs|
  {
    if evs == [] then s else Run(Step(s, evs[0]), evs[1..])
  }

  predicate ProperName(a: Identity)
  {
    0 < |a| < NodeRegistry.MAX_ID_LENGTH
  }

  /** Only nodes with proper names have given messages to their dealers, and only those names arrive. */
  predicate Named(s: State)
  {
    && (forall a | a in s.outgoing :: s.outgoing[a] != [] ==> ProperName(a))
    && (forall b | b in s.incoming :: forall i | 0 <= i < |s.incoming[b]| :: ProperName(s.incoming[b][i].peer))
  }

  const EMPTY: State := State(map[], map[], map[], map[])

  // ----- one pair of nodes

  /** The data exchanged with `p`, in order */
  function With(s: seq<Msg>, p: Identity): seq<Data>
  {
    if s == [] then []
    else
      var n := |s| - 1;
      With(s[..n], p) + if s[n].peer == p then [s[n].data] else []
  }

  /** `s` is `t` with some elements left out, the others in their order. */
  predicate Sub(s: seq<Data>, t: seq<Data>)
  {
    if s == [] then true
    else if t == [] then false
    else
      || (s[|s| - 1] == t[|t| - 1] && Sub(s[..|s| - 1], t[..|t| - 1]))
      || Sub(s, t[..|t| - 1])
  }

  /** What has come from `a` to `b`, and what is still under way, in order of sending */
  function Trail(s: State, a: Identity, b: Identity): seq<Data>
  {
    With(Of(s.got, b), a) + With(Of(s.incoming, b), a) + With(Of(s.outgoing, a), b)
  }

  predicate Genuine(s: State, a: Identity, b: Identity)
  {
    Sub(Trail(s, a, b), With(Of(s.sent, a), b))
  }

  // ----- subsequences

  lemma SubSnoc(s: seq<Data>, t: seq<Data>, x: Data)
    requires Sub(s, t)
    ensures Sub(s + [x], t + [x]) && Sub(s, t + [x])
  {
    assert (s + [x])[..|s + [x]| - 1] == s && (t + [x])[..|t + [x]| - 1] == t;
  }

  lemma SubLast(s: seq<Data>, x: Data, t: seq<Data>)
    requires Sub(s + [x], t)
    ensures t != []
    ensures (x == t[|t| - 1] && Sub(s, t[..|t| - 1])) || Sub(s + [x], t[..|t| - 1])
  {
    assert (s + [x])[..|s + [x]| - 1] == s;
  }

  lemma FrontLast(t: seq<Data>)
    requires t != []
    ensures t[..|t| - 1] + [t[|t| - 1]] == t
  {
  }

  /** Leaving out one more element */
  lemma {:induction false} SubDrop(s: seq<Data>, x: Data, u: seq<Data>, t: seq<Data>)
    requires Sub(s + [x] + u, t)
    ensures Sub(s + u, t)
    decreases |t|
  {
    hide Sub;
    if u == [] {
      EmptyUnit(s);
      EmptyUnit(s + [x]);
      SubLast(s, x, t);
      FrontLast(t);
      var front, y := t[..|t| - 1], t[|t| - 1];
      if !Sub(s, front) {
        EmptyUnit(s + [x]);
        SubDrop(s, x, [], front);
      }
      SubSnoc(s, front, y);
    } else {
      var u', z := u[..|u| - 1], u[|u| - 1];
      FrontLast(u);
      Assoc(s + [x], u', [z]);
      Assoc(s, u', [z]);
      SubLast(s + [x] + u', z, t);
      FrontLast(t);
      var front, y := t[..|t| - 1], t[|t| - 1];
      if z == y && Sub(s + [x] + u', front) {
        SubDrop(s, x, u', front);
        SubSnoc(s + u', front, y);
      } else {
        SubDrop(s, x, u, front);
        SubSnoc(s + u, front, y);
      }
    }
  }

  /** A front part of a subsequence is one. */
  lemma {:induction false} SubFront(s: seq<Data>, u: seq<Data>, t: seq<Data>)
    requires Sub(s + u, t)
    ensures Sub(s, t)
    decreases |u|
  {
    if u == [] {
      assert s + u == s;
    } else {
      var k := |u| - 1;
      assert s + u == s + u[..k] + [u[k]] + [];
      SubDrop(s + u[..k], u[k], [], t);
      assert s + u[..k] + [] == s + u[..k];
      SubFront(s, u[..k], t);
    }
  }

  /** Leaving out a whole stretch */
  lemma {:induction false} SubCut(s: seq<Data>, w: seq<Data>, u: seq<Data>, t: seq<Data>)
    requires Sub(s + w + u, t)
    ensures Sub(s + u, t)
    decreases |w|
  {
    hide Sub;
    if w == [] {
      EmptyUnit(s);
    } else {
      HeadTail(w);
      Assoc(s, [w[0]], w[1..]);
      Assoc(s + [w[0]], w[1..], u);
      SubDrop(s, w[0], w[1..] + u, t);
      Assoc(s, w[1..], u);
      SubCut(s, w[1..], u, t);
    }
  }

  // ----- queues

  lemma WithNil(p: Identity)
    ensures With([], p) == []
  {
  }

  lemma WithSnoc(s: seq<Msg>, m: Msg, p: Identity)
    ensures With(s + [m], p) == With(s, p) + if m.peer == p then [m.data] else []
  {
    assert (s + [m])[..|s + [m]| - 1] == s;
  }

  lemma {:induction false} WithHead(s: seq<Msg>, p: Identity)
    requires s != []
    ensures With(s, p) == (if s[0].peer == p then [s[0].data] else []) + With(s[1..], p)
  {
    hide With;
    var n := |s| - 1;
    if n == 0 {
      assert s == [] + [s[0]] && s[1..] == [];
      WithNil(p);
      WithSnoc([], s[0], p);
      EmptyUnit(if s[0].peer == p then [s[0].data] else []);
    } else {
      WithHead(s[..n], p);
      assert s[..n][1..] == s[1..n] && s[..n] + [s[n]] == s && s[1..n] + [s[n]] == s[1..];
      WithSnoc(s[..n], s[n], p);
      WithSnoc(s[1..n], s[n], p);
      Assoc(if s[0].peer == p then [s[0].data] else [], With(s[1..n], p), if s[n].peer == p then [s[n].data] else []);
    }
  }

  lemma {:induction false} WithConcat(s: seq<Msg>, u: seq<Msg>, p: Identity)
    ensures With(s + u, p) == With(s, p) + With(u, p)
    decreases |u|
  {
    hide With;
    if u == [] {
      EmptyUnit(s);
      WithNil(p);
      EmptyUnit(With(s, p));
    } else {
      var v, m := u[..|u| - 1], u[|u| - 1];
      assert u == v + [m];
      Assoc(s, v, [m]);
      WithConcat(s, v, p);
      WithSnoc(s + v, m, p);
      WithSnoc(v, m, p);
      Assoc(With(s, p), With(v, p), if m.peer == p then [m.data] else []);
    }
  }

  /** What `p` is sent by the front part of a queue comes first. */
  lemma WithFront(q: seq<Msg>, k: nat, p: Identity)
    ensures exists rest :: With(q, p) == With(Front(q, k), p) + rest
  {
    hide With;
    if k < |q| {
      assert q == q[..k] + q[k..];
      WithConcat(q[..k], q[k..], p);
    } else {
      EmptyUnit(With(q, p));
    }
  }

  // ----- every step

  lemma SendStep(s: State, a: Identity, b: Identity, ev: Event)
    requires Genuine(s, a, b) && ev.Send?
    ensures Genuine(Step(s, ev), a, b)
  {
    hide With, Sub;
    var m := Msg(ev.to, ev.data);
    WithSnoc(Of(s.sent, a), m, b);
    WithSnoc(Of(s.outgoing, a), m, b);
    EmptyUnit(With(Of(s.sent, a), b));
    EmptyUnit(With(Of(s.outgoing, a), b));
    if ev.a == a && ev.to == b {
      SubSnoc(Trail(s, a, b), With(Of(s.sent, a), b), ev.data);
      Assoc(With(Of(s.got, b), a) + With(Of(s.incoming, b), a), With(Of(s.outgoing, a), b), [ev.data]);
    }
  }

  lemma DispatchStep(s: State, a: Identity, b: Identity, ev: Event)
    requires Genuine(s, a, b) && ev.Dispatch?
    ensures Genuine(Step(s, ev), a, b)
  {
    hide With, Sub;
    var q := Of(s.outgoing, ev.a);
    if q != [] {
      var g, i, o := With(Of(s.got, b), a), With(Of(s.incoming, b), a), With(q[1..], b);
      WithHead(q, b);
      WithSnoc(Of(s.incoming, b), Msg(ev.a, q[0].data), a);
      EmptyUnit(i);
      EmptyUnit(o);
      if ev.a == a && q[0].peer == b {
        var x := q[0].data;
        Assoc(g + i, [x], o);
        Assoc(g, i, [x]);
        SubDrop(g + i, x, o, With(Of(s.sent, a), b));
      }
    }
  }

  lemma ReceiveStep(s: State, a: Identity, b: Identity, ev: Event)
    requires Genuine(s, a, b) && ev.Receive?
    ensures Genuine(Step(s, ev), a, b)
  {
    hide With, Sub;
    var q := Of(s.incoming, ev.b);
    if q != [] && ev.b == b {
      var g, i, o := With(Of(s.got, b), a), With(q[1..], a), With(Of(s.outgoing, a), b);
      WithHead(q, a);
      WithSnoc(Of(s.got, b), q[0], a);
      EmptyUnit(g);
      EmptyUnit(i);
      if q[0].peer == a {
        var x := q[0].data;
        Assoc(g, [x], i);
        Assoc(g + [x], i, o);
        Assoc(g, i, o);
        SubDrop(g, x, i + o, With(Of(s.sent, a), b));
      }
    }
  }

  lemma StepNamed(s: State, ev: Event)
    requires Named(s)
    requires ev.Send? ==> ProperName(ev.a)
    ensures Named(Step(s, ev))
  {
  }

  lemma {:induction false} RunNamed(s: State, evs: seq<Event>)
    requires Named(s)
    requires forall i | 0 <= i < |evs| :: evs[i].Send? ==> ProperName(evs[i].a)
    ensures Named(Run(s, evs))
    decreases |evs|
  {
    if evs != [] {
      StepNamed(s, evs[0]);
      RunNamed(Step(s, evs[0]), evs[1..]);
    }
  }

  lemma {:induction false} RunAppend(s: State, evs: seq<Event>, more: seq<Event>)
    ensures Run(s, evs + more) == Run(Run(s, evs), more)
    decreases |evs|
  {
    if evs == [] {
      assert evs + more == more;
    } else {
      assert (evs + more)[1..] == evs[1..] + more;
      RunAppend(Step(s, evs[0]), evs[1..], more);
    }
  }

  lemma ExitStep(s: State, a: Identity, b: Identity, ev: Event)
    requires Genuine(s, a, b) && ev.Exit?
    ensures Genuine(Step(s, ev), a, b)
  {
    hide With, Sub, Front;
    var g, i, o := With(Of(s.got, b), a), With(Of(s.incoming, b), a), With(Of(s.outgoing, a), b);
    var sent := With(Of(s.sent, a), b);
    var o' := if ev.a == a then With(Front(Of(s.outgoing, a), ev.flushed), b) else o;
    WithFront(Of(s.outgoing, a), ev.flushed, b);
    if ev.a == a {
      var rest :| o == o' + rest;
      Assoc(g + i, o', rest);
      SubFront(g + i + o', rest, sent);
    }
    if ev.a == b {
      SubCut(g, i, o', sent);
      WithNil(a);
      EmptyUnit(g);
    }
  }

  /** What `b` was handed as coming from `a` is an in-order part of what `a` sent to `b`. */
  predicate InOrder(s: State, a: Identity, b: Identity)
  {
    Sub(With(Of(s.got, b), a), With(Of(s.sent, a), b))
  }

  // ----- what was sent, by the events

  /** The data `a` sends to `b` in the course of `evs`, in order */
  function SentBy(evs: seq<Event>, a: Identity, b: Identity): seq<Data>
  {
    if evs == [] then []
    else
      (match evs[0]
       case Send(x, to, data, _) => if x == a && to == b then [data] else []
       case _ => []) + SentBy(evs[1..], a, b)
  }

  /** What a run records as sent is what its send events say. */
  lemma {:induction false} SentIsRecorded(s: State, evs: seq<Event>, a: Identity, b: Identity)
    ensures With(Of(Run(s, evs).sent, a), b) == With(Of(s.sent, a), b) + SentBy(evs, a, b)
    decreases |evs|
  {
    var w := With(Of(s.sent, a), b);
    if evs == [] {
      EmptyUnit(w);
    } else {
      var t := Step(s, evs[0]);
      SentIsRecorded(t, evs[1..], a, b);
      hide With, Run;
      match evs[0]
      case Send(x, to, data, queued) =>
        WithSnoc(Of(s.sent, a), Msg(to, data), b);
        EmptyUnit(w);
        EmptyUnit(SentBy(evs[1..], a, b));
        Assoc(w, if x == a && to == b then [data] else [], SentBy(evs[1..], a, b));
      case Dispatch(_, _) => EmptyUnit(SentBy(evs[1..], a, b));
      case Receive(_) => EmptyUnit(SentBy(evs[1..], a, b));
      case Exit(_, _) => EmptyUnit(SentBy(evs[1..], a, b));
    }
  }

  // ----- what each step does

  /** A send adds the data for the receiver named, at the end of the sender's queue and of nothing else. */
  lemma SendLaw(s: State, a: Identity, to: Identity, data: Data, queued: bool, c: Identity, p: Identity)
    ensures var t := Step(s, Send(a, to, data, queued));
      && With(Of(t.sent, c), p) == With(Of(s.sent, c), p) + (if c == a && p == to then [data] else [])
      && With(Of(t.outgoing, c), p)
         == With(Of(s.outgoing, c), p) + (if c == a && p == to && queued then [data] else [])
      && t.incoming == s.incoming && t.got == s.got
  {
    hide With;
    WithSnoc(Of(s.sent, c), Msg(to, data), p);
    WithSnoc(Of(s.outgoing, c), Msg(to, data), p);
    EmptyUnit(With(Of(s.sent, c), p));
    EmptyUnit(With(Of(s.outgoing, c), p));
  }

  /**
   A dispatch takes the oldest message of the peer served; if it can be passed on, it
   goes to the end of its receiver's queue, under the sender's name, and to no other.
   */
  lemma DispatchLaw(s: State, a: Identity, passed: bool, c: Identity)
    requires Of(s.outgoing, a) != []
    ensures var t := Step(s, Dispatch(a, passed)); var m := Of(s.outgoing, a)[0];
      && [m] + Of(t.outgoing, a) == Of(s.outgoing, a)
      && (c != a ==> Of(t.outgoing, c) == Of(s.outgoing, c))
      && Of(t.incoming, c) == Of(s.incoming, c) + (if passed && c == m.peer then [Msg(a, m.data)] else [])
      && t.sent == s.sent && t.got == s.got
  {
    EmptyUnit(Of(s.incoming, c));
    HeadTail(Of(s.outgoing, a));
  }

  /** A receive takes the oldest message for the node and hands it over, unless it is empty. */
  lemma ReceiveLaw(s: State, b: Identity, c: Identity)
    requires Of(s.incoming, b) != []
    ensures var t := Step(s, Receive(b)); var m := Of(s.incoming, b)[0];
      && [m] + Of(t.incoming, b) == Of(s.incoming, b)
      && (c != b ==> Of(t.incoming, c) == Of(s.incoming, c))
      && Of(t.got, c) == Of(s.got, c) + (if c == b && m.data != [] then [m] else [])
      && t.sent == s.sent && t.outgoing == s.outgoing
  {
    EmptyUnit(Of(s.got, c));
    HeadTail(Of(s.incoming, b));
  }

  /** With nothing queued there is nothing to dispatch or receive. */
  lemma IdleLaw(s: State, a: Identity, passed: bool)
    ensures Of(s.outgoing, a) == [] ==> Step(s, Dispatch(a, passed)) == s
    ensures Of(s.incoming, a) == [] ==> Step(s, Receive(a)) == s
  {
  }

  /** A node that exits loses what is queued for it, and all it sent but the first `flushed` messages. */
  lemma ExitLaw(s: State, a: Identity, flushed: nat, c: Identity)
    ensures var t := Step(s, Exit(a, flushed)); var q := Of(s.outgoing, a);
      && Of(t.incoming, c) == (if c == a then [] else Of(s.incoming, c))
      && (c != a ==> Of(t.outgoing, c) == Of(s.outgoing, c))
      && |Of(t.outgoing, a)| == Min(flushed, |q|) && Of(t.outgoing, a) == q[..|Of(t.outgoing, a)|]
      && t.sent == s.sent && t.got == s.got
  {
    var q := Of(s.outgoing, a);
    assert q[..|q|] == q;
  }

  // ----- main result

  lemma {:induction false} RunGenuine(s: State, evs: seq<Event>, a: Identity, b: Identity)
    requires Genuine(s, a, b)
    ensures Genuine(Run(s, evs), a, b)
    decreases |evs|
  {
    if evs != [] {
      match evs[0] {
        case Send(_, _, _, _) => SendStep(s, a, b, evs[0]);
        case Dispatch(_, _) => DispatchStep(s, a, b, evs[0]);
        case Receive(_) => ReceiveStep(s, a, b, evs[0]);
        case Exit(_, _) => ExitStep(s, a, b, evs[0]);
      }
      RunGenuine(Step(s, evs[0]), evs[1..], a, b);
    }
  }

  /**
   However sends, dispatches, receives and exits interleave, and whatever is dropped:
   what `b` was handed as coming from `a` was sent by `a` to `b`, no more often
   than it was sent, and in that order.
   */
  lemma DeliveredIsSent(evs: seq<Event>, a: Identity, b: Identity)
    ensures InOrder(Run(EMPTY, evs), a, b)
    ensures Sub(With(Of(Run(EMPTY, evs).got, b), a), SentBy(evs, a, b))
  {
    SentIsRecorded(EMPTY, evs, a, b);
    EmptyUnit(SentBy(evs, a, b));
    assert Genuine(EMPTY, a, b);
    RunGenuine(EMPTY, evs, a, b);
    var s := Run(EMPTY, evs);
    var g, i, o := With(Of(s.got, b), a), With(Of(s.incoming, b), a), With(Of(s.outgoing, a), b);
    Assoc(g, i, o);
    SubFront(g, i + o, With(Of(s.sent, a), b));
  }

  // ----- when nothing is dropped

  /** No message is empty, none is dropped, and no node exits. */
  predicate Lossless(ev: Event)
  {
    && (ev.Send? ==> ev.queued && ev.data != [])
    && (ev.Dispatch? ==> ev.passed)
    && !ev.Exit?
  }

  predicate Full(q: seq<Msg>)
  {
    forall i :: 0 <= i < |q| ==> q[i].data != []
  }

  ghost predicate NoneEmpty(s: State, b: Identity)
  {
    Full(Of(s.incoming, b)) && forall c {:trigger Of(s.outgoing, c)} :: Full(Of(s.outgoing, c))
  }

  ghost predicate Complete(s: State, a: Identity, b: Identity)
  {
    NoneEmpty(s, b) && Trail(s, a, b) == With(Of(s.sent, a), b)
  }

  lemma NoneEmptyStep(s: State, b: Identity, ev: Event)
    requires NoneEmpty(s, b) && Lossless(ev)
    ensures NoneEmpty(Step(s, ev), b)
  {
    var t := Step(s, ev);
    if ev.Dispatch? {
      assert Full(Of(s.outgoing, ev.a));
    }
    forall c
      ensures Full(Of(t.outgoing, c))
    {
      assert Full(Of(s.outgoing, c));
    }
  }

  lemma CompleteStep(s: State, a: Identity, b: Identity, ev: Event)
    requires Complete(s, a, b) && Lossless(ev)
    ensures Complete(Step(s, ev), a, b)
  {
    NoneEmptyStep(s, b, ev);
    match ev
    case Send(_, _, _, _) => SendExact(s, a, b, ev);
    case Dispatch(_, _) => DispatchExact(s, a, b, ev);
    case Receive(_) => ReceiveExact(s, a, b, ev);
  }

  lemma SendExact(s: State, a: Identity, b: Identity, ev: Event)
    requires Trail(s, a, b) == With(Of(s.sent, a), b) && ev.Send? && ev.queued
    ensures Trail(Step(s, ev), a, b) == With(Of(Step(s, ev).sent, a), b)
  {
    hide With;
    var m := Msg(ev.to, ev.data);
    WithSnoc(Of(s.sent, a), m, b);
    WithSnoc(Of(s.outgoing, a), m, b);
    EmptyUnit(With(Of(s.sent, a), b));
    EmptyUnit(With(Of(s.outgoing, a), b));
    Assoc(With(Of(s.got, b), a) + With(Of(s.incoming, b), a), With(Of(s.outgoing, a), b), [ev.data]);
  }

  lemma DispatchExact(s: State, a: Identity, b: Identity, ev: Event)
    requires ev.Dispatch? && ev.passed
    ensures Trail(Step(s, ev), a, b) == Trail(s, a, b)
  {
    hide With;
    var q := Of(s.outgoing, ev.a);
    if q != [] {
      var g, i, o := With(Of(s.got, b), a), With(Of(s.incoming, b), a), With(q[1..], b);
      WithHead(q, b);
      WithSnoc(Of(s.incoming, b), Msg(ev.a, q[0].data), a);
      EmptyUnit(i);
      EmptyUnit(o);
      Assoc(g + i, [q[0].data], o);
      Assoc(g, i, [q[0].data]);
    }
  }

  lemma ReceiveExact(s: State, a: Identity, b: Identity, ev: Event)
    requires NoneEmpty(s, b) && ev.Receive?
    ensures Trail(Step(s, ev), a, b) == Trail(s, a, b)
  {
    hide With;
    var q := Of(s.incoming, ev.b);
    if q != [] && ev.b == b {
      var g, i := With(Of(s.got, b), a), With(q[1..], a);
      WithHead(q, a);
      WithSnoc(Of(s.got, b), q[0], a);
      EmptyUnit(g);
      EmptyUnit(i);
      Assoc(g, [q[0].data], i);
    }
  }

  lemma {:induction false} RunComplete(s: State, evs: seq<Event>, a: Identity, b: Identity)
    requires Complete(s, a, b) && forall i :: 0 <= i < |evs| ==> Lossless(evs[i])
    ensures Complete(Run(s, evs), a, b)
    decreases |evs|
  {
    hide Complete, Step;
    if evs != [] {
      CompleteStep(s, a, b, evs[0]);
      RunComplete(Step(s, evs[0]), evs[1..], a, b);
    }
  }

  /**
   Dropping is the only way to lose a message: without it, what was received and
   what is still queued, on either side of the router, is all that was sent, in order.
   */
  lemma NothingElseIsLost(evs: seq<Event>, a: Identity, b: Identity)
    requires forall i :: 0 <= i < |evs| ==> Lossless(evs[i])
    ensures Trail(Run(EMPTY, evs), a, b) == SentBy(evs, a, b)
  {
    SentIsRecorded(EMPTY, evs, a, b);
    EmptyUnit(SentBy(evs, a, b));
    assert Complete(EMPTY, a, b);
    RunComplete(EMPTY, evs, a, b);
  }
}
