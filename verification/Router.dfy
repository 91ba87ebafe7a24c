/**
 The code on both sides of the message queues, frame by frame: the router's
 dispatch loop and a node's send and receive. Each call amounts to one step of
 the messaging model.
 */
module Router {
  import opened Basics
  import opened Messaging
  import NodeRegistry

  /** What is queued between the threads */
  class Wire {
    var state: State

    constructor ()
      ensures state == EMPTY
    {
      state := EMPTY;
    }
  }

  /** Where the message being sent goes */
  datatype Route = Between | Dropping | Towards(peer: Identity, frames: seq<Frame>)

  function Next(r: Route, frame: Frame, more: bool, reachable: bool): Route
  {
    match r
    case Between => if reachable then Towards(frame, []) else Dropping
    case Dropping => if more then Dropping else Between
    case Towards(b, fs) => if more then Towards(b, fs + [frame]) else Between
  }

  class RouterSocket {
    const wire: Wire
    const mandatory: bool    // is an unreachable receiver an error?
    var reading: seq<Frame>  // the rest of the message being received
    var route: Route

    constructor (w: Wire, m: bool)
      ensures wire == w && mandatory == m && Ready()
    {
      wire, mandatory, reading, route := w, m, [], Between;
    }

    /** Is the socket between two messages, in both directions? */
    predicate Ready()
      reads this
    {
      reading == [] && route == Between
    }

    /** The next frame; a new message is the oldest one of `a`. */
    method Recv(a: Identity, fault: bool) returns (bytes: int, frame: Frame)
      requires reading == [] ==> Of(wire.state.outgoing, a) != []
      modifies this`reading, wire
      ensures fault ==> bytes < 0 && reading == old(reading) && wire.state == old(wire.state)
      ensures !fault ==> bytes == |frame|
      ensures !fault && old(reading) != [] ==>
        frame == old(reading)[0] && reading == old(reading)[1..] && wire.state == old(wire.state)
      ensures !fault && old(reading) == [] ==>
        var m := Of(old(wire.state).outgoing, a)[0];
        frame == a && reading == [m.peer, m.data] && wire.state == Step(old(wire.state), Dispatch(a, false))
    {
      if fault {
        return -1, [];
      }
      if reading == [] {
        var q := Of(wire.state.outgoing, a);
        reading := [a, q[0].peer, q[0].data];
        wire.state := wire.state.(outgoing := wire.state.outgoing[a := q[1..]]);
      }
      frame, reading := reading[0], reading[1..];
      bytes := |frame|;
    }

    /** The first frame names the receiver; the last one makes the message available to it. */
    method Send(frame: Frame, more: bool, reachable: bool, fault: bool) returns (bytes: int)
      requires route == Between ==> more
      requires !more && route.Towards? ==> |route.frames| == 1
      modifies this`route, wire
      ensures bytes >= 0 <==> !fault && (old(route) == Between && mandatory ==> reachable)
      ensures bytes < 0 ==> route == old(route)
      ensures bytes >= 0 ==> bytes == |frame|
      ensures bytes >= 0 ==> route == Next(old(route), frame, more, reachable)
      ensures wire.state ==
        if bytes >= 0 && old(route).Towards? && !more
        then
          var m := Msg(old(route).frames[0], frame);
          old(wire.state).(incoming := Put(old(wire.state).incoming, old(route).peer, m))
        else old(wire.state)
    {
      if fault {
        return -1;
      }
      match route {
        case Between =>
          if !reachable && mandatory {
            return -1;
          }
          route := if reachable then Towards(frame, []) else Dropping;
        case Dropping =>
          route := if more then Dropping else Between;
        case Towards(b, fs) =>
          if more {
            route := Towards(b, fs + [frame]);
          } else {
            wire.state := wire.state.(incoming := Put(wire.state.incoming, b, Msg(fs[0], frame)));
            route := Between;
          }
      }
      bytes := |frame|;
    }

    /**
     Takes the oldest message of `a` and passes it on under the name of `a`.
     `fault` is the number of the socket call that fails, if it is below six. A
     message that fails half-way is lost, and the dispatch loop then ends.
     */
    method DispatchMessage(a: Identity, reachable: bool, fault: nat) returns (bytes: int)
      requires Ready() && Of(wire.state.outgoing, a) != []
      modifies this`reading, this`route, wire
      ensures bytes >= 0 <==> fault >= 6 && (mandatory ==> reachable)
      ensures bytes >= 0 ==> Ready() && bytes == |Of(old(wire.state).outgoing, a)[0].data|
      ensures wire.state ==
        if fault == 0 then old(wire.state)
        else Step(old(wire.state), Dispatch(a, bytes >= 0 && reachable))
    {
      var sender: Frame, to: Frame, msg: Frame;
      bytes, sender := Recv(a, fault == 0);
      if bytes < 0 {
        return;
      }
      bytes, to := Recv(a, fault == 1);
      if bytes < 0 {
        return;
      }
      bytes, msg := Recv(a, fault == 2);
      if bytes < 0 {
        return;
      }
      ghost var m := Of(old(wire.state).outgoing, a)[0];
      assert sender == a && to == m.peer && msg == m.data && reading == [];
      bytes := Send(to, true, reachable, fault == 3);
      if bytes < 0 {
        return;
      }
      bytes := Send(sender, true, reachable, fault == 4);
      if bytes < 0 {
        return;
      }
      bytes := Send(msg, false, reachable, fault == 5);
    }

    /**
     The main loop: before each of its turns the nodes take some steps, and the
     loop ends at the first error. `evs` lists what happened, in order.
     */
    method Serve(turns: seq<Turn>) returns (evs: seq<Event>, failed: bool)
      requires Ready() && forall i :: 0 <= i < |turns| ==> ByNodes(turns[i].before)
      modifies this`reading, this`route, wire
      ensures evs == Served(old(wire.state), turns, mandatory)
      ensures wire.state == Run(old(wire.state), evs)
      ensures failed <==> Breaks(old(wire.state), turns, mandatory)
      ensures !failed ==> Ready()
      ensures old(wire.state) == EMPTY ==>
        forall a, b :: Sub(With(Of(wire.state.got, b), a), SentBy(evs, a, b))
    {
      hide Run, TurnEvents, TurnFails, Served, Breaks;
      evs, failed := [], false;
      var i := 0;
      ghost var s := wire.state;
      NothingYet(s, turns, mandatory);
      while i < |turns| && !failed
        invariant 0 <= i <= |turns|
        invariant wire.state == Run(s, evs)
        invariant !failed ==> Ready()
        invariant failed ==> evs == Served(s, turns, mandatory) && Breaks(s, turns, mandatory)
        invariant !failed ==> Served(s, turns, mandatory) == evs + Served(wire.state, turns[i..], mandatory)
        invariant !failed ==> (Breaks(s, turns, mandatory) <==> Breaks(wire.state, turns[i..], mandatory))
      {
        ghost var before, u := evs, wire.state;
        TurnByTurn(u, turns, i, mandatory);
        var now: seq<Event>;
        now, failed := ServeOne(turns[i]);
        evs := evs + now;
        RunAppend(s, before, now);
        Assoc(before, now, Served(wire.state, turns[i + 1..], mandatory));
        i := i + 1;
      }
      NoMore(wire.state, turns, mandatory);
      EmptyUnit(evs);
      if s == EMPTY {
        forall a, b
          ensures Sub(With(Of(wire.state.got, b), a), SentBy(evs, a, b))
        {
          DeliveredIsSent(evs, a, b);
        }
      }
    }

    /** One turn: the nodes take their steps, and if the peer served has a message, it is dispatched. */
    method ServeOne(t: Turn) returns (evs: seq<Event>, failed: bool)
      requires Ready() && ByNodes(t.before)
      modifies this`reading, this`route, wire
      ensures evs == TurnEvents(old(wire.state), t)
      ensures failed <==> TurnFails(old(wire.state), t, mandatory)
      ensures wire.state == Run(old(wire.state), evs)
      ensures !failed ==> Ready()
    {
      wire.state, evs, failed := Run(wire.state, t.before), t.before, false;
      if Of(wire.state.outgoing, t.a) != [] {
        var bytes := DispatchMessage(t.a, t.reachable, t.fault);
        failed := bytes < 0;
        if t.fault != 0 {
          var ev := Dispatch(t.a, bytes >= 0 && t.reachable);
          RunAppend(old(wire.state), t.before, [ev]);
          evs := evs + [ev];
        }
      }
    }
  }

  /** The nodes send, receive and exit; only the router dispatches. */
  predicate ByNodes(evs: seq<Event>)
  {
    forall i :: 0 <= i < |evs| ==> !evs[i].Dispatch?
  }

  /** What happens in a turn: the steps before it, and at most one dispatch, of the peer served. */
  function TurnEvents(s: State, t: Turn): seq<Event>
  {
    if Of(Run(s, t.before).outgoing, t.a) == [] || t.fault == 0 then t.before
    else t.before + [Dispatch(t.a, t.fault >= 6 && t.reachable)]
  }

  predicate TurnFails(s: State, t: Turn, mandatory: bool)
  {
    Of(Run(s, t.before).outgoing, t.a) != [] && (t.fault < 6 || (mandatory && !t.reachable))
  }

  /** What happens in all turns up to the first that fails */
  function Served(s: State, turns: seq<Turn>, mandatory: bool): seq<Event>
    decreases |turns|
  {
    if turns == [] then []
    else
      var evs := TurnEvents(s, turns[0]);
      if TurnFails(s, turns[0], mandatory) then evs else evs + Served(Run(s, evs), turns[1..], mandatory)
  }

  /** Does one of the turns fail? */
  predicate Breaks(s: State, turns: seq<Turn>, mandatory: bool)
    decreases |turns|
  {
    turns != [] &&
    (TurnFails(s, turns[0], mandatory) || Breaks(Run(s, TurnEvents(s, turns[0])), turns[1..], mandatory))
  }

  /** One turn of the main loop: what the nodes do first, who is served, and how the socket behaves */
  datatype Turn = Turn(before: seq<Event>, a: Identity, reachable: bool, fault: nat)

  function Put(q: Queues, b: Identity, m: Msg): Queues
  {
    q[b := Of(q, b) + [m]]
  }

  lemma NamedFront(s: State, b: Identity)
    requires Named(s)
    ensures Of(s.incoming, b) != [] ==> ProperName(Of(s.incoming, b)[0].peer)
  {
    if Of(s.incoming, b) != [] {
      assert ProperName(s.incoming[b][0].peer);
    }
  }

  lemma NothingYet(s: State, turns: seq<Turn>, mandatory: bool)
    ensures Run(s, []) == s
    ensures Served(s, turns, mandatory) == [] + Served(s, turns[0..], mandatory)
    ensures Breaks(s, turns, mandatory) <==> Breaks(s, turns[0..], mandatory)
  {
    assert turns[0..] == turns;
    EmptyUnit(Served(s, turns, mandatory));
  }

  lemma TurnByTurn(s: State, turns: seq<Turn>, i: nat, mandatory: bool)
    requires i < |turns|
    ensures var evs := TurnEvents(s, turns[i]);
      && Served(s, turns[i..], mandatory)
         == (if TurnFails(s, turns[i], mandatory) then evs else evs + Served(Run(s, evs), turns[i + 1..], mandatory))
      && (Breaks(s, turns[i..], mandatory)
          <==> TurnFails(s, turns[i], mandatory) || Breaks(Run(s, evs), turns[i + 1..], mandatory))
  {
    assert turns[i..][1..] == turns[i + 1..];
  }

  lemma NoMore(s: State, turns: seq<Turn>, mandatory: bool)
    ensures Served(s, turns[|turns|..], mandatory) == [] && !Breaks(s, turns[|turns|..], mandatory)
  {
  }

  /** A node's end: its dealer socket */
  class Node {
    const wire: Wire
    const name: Identity
    var writing: seq<Frame>  // the frames already given of the message being sent
    var reading: seq<Frame>  // the rest of the message being received

    constructor (w: Wire, n: Identity)
      requires ProperName(n)
      ensures wire == w && name == n && writing == [] && reading == []
    {
      wire, name, writing, reading := w, n, [], [];
    }

    /** A frame with no more to come completes the message, and queues it if there is room. */
    method SendFrame(frame: Frame, more: bool, queued: bool) returns (r: int)
      requires !more ==> |writing| == 1
      modifies this`writing, wire
      ensures r == |frame|
      ensures writing == if more then old(writing) + [frame] else []
      ensures wire.state ==
        if more then old(wire.state)
        else Step(old(wire.state), Event.Send(name, old(writing)[0], frame, queued))
    {
      if more {
        writing := writing + [frame];
      } else {
        var s, m := wire.state, Msg(writing[0], frame);
        wire.state := s.(
          sent := Put(s.sent, name, m),
          outgoing := if queued then Put(s.outgoing, name, m) else s.outgoing);
        writing := [];
      }
      r := |frame|;
    }

    method Send(to: Identity, data: Data, queued: bool)
      requires to != [] && data != []
      requires writing == []
      modifies this`writing, wire
      ensures writing == []
      ensures wire.state == Step(old(wire.state), Event.Send(name, to, data, queued))
      ensures queued ==> Of(wire.state.outgoing, name) == Of(old(wire.state).outgoing, name) + [Msg(to, data)]
    {
      var r := SendFrame(to, true, queued);
      assert r == |to|;
      r := SendFrame(data, false, queued);
      assert r == |data|;
    }

    /** The next frame, or an error if no message has come */
    method RecvFrame() returns (r: int, frame: Frame)
      modifies this`reading, wire
      ensures old(reading) != [] ==>
        && r == |frame| && frame == old(reading)[0] && reading == old(reading)[1..]
        && wire.state == old(wire.state)
      ensures old(reading) == [] && Of(old(wire.state).incoming, name) == [] ==>
        r < 0 && reading == [] && wire.state == old(wire.state)
      ensures old(reading) == [] && Of(old(wire.state).incoming, name) != [] ==>
        var q := Of(old(wire.state).incoming, name);
        && r == |frame| && frame == q[0].peer && reading == [q[0].data]
        && wire.state == old(wire.state).(incoming := old(wire.state).incoming[name := q[1..]])
    {
      if reading == [] {
        var q := Of(wire.state.incoming, name);
        if q == [] {
          return -1, [];
        }
        reading := [q[0].peer, q[0].data];
        wire.state := wire.state.(incoming := wire.state.incoming[name := q[1..]]);
      }
      frame, reading := reading[0], reading[1..];
      r := |frame|;
    }

    /** Receives one message, if there is one; `answer` is what the handler answers to it. */
    method Recv(answer: int) returns (r: int)
      requires reading == [] && Named(wire.state)
      modifies this`reading, wire
      ensures reading == [] && Named(wire.state)
      ensures wire.state == Step(old(wire.state), Receive(name))
      ensures r ==
        var q := Of(old(wire.state).incoming, name);
        if q != [] && q[0].data != [] && answer > 0 then answer else 0
    {
      ghost var s, q := wire.state, Of(wire.state.incoming, name);
      StepNamed(s, Receive(name));
      NamedFront(s, name);
      var sender: Frame, msg: Frame;
      r, sender := RecvFrame();
      if r > 0 {
        assert sender == q[0].peer && |sender| < NodeRegistry.MAX_ID_LENGTH;
        r, msg := RecvFrame();
        if r > 0 {
          assert msg == q[0].data && Msg(sender, msg) == q[0];
          wire.state := wire.state.(got := Put(wire.state.got, name, Msg(sender, msg)));
          r := answer;
        }
        assert wire.state == Step(s, Receive(name));
        r := if r > 0 then r else 0;
        return;
      }
      r := 0;
    }

    /** zmq_close at the end of the node; lingering is off, so what has not been handed over is lost. */
    method Close(flushed: nat)
      modifies this`writing, this`reading, wire
      ensures writing == [] && reading == []
      ensures wire.state == Step(old(wire.state), Exit(name, flushed))
    {
      wire.state := wire.state.(
        incoming := wire.state.incoming[name := []],
        outgoing := wire.state.outgoing[name := Front(Of(wire.state.outgoing, name), flushed)]);
      writing, reading := [], [];
    }
  }
}
