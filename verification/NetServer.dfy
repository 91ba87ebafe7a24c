/**
 The TCP server of qsf_net_server.c: its callbacks and calls work on session
 objects and on the hash table in place, and each of them takes the state of
 ServerModel exactly one event further.
 */
module NetServer {
  import opened Basics
  import opened HashModel
  import opened HashPartition
  import opened HashRuns
  import opened UtHash
  import opened Serials
  import opened ServerModel
  import opened ServerLaws
  import opened Framing
  import opened Sessions

  /** Where the handle of session `id` is in its life */
  function HandleOf(s: State, id: nat): Handle
  {
    if s.freed[id] > 0 then Freed else if s.closing[id] > 0 then Closing else Open
  }

  /** The elements of the session map are the sessions of `live`, each stored under its own serial. */
  ghost predicate Mirrors(order: Chain<Session>, live: seq<Conn>, sessions: seq<Session>)
    reads sessions`serial, sessions`lastRecvTime
  {
    && |order| == |live|
    && (forall i :: 0 <= i < |live| ==>
          && live[i].id < |sessions|
          && order[i].value == sessions[live[i].id]
          && order[i].key == live[i].serial == sessions[live[i].id].serial
          && sessions[live[i].id].lastRecvTime == live[i].last)
  }

  ghost predicate Handles(sessions: seq<Session>, s: State)
    reads sessions`handle, sessions`reading
  {
    forall id :: 0 <= id < |sessions| ==>
      sessions[id].handle == HandleOf(s, id) && (sessions[id].reading ==> sessions[id].handle == Open)
  }

  predicate Different(sessions: seq<Session>)
  {
    forall i, j :: 0 <= i < j < |sessions| ==> sessions[i] != sessions[j]
  }

  /** Every session has a sound reader, with a buffer of its own. */
  ghost predicate Readers(sessions: seq<Session>)
    reads sessions`bufSize, sessions`recvBytes, sessions`bodySize, sessions`recvBuf
    reads sessions`received, sessions`delivered, set s | s in sessions :: s.recvBuf
  {
    && (forall i :: 0 <= i < |sessions| ==> sessions[i].Valid())
    && (forall i, j :: 0 <= i < j < |sessions| ==> sessions[i].recvBuf != sessions[j].recvBuf)
  }

  class Server {
    const cfg: Config
    const sessionMap: Hash<Session>
    var nextSerial: nat
    var stopped: bool
    var clock: nat               // uv_now of the loop
    var timer: Handle
    var acceptor: Handle
    var reports: seq<Report>     // what the read callback has been told, besides data
    var sessions: seq<Session>   // every session ever created, as libuv knows them by their handles
    ghost var state: State

    /** The objects represent `s`. */
    ghost predicate Rep(s: State)
      reads this`nextSerial, this`stopped, this`clock, this`reports, this`sessions
      reads sessionMap, sessionMap.buckets, sessionMap.nodes
      reads sessions, set x | x in sessions :: x.recvBuf
    {
      && nextSerial == s.nextSerial && stopped == s.stopped && clock == s.clock && reports == s.reports
      && |sessions| == s.created
      && Different(sessions)
      && sessionMap.Valid()
      && Mirrors(Order(sessionMap.tab), s.live, sessions)
      && Handles(sessions, s)
      && Readers(sessions)
    }

    ghost predicate Valid()
      reads this, sessionMap, sessionMap.buckets, sessionMap.nodes
      reads sessions, set x | x in sessions :: x.recvBuf
    {
      ServerModel.Inv(cfg, state) && Rep(state)
    }

    /** qsf_create_net_server */
    constructor (hash: HashFn, maxConnection: nat, maxHeartBeat: nat)
      requires maxConnection < 0x1_0000_0000 && maxHeartBeat < 0x1_0000
      ensures Valid() && state == INITIAL && cfg == Config(maxConnection, maxHeartBeat)
      ensures fresh(sessionMap) && sessionMap.nodes == {} && sessionMap.buckets == null && sessions == []
      ensures nextSerial == 1000 && !stopped
    {
      cfg := Config(maxConnection, maxHeartBeat);
      sessionMap := new Hash<Session>(hash);
      nextSerial, stopped, clock, reports := START_SERIAL_NUMBER, false, 0, [];
      timer, acceptor := Open, Open;
      sessions, state := [], INITIAL;
    }

    /** session_destroy */
    method SessionDestroy(session: Session)
      modifies session`handle, session`reading
      ensures !session.reading
      ensures session.handle == if old(session.handle) == Open then Closing else old(session.handle)
    {
      session.reading := false;
      if session.handle == Open {
        session.handle := Closing;
      }
    }

    /** HASH_DEL of the element at position `k`, then session_destroy */
    method Unmap(el: Elem<Session>, ghost k: nat)
      requires sessionMap.Valid() && k < |Order(sessionMap.tab)| && Order(sessionMap.tab)[k] == el
      requires el.value.handle == Open
      modifies sessionMap, sessionMap.buckets, sessionMap.nodes, el.value`handle, el.value`reading
      ensures sessionMap.Valid()
      ensures Order(sessionMap.tab) == old(Order(sessionMap.tab))[..k] + old(Order(sessionMap.tab))[k + 1..]
      ensures sessionMap.nodes == old(sessionMap.nodes) - {el}
      ensures sessionMap.buckets == old(sessionMap.buckets) || sessionMap.buckets == null
      ensures el.value.handle == Closing && !el.value.reading
    {
      DeletedOrder(sessionMap.hash, sessionMap.tab, k);
      hide HashModel.Inv, Delete, Order;
      sessionMap.Delete(el);
      SessionDestroy(el.value);
    }

    /** The same, as a step of the server's state */
    method DropSession(el: Elem<Session>, ghost s: State, ghost k: nat)
      requires Accounted(s) && Rep(s) && k < |s.live| && Order(sessionMap.tab)[k] == el
      modifies sessionMap, sessionMap.buckets, sessionMap.nodes, el.value`handle, el.value`reading
      ensures Rep(Remove(s, k)) && Accounted(Remove(s, k))
      ensures Order(sessionMap.tab) == old(Order(sessionMap.tab))[..k] + old(Order(sessionMap.tab))[k + 1..]
      ensures sessionMap.nodes == old(sessionMap.nodes) - {el}
      ensures sessionMap.buckets == old(sessionMap.buckets) || sessionMap.buckets == null
    {
      hide Order, Readers, Hash.Valid, Accounted, HashModel.Inv;
      MirrorsDrop(Order(sessionMap.tab), s.live, sessions, k);
      HandlesDrop(s, k);
      RemoveAccounted(s, k);
      hide Drop, HandleOf;
      Unmap(el, k);
    }

    /** HASH_FIND_INT on the session map */
    method FindSession(serial: nat, ghost s: State) returns (session: Elem?<Session>)
      requires Rep(s) && serial < 0x1_0000_0000
      ensures var k := WithSerial(s.live, serial);
        && (session == null <==> k == |s.live|)
        && (session != null ==>
              k < |Order(sessionMap.tab)| && Order(sessionMap.tab)[k] == session && session.value in sessions)
    {
      hide Mirrors, Handles, Readers, Different, HashModel.Inv, WithSerial, Order, AbsentKey, HashModel.Find;
      session := sessionMap.Find(serial);
      FoundAt(sessionMap.hash, sessionMap.tab, s.live, sessions, serial, session);
    }

    /** qsf_net_server_close */
    method Close(serial: nat)
      requires Valid() && serial < 0x1_0000_0000
      modifies this`state, sessionMap, sessionMap.buckets, sessionMap.nodes, sessions`handle, sessions`reading
      ensures Valid() && state == Step(cfg, old(state), Kick(serial))
      ensures AbsentKey(Order(sessionMap.tab), serial)
      ensures forall i :: 0 <= i < |old(Order(sessionMap.tab))| ==>
        var el := old(Order(sessionMap.tab))[i];
        el.value.handle == (if el.key == serial then Closing else Open) && (el.key == serial ==> !el.value.reading)
      ensures sessionMap.nodes <= old(sessionMap.nodes)
      ensures sessionMap.buckets == old(sessionMap.buckets) || sessionMap.buckets == null
    {
      hide *;
      ghost var s, order, k := state, Order(sessionMap.tab), WithSerial(state.live, serial);
      ValidMeans();
      MapFacts(s);
      KickSteps(cfg, s, serial);
      var session := FindSession(serial, s);
      if session != null {
        DropSession(session, s, k);
      }
      state := Step(cfg, s, Kick(serial));
      NowValid();
      MapFacts(state);
      KickLaw(cfg, s, serial);
      NoSuchKey(Order(sessionMap.tab), state.live, sessions, serial);
      forall i | 0 <= i < |order|
        ensures order[i].value.handle == (if order[i].key == serial then Closing else Open)
        ensures order[i].key == serial ==> !order[i].value.reading
      {
        AtOne(order, s.live, sessions, i);
        KickKeeps(cfg, s, serial, i);
        AfterLive(s, i, order[i].key == serial);
      }
    }

    /** The session map, element by element */
    lemma MapFacts(s: State)
      requires Rep(s)
      ensures AtEach(Order(sessionMap.tab), s.live, sessions)
    {
      hide Order, Hash.Valid, Readers, Handles, Different;
    }

    /** What has become of the handle of a session that was in the map when the state was `s` */
    lemma AfterLive(s: State, i: nat, gone: bool)
      requires Valid() && ServerModel.Inv(cfg, s) && i < |s.live|
      requires state.freed == s.freed && state.created == s.created
      requires if gone then state.closing[s.live[i].id] == 1 else s.live[i] in state.live
      ensures s.live[i].id < |sessions|
      ensures sessions[s.live[i].id].handle == (if gone then Closing else Open)
      ensures gone ==> !sessions[s.live[i].id].reading
    {
      hide Order, Hash.Valid, Readers, Mirrors, Different;
      LiveOnly(cfg, s, i);
      if !gone {
        var j :| 0 <= j < |state.live| && state.live[j] == s.live[i];
        LiveOnly(cfg, state, j);
      }
    }

    /** The read callback is told about a session. */
    method ReportOn(r: Report, ghost s: State)
      requires Accounted(s) && Rep(s)
      modifies this`reports
      ensures var t := s.(reports := s.reports + [r]); Accounted(t) && Rep(t)
      ensures reports == old(reports) + [r]
    {
      hide Order, Hash.Valid, Readers, Mirrors;
      reports := reports + [r];
      assert Handles(sessions, s.(reports := s.reports + [r]));
    }

    ghost predicate IsMapped(el: Elem<Session>, s: State, k: nat)
      reads this`sessions, sessionMap`tab, sessions`serial
    {
      && k < |s.live| && k < |Order(sessionMap.tab)| && Order(sessionMap.tab)[k] == el
      && el.value in sessions && el.value.serial == s.live[k].serial
    }

    lemma MappedAt(s: State, k: nat)
      requires Rep(s) && k < |Order(sessionMap.tab)|
      ensures IsMapped(Order(sessionMap.tab)[k], s, k)
    {
    }

    /** on_session_read for `nread < 0`, on the session of element `el` */
    method OnReadError(el: Elem<Session>, nread: int, ghost k: nat)
      requires Valid() && k < |Order(sessionMap.tab)| && Order(sessionMap.tab)[k] == el && nread < 0
      modifies this`state, this`reports, sessionMap, sessionMap.buckets, sessionMap.nodes
      modifies sessions`handle, sessions`reading
      ensures Valid() && k < |old(state).live|
      ensures state == Step(cfg, old(state), ReadEnd(old(state).live[k].id, nread))
      ensures reports == old(reports) + [ReadError(nread, el.key)]
      ensures Order(sessionMap.tab) == old(Order(sessionMap.tab))[..k] + old(Order(sessionMap.tab))[k + 1..]
      ensures el.value.handle == Closing && !el.value.reading
      ensures sessionMap.nodes <= old(sessionMap.nodes)
      ensures sessionMap.buckets == old(sessionMap.buckets) || sessionMap.buckets == null
    {
      hide *;
      ghost var s, order := state, Order(sessionMap.tab);
      ValidMeans();
      MapFacts(s);
      MappedAt(s, k);
      MappedIn(el, s, k);
      AtOne(order, s.live, sessions, k);
      ghost var r := ReadError(nread, s.live[k].serial);
      ReadEndSteps(cfg, s, k, nread);
      ReportsOf(s);
      ReportOn(ReadError(nread, el.value.serial), s);
      DropSession(el, s.(reports := s.reports + [r]), k);
      ReportsOf(Remove(s.(reports := s.reports + [r]), k));
      state := Step(cfg, s, ReadEnd(s.live[k].id, nread));
      NowValid();
      ReadEndLaw(cfg, s, k, nread);
      AfterLive(s, k, true);
    }

    lemma TimesOf(s: State)
      requires Rep(s)
      ensures |Order(sessionMap.tab)| == |s.live|
      ensures forall i :: 0 <= i < |s.live| ==> Order(sessionMap.tab)[i].value.lastRecvTime == s.live[i].last
    {
      hide Order, Hash.Valid, Readers, Handles, Different;
    }

    lemma ReportsOf(s: State)
      requires Rep(s)
      ensures reports == s.reports
    {
    }

    /**
     set_session_serial: the search ends for every `next_serial`, through the
     wrap-around and past zero, at the first serial in cyclic order that no live
     session uses.
     */
    method SetSessionSerial(session: Session, ghost live: seq<Conn>)
      requires sessionMap.Valid() && Mirrors(Order(sessionMap.tab), live, sessions)
      requires nextSerial < TWO_32 && |Used(live)| < NONZERO
      requires forall i :: 0 <= i < |live| ==> sessions[live[i].id] != session
      modifies session`serial, this`nextSerial
      ensures Mirrors(Order(sessionMap.tab), live, sessions)
      ensures session.serial == Free(Used(live), old(nextSerial))
      ensures nextSerial == (session.serial + 1) % TWO_32
    {
      hide *;
      ghost var start, used, d := nextSerial, Used(live), 0;
      var serial: nat := nextSerial;
      NthFirst(start);
      while true
        invariant serial < TWO_32 && Skip0(serial) == Nth(start, d) && d <= |used|
        invariant forall c: nat :: c < d ==> Nth(start, c) in used
        modifies {}
        decreases |used| - d
      {
        SkipZero(serial);
        if serial == 0 {
          serial := serial + 1;
        }
        var s := sessionMap.Find(serial);
        NotInUse(Order(sessionMap.tab), live, sessions, serial, s);
        if s == null {
          break;
        } else {
          MetAreMany(used, start, d + 1);
          NthNext(start, d);
          serial := (serial + 1) % TWO_32;
          d := d + 1;
        }
      }
      FoundFree(used, start, serial, d);
      StoreSerial(session, serial, live);
      nextSerial := (serial + 1) % TWO_32;
    }

    /** The serial goes into a session that is not in the map. */
    method StoreSerial(session: Session, serial: nat, ghost live: seq<Conn>)
      requires Mirrors(Order(sessionMap.tab), live, sessions)
      requires forall i :: 0 <= i < |live| ==> sessions[live[i].id] != session
      modifies session`serial
      ensures session.serial == serial && Mirrors(Order(sessionMap.tab), live, sessions)
    {
      session.serial := serial;
    }

    /** session_create: the new session is in no place yet. */
    method SessionCreate(ghost s: State) returns (session: Session)
      requires Rep(s) && s.freed[s.created] == 0 && s.closing[s.created] == 0
      modifies this`sessions
      ensures fresh(session) && fresh(session.recvBuf) && sessions == old(sessions) + [session]
      ensures session.lastRecvTime == clock && session.handle == Open && !session.reading
      ensures Rep(s.(created := s.created + 1))
    {
      hide Order, Hash.Valid, Session.Valid;
      session := new Session(clock);
      assert forall i :: 0 <= i < |sessions| ==> sessions[i] != session && sessions[i].recvBuf != session.recvBuf;
      OneMoreSession(Order(sessionMap.tab), sessions, session, s);
      hide Mirrors, Handles, Readers, Different, HandleOf;
      sessions := sessions + [session];
    }

    /** uv_read_start on the newest session */
    method StartReading(session: Session, ghost s: State)
      requires Rep(s) && s.created > 0 && session == sessions[s.created - 1] && HandleOf(s, s.created - 1) == Open
      modifies session`reading
      ensures Rep(s) && session.reading
    {
      hide Order, Hash.Valid, Readers, Mirrors, HandleOf;
      session.reading := true;
      assert Handles(sessions, s);
    }

    /** A session that never got into the map is given up. */
    method GiveUp(session: Session, ghost s: State)
      requires Rep(s) && s.created > 0 && session == sessions[s.created - 1]
      requires HandleOf(s, s.created - 1) == Open && s.freed[s.created - 1] == 0
      modifies session`handle, session`reading
      ensures Rep(s.(closing := s.closing + multiset{s.created - 1}))
      ensures session.handle == Closing && !session.reading
    {
      hide Order, Hash.Valid, Readers, Mirrors;
      SessionDestroy(session);
      assert Handles(sessions, s.(closing := s.closing + multiset{s.created - 1}));
    }

    /** Give the newest session its serial and put it in the map */
    method MapSession(session: Session, ghost s: State)
      requires Rep(s) && s.created > 0 && session == sessions[s.created - 1] && session.lastRecvTime == s.clock
      requires forall i :: 0 <= i < |s.live| ==> s.live[i].id < s.created - 1
      requires s.nextSerial < TWO_32 && |Used(s.live)| < NONZERO
      modifies session`serial, this`nextSerial, sessionMap, sessionMap.buckets, sessionMap.nodes
      ensures var serial := Free(Used(s.live), s.nextSerial);
        Rep(s.(live := s.live + [Conn(s.created - 1, serial, s.clock)], nextSerial := (serial + 1) % TWO_32))
      ensures |Order(sessionMap.tab)| == |old(Order(sessionMap.tab))| + 1
      ensures Order(sessionMap.tab)[..|old(Order(sessionMap.tab))|] == old(Order(sessionMap.tab))
      ensures Order(sessionMap.tab)[|old(Order(sessionMap.tab))|].value == session
      ensures sessionMap.buckets == old(sessionMap.buckets) || fresh(sessionMap.buckets)
      ensures fresh(sessionMap.nodes - old(sessionMap.nodes))
    {
      hide Different, HandleOf, Order, Hash.Valid, Mirrors, Handles, Readers, Used, Free, FirstFree, AbsentKey;
      ghost var order := Order(sessionMap.tab);
      DifferentAt(sessions, s.created - 1);
      SetSessionSerial(session, s.live);
      FreeFacts(s.live, s.nextSerial);
      UnusedKey(order, s.live, sessions, session.serial);
      var el := AddElem(session);
      ghost var c := Conn(s.created - 1, session.serial, s.clock);
      ghost var t := s.(live := s.live + [c], nextSerial := (session.serial + 1) % TWO_32);
      MirrorsSnoc(order, s.live, sessions, el, c);
      SameHandles(sessions, s, t);
    }

    /**
     on_connection; the arguments are what the listen callback and uv_accept,
     uv_tcp_getpeername and uv_read_start answer
     */
    method OnConnection(err: int, accept: int, peer: int, start: int)
      requires Valid()
      modifies this, sessionMap, sessionMap.buckets, sessionMap.nodes
      ensures Valid() && state == Step(cfg, old(state), Connect(err, accept, peer, start))
      ensures old(sessions) <= sessions
      ensures var order, n, k := old(Order(sessionMap.tab)), |old(sessions)|, |old(Order(sessionMap.tab))|;
        && (err == 0 && !old(stopped) && k < cfg.maxConnection ==> |sessions| == n + 1)
        && (err != 0 || old(stopped) || k >= cfg.maxConnection || accept < 0 || peer < 0 || start < 0 ==>
              Order(sessionMap.tab) == order)
        && (|sessions| == n + 1 && accept >= 0 && peer >= 0 && start >= 0 ==>
              && sessions[n].handle == Open && sessions[n].reading && sessions[n].lastRecvTime == clock
              && |Order(sessionMap.tab)| == k + 1 && Order(sessionMap.tab)[..k] == order
              && Order(sessionMap.tab)[k].value == sessions[n])
        && (|sessions| == n + 1 && (accept < 0 || peer < 0 || start < 0) ==>
              sessions[n].handle == Closing && !sessions[n].reading)
      ensures reports == old(reports) +
        if err == 0 && !old(stopped) && |old(Order(sessionMap.tab))| >= cfg.maxConnection then [ConnLimit] else []
      ensures forall i :: |old(sessions)| <= i < |sessions| ==> fresh(sessions[i]) && fresh(sessions[i].recvBuf)
      ensures sessionMap.buckets == old(sessionMap.buckets) || fresh(sessionMap.buckets)
      ensures fresh(sessionMap.nodes - old(sessionMap.nodes))
    {
      hide *;
      ghost var s, ev := state, Connect(err, accept, peer, start);
      ValidMeans();
      ghost var next := Step(cfg, s, ev);
      AcceptCases(cfg, s, err, accept, peer, start);
      AcceptFacts(cfg, s);
      RepFacts(s);
      state := next;
      if err != 0 {
        NowValid();
        return;
      }
      if stopped {
        NowValid();
        return;
      }
      var count := sessionMap.Count();
      if count >= cfg.maxConnection {
        ReportOn(ConnLimit, s);
        NowValid();
        return;
      }
      var session := SessionCreate(s);
      ghost var t := s.(created := s.created + 1);
      if accept < 0 {
        GiveUp(session, t);
        NowValid();
        return;
      }
      if peer < 0 {
        GiveUp(session, t);
        NowValid();
        return;
      }
      if start < 0 {
        GiveUp(session, t);
        NowValid();
        return;
      }
      StartReading(session, t);
      MapSession(session, t);
      NowValid();
    }

    lemma RepFacts(s: State)
      requires Rep(s)
      ensures stopped == s.stopped && clock == s.clock && sessionMap.Valid() && |Order(sessionMap.tab)| == |s.live|
      ensures |sessions| == s.created
    {
    }

    /**
     Only sessions in the map are being read, so that a read callback is always
     about one of them.
     */
    lemma ReadingIsMapped(id: nat)
      requires Valid() && id < |sessions| && sessions[id].reading
      ensures Enabled(state, Data(id)) && state.live[WithId(state.live, id)].id == id
    {
      hide Order, Hash.Valid, Readers, Mirrors;
      OpenIsLive(state, id);
    }

    /** on_session_close: the buffer and the session are freed. */
    method OnSessionClose(session: Session, ghost id: nat)
      requires Valid() && id < |sessions| && sessions[id] == session && session.handle == Closing
      modifies this`state, session`handle
      ensures Valid() && state == Step(cfg, old(state), Closed(id)) && session.handle == Freed
    {
      hide ServerModel.Inv, Order, Hash.Valid, Readers, Mirrors, HandleOf;
      ghost var s := state;
      ghost var next := Step(cfg, s, Closed(id));
      ClosingFacts(cfg, s, sessions, id);
      StepInv(cfg, s, Closed(id));
      session.handle := Freed;
      assert Handles(sessions, next);
      hide Handles, Different;
      state := next;
    }

    /** The loop's clock is updated. */
    method TimePasses(now: nat)
      requires Valid() && now >= clock
      modifies this`state, this`clock
      ensures Valid() && state == Step(cfg, old(state), Time(now))
    {
      hide ServerModel.Inv, Order, Hash.Valid, Readers, Mirrors;
      StepInv(cfg, state, Time(now));
      SameHandles(sessions, state, Step(cfg, state, Time(now)));
      clock := now;
      state := Step(cfg, state, Time(now));
    }

    /**
     on_session_read for a successful read on the session of element `el`: the
     reader takes the bytes, and the session counts as heard of now.
     */
    method OnRead(el: Elem<Session>, chunk: seq<byte>, ghost k: nat) returns (msg: Option<Message>)
      requires Valid() && k < |Order(sessionMap.tab)| && Order(sessionMap.tab)[k] == el
      requires el.value.Valid() && 1 <= |chunk| <= Offered(el.value.View())
      modifies this`state, el.value, el.value.recvBuf
      ensures Valid() && k < |old(state).live|
      ensures state == Step(cfg, old(state), Data(old(state).live[k].id))
      ensures el.value.Valid()
      ensures Outcome(el.value.View(), if msg.Some? then [msg.value] else []) == Read(old(el.value.View()), chunk)
      ensures el.value.received == old(el.value.received) + chunk && el.value.lastRecvTime == clock
      ensures el.value.recvBuf == old(el.value.recvBuf) || fresh(el.value.recvBuf)
    {
      hide *;
      ghost var s := state;
      ValidMeans();
      MappedAt(s, k);
      MappedIn(el, s, k);
      ghost var next := Step(cfg, s, Data(s.live[k].id));
      DataSteps(cfg, s, k);
      msg := ReceiveOn(el.value, s, k, chunk);
      state := next;
      NowValid();
    }

    lemma MappedIn(el: Elem<Session>, s: State, k: nat)
      requires IsMapped(el, s, k)
      ensures k < |s.live| && k < |Order(sessionMap.tab)| && Order(sessionMap.tab)[k] == el
      ensures el.value.serial == s.live[k].serial && el.value in sessions
    {
    }

    /** The session at position `k` of the map reads; the other sessions are untouched. */
    method ReceiveOn(session: Session, ghost s: State, ghost k: nat, chunk: seq<byte>) returns (msg: Option<Message>)
      requires Accounted(s) && Rep(s) && k < |s.live| && k < |Order(sessionMap.tab)|
      requires session == Order(sessionMap.tab)[k].value
      requires session.Valid() && 1 <= |chunk| <= Offered(session.View())
      modifies session, session.recvBuf
      ensures Rep(s.(live := s.live[k := s.live[k].(last := s.clock)])) && session.Valid()
      ensures Outcome(session.View(), if msg.Some? then [msg.value] else []) == Read(old(session.View()), chunk)
      ensures session.received == old(session.received) + chunk && session.lastRecvTime == clock
      ensures session.recvBuf == old(session.recvBuf) || fresh(session.recvBuf)
    {
      hide Read, Parse, Pending, Session.Valid, Order, Hash.Valid, HandleOf, Accounted;
      ghost var id := s.live[k].id;
      SessionOf(Order(sessionMap.tab), s.live, sessions, k);
      IdsDiffer(s, k);
      DifferentFrom(sessions, id);
      msg := session.Receive(chunk, clock);
      forall i | 0 <= i < |sessions|
        ensures sessions[i].Valid()
      {
      }
      SameHandles(sessions, s, s.(live := s.live[k := s.live[k].(last := s.clock)]));
    }

    /** The next links of the session map lead through it in insertion order. */
    lemma Links(s: State)
      requires Rep(s)
      ensures var order := Order(sessionMap.tab);
        && |order| == |s.live| && sessionMap.head == At(order, 0)
        && forall i {:trigger order[i].next} :: 0 <= i < |order| ==>
             order[i].next == At(order, i + 1) && order[i] in sessionMap.nodes && order[i].value in sessions
    {
    }

    /** What is known of the session at position `p` of the map */
    lemma ValueAt(s: State, p: nat)
      requires Rep(s) && p < |s.live|
      ensures p < |Order(sessionMap.tab)|
      ensures var x := Order(sessionMap.tab)[p].value;
        x in sessions && x.serial == s.live[p].serial && x.lastRecvTime == s.live[p].last
    {
    }

    /** One visit of the sweep, at the session that is at position `p` of the map */
    method Visit(el: Elem<Session>, ghost s: State, ghost p: nat)
      requires Accounted(s) && Rep(s) && p < |s.live| && p < |Order(sessionMap.tab)| && Order(sessionMap.tab)[p] == el
      requires s.live[p].last <= clock
      modifies this`reports, sessionMap, sessionMap.buckets, sessionMap.nodes, el.value`handle, el.value`reading
      ensures var c, order := s.live[p], old(Order(sessionMap.tab));
        if Overdue(cfg, c, clock) then
          var t := Remove(s.(reports := s.reports + [Timeout(c.serial)]), p);
          Rep(t) && Accounted(t) && Order(sessionMap.tab) == order[..p] + order[p + 1..]
        else Rep(s) && Accounted(s) && Order(sessionMap.tab) == order
      ensures sessionMap.nodes <= old(sessionMap.nodes)
      ensures sessionMap.buckets == old(sessionMap.buckets) || sessionMap.buckets == null
    {
      hide Rep, Accounted, Order, Remove;
      ValueAt(s, p);
      if clock - el.value.lastRecvTime > cfg.maxHeartBeat * 1000 {
        ReportOn(Timeout(el.value.serial), s);
        DropSession(el, s.(reports := s.reports + [Timeout(s.live[p].serial)]), p);
      }
    }

    /** HASH_ITER stands at position `p` of the map: `el` is the element there, `tmp` the one after it. */
    ghost predicate Walking(s: State, p: nat, el: Elem?<Session>, tmp: Elem?<Session>)
      reads this`nextSerial, this`stopped, this`clock, this`reports, this`sessions
      reads sessionMap, sessionMap.buckets, sessionMap.nodes
      reads sessions, set x | x in sessions :: x.recvBuf
    {
      && Rep(s) && Accounted(s)
      && |Order(sessionMap.tab)| == |s.live|
      && el == At(Order(sessionMap.tab), p) && tmp == At(Order(sessionMap.tab), p + 1)
    }

    /** The start of HASH_ITER */
    method FirstElem(ghost s: State) returns (el: Elem?<Session>, tmp: Elem?<Session>)
      requires Rep(s) && Accounted(s)
      ensures Walking(s, 0, el, tmp)
    {
      hide Rep, Accounted, Order;
      Links(s);
      el := sessionMap.head;
      tmp := if el != null then el.next else null;
    }

    /** The step of HASH_ITER, after the map has come to represent `s`; `tmp` is now at position `p`. */
    method NextElem(tmp0: Elem?<Session>, ghost s: State, ghost p: nat)
      returns (el: Elem?<Session>, tmp: Elem?<Session>)
      requires Rep(s) && Accounted(s) && tmp0 == At(Order(sessionMap.tab), p)
      ensures Walking(s, p, el, tmp)
    {
      hide Rep, Accounted, Order;
      Links(s);
      el := tmp0;
      tmp := if tmp0 != null then tmp0.next else null;
    }

    lemma Standing(s: State, p: nat, el: Elem?<Session>, tmp: Elem?<Session>)
      requires Walking(s, p, el, tmp)
      ensures Rep(s) && Accounted(s) && |Order(sessionMap.tab)| == |s.live|
      ensures tmp == At(Order(sessionMap.tab), p + 1)
      ensures el != null <==> p < |s.live|
      ensures el != null ==> p < |Order(sessionMap.tab)| && Order(sessionMap.tab)[p] == el && el.value in sessions
    {
      hide Accounted, Order, Rep;
      Links(s);
      if el != null {
        ValueAt(s, p);
      }
    }

    /** Where the sweep stands with `k` sessions visited */
    function Place(s: State, k: nat): nat
      requires k <= |s.live|
    {
      |Kept(cfg, s.live[..k], s.clock)|
    }

    /** One turn of the sweep: HASH_ITER reads the successor before the visit may delete the element. */
    method SweepOne(el0: Elem<Session>, tmp0: Elem?<Session>, ghost s: State, ghost k: nat)
      returns (el: Elem?<Session>, tmp: Elem?<Session>)
      requires ServerModel.Inv(cfg, s) && k < |s.live| && clock == s.clock
      requires Walking(SweepAt(cfg, s, k), Place(s, k), el0, tmp0)
      modifies this`reports, sessionMap, sessionMap.buckets, sessionMap.nodes, el0.value`handle, el0.value`reading
      ensures Walking(SweepAt(cfg, s, k + 1), Place(s, k + 1), el, tmp)
      ensures sessionMap.nodes <= old(sessionMap.nodes)
      ensures sessionMap.buckets == old(sessionMap.buckets) || sessionMap.buckets == null
    {
      hide *;
      ghost var t, p := SweepAt(cfg, s, k), Place(s, k);
      Standing(t, p, el0, tmp0);
      SweepNext(cfg, s, k);
      PlaceNext(s, k);
      LastHeard(s, k);
      ghost var order := Order(sessionMap.tab);
      Visit(el0, t, p);
      CutAway(order, p);
      el, tmp := NextElem(tmp0, SweepAt(cfg, s, k + 1), Place(s, k + 1));
    }

    lemma PlaceNext(s: State, k: nat)
      requires k < |s.live|
      ensures Place(s, k) == |Kept(cfg, s.live[..k], s.clock)|
      ensures Place(s, k + 1) == |Kept(cfg, s.live[..k + 1], s.clock)|
    {
    }

    lemma TickFacts()
      requires Valid()
      ensures ServerModel.Inv(cfg, state) && Rep(state) && Accounted(state) && clock == state.clock
      ensures SweepAt(cfg, state, 0) == state && Place(state, 0) == 0
      ensures SweepAt(cfg, state, |state.live|) == Step(cfg, state, Tick)
      ensures ServerModel.Inv(cfg, Step(cfg, state, Tick))
    {
      hide *;
      ValidMeans();
      ClockOf(state);
      TickSound(cfg, state);
      PlaceFirst(state);
    }

    lemma PlaceFirst(s: State)
      ensures Place(s, 0) == 0
    {
      NothingKept(cfg, s);
    }

    lemma ValidMeans()
      requires Valid()
      ensures ServerModel.Inv(cfg, state) && Rep(state)
    {
      hide Rep, ServerModel.Inv;
    }

    lemma SweepLeft(s: State, k: nat)
      requires k <= |s.live|
      ensures |SweepAt(cfg, s, k).live| == Place(s, k) + (|s.live| - k)
    {
    }

    /** hearbeat_timer_cb */
    method HeartbeatTimer()
      requires Valid()
      modifies this`reports, this`state, sessionMap, sessionMap.buckets, sessionMap.nodes
      modifies sessions`handle, sessions`reading
      ensures Valid() && state == Step(cfg, old(state), Tick)
      ensures forall i :: 0 <= i < |old(Order(sessionMap.tab))| ==>
        var el := old(Order(sessionMap.tab))[i];
        el.value.handle == if clock > el.value.lastRecvTime + 1000 * cfg.maxHeartBeat then Closing else Open
      ensures sessionMap.nodes <= old(sessionMap.nodes)
      ensures sessionMap.buckets == old(sessionMap.buckets) || sessionMap.buckets == null
    {
      hide *;
      ghost var s, order := state, Order(sessionMap.tab);
      TickFacts();
      MapFacts(s);
      TimesOf(s);
      ghost var k := 0;
      var el, tmp := FirstElem(s);
      Standing(s, 0, el, tmp);
      while el != null
        invariant k <= |s.live| && Walking(SweepAt(cfg, s, k), Place(s, k), el, tmp)
        invariant clock == s.clock && state == s
        invariant el != null <==> k < |s.live|
        invariant el != null ==> el.value in sessions
        invariant sessionMap.nodes <= old(sessionMap.nodes)
        invariant sessionMap.buckets == old(sessionMap.buckets) || sessionMap.buckets == null
        decreases |s.live| - k
      {
        el, tmp := SweepOne(el, tmp, s, k);
        k := k + 1;
        SweepLeft(s, k);
        Standing(SweepAt(cfg, s, k), Place(s, k), el, tmp);
      }
      Standing(SweepAt(cfg, s, k), Place(s, k), el, tmp);
      state := SweepAt(cfg, s, k);
      NowValid();
      forall i | 0 <= i < |order|
        ensures order[i].value.handle
             == if clock > order[i].value.lastRecvTime + 1000 * cfg.maxHeartBeat then Closing else Open
      {
        AtOne(order, s.live, sessions, i);
        TickLaw(cfg, s, i);
        AfterLive(s, i, s.clock > s.live[i].last + 1000 * cfg.maxHeartBeat);
      }
    }

    lemma ClockOf(s: State)
      requires Rep(s)
      ensures clock == s.clock
    {
    }

    lemma LastHeard(s: State, k: nat)
      requires ServerModel.Inv(cfg, s) && k < |s.live|
      ensures s.live[k].last <= s.clock
    {
    }

    /** One turn of the loop of qsf_net_server_stop */
    method StopOne(el0: Elem<Session>, tmp0: Elem?<Session>, ghost s: State, ghost k: nat)
      returns (el: Elem?<Session>, tmp: Elem?<Session>)
      requires k < |s.live| && Walking(StopAt(s, k), 0, el0, tmp0)
      modifies sessionMap, sessionMap.buckets, sessionMap.nodes, el0.value`handle, el0.value`reading
      ensures Walking(StopAt(s, k + 1), 0, el, tmp)
      ensures sessionMap.nodes <= old(sessionMap.nodes)
      ensures sessionMap.buckets == old(sessionMap.buckets) || sessionMap.buckets == null
    {
      hide *;
      Standing(StopAt(s, k), 0, el0, tmp0);
      StopNext(s, k);
      StopLeft(s, k);
      ghost var order := Order(sessionMap.tab);
      DropSession(el0, StopAt(s, k), 0);
      CutAway(order, 0);
      el, tmp := NextElem(tmp0, StopAt(s, k + 1), 0);
    }

    lemma StopLeft(s: State, k: nat)
      requires k <= |s.live|
      ensures |StopAt(s, k).live| == |s.live| - k
    {
    }

    /** qsf_net_server_stop */
    method StopServer()
      requires Valid()
      modifies this`stopped, this`state, this`timer, this`acceptor
      modifies sessionMap, sessionMap.buckets, sessionMap.nodes, sessions`handle, sessions`reading
      ensures Valid() && state == Step(cfg, old(state), Stop)
      ensures sessionMap.nodes <= old(sessionMap.nodes)
      ensures sessionMap.buckets == old(sessionMap.buckets) || sessionMap.buckets == null
      ensures timer != Open && acceptor != Open && stopped
      ensures Order(sessionMap.tab) == []
      ensures forall i :: 0 <= i < |old(Order(sessionMap.tab))| ==>
        var session := old(Order(sessionMap.tab))[i].value;
        session.handle == Closing && !session.reading
    {
      hide *;
      ghost var s, order := state, Order(sessionMap.tab);
      StopFacts();
      MapFacts(s);
      SetStopped(s);
      ghost var k := 0;
      var el, tmp := FirstElem(StopAt(s, 0));
      StopLeft(s, 0);
      Standing(StopAt(s, 0), 0, el, tmp);
      while el != null
        invariant k <= |s.live| && Walking(StopAt(s, k), 0, el, tmp)
        invariant el != null <==> k < |s.live|
        invariant el != null ==> el.value in sessions
        invariant sessionMap.nodes <= old(sessionMap.nodes)
        invariant sessionMap.buckets == old(sessionMap.buckets) || sessionMap.buckets == null
        decreases |s.live| - k
      {
        el, tmp := StopOne(el, tmp, s, k);
        k := k + 1;
        StopLeft(s, k);
        Standing(StopAt(s, k), 0, el, tmp);
      }
      Standing(StopAt(s, k), 0, el, tmp);
      if timer == Open {
        timer := Closing;
      }
      if acceptor == Open {
        acceptor := Closing;
      }
      state := StopAt(s, k);
      NowValid();
      StopLaw(cfg, s);
      StoppedOf();
      OrderLength();
      forall i | 0 <= i < |order|
        ensures order[i].value.handle == Closing && !order[i].value.reading
      {
        AtOne(order, s.live, sessions, i);
        AfterLive(s, i, true);
      }
    }

    lemma StopFacts()
      requires Valid()
      ensures ServerModel.Inv(cfg, state) && Rep(state) && Accounted(state)
      ensures StopAt(state, 0) == state.(stopped := true)
      ensures StopAt(state, |state.live|) == Step(cfg, state, Stop) && ServerModel.Inv(cfg, Step(cfg, state, Stop))
    {
      hide *;
      ValidMeans();
      StopSound(cfg, state);
    }

    lemma NowValid()
      requires ServerModel.Inv(cfg, state) && Rep(state)
      ensures Valid()
    {
      hide Rep, ServerModel.Inv;
    }

    method SetStopped(ghost s: State)
      requires Rep(s) && Accounted(s)
      modifies this`stopped
      ensures Rep(s.(stopped := true)) && Accounted(s.(stopped := true))
    {
      hide Order, Hash.Valid, Readers, Mirrors, HandleOf;
      SameHandles(sessions, s, s.(stopped := true));
      stopped := true;
    }

    /** HASH_ADD_INT */
    method AddElem(session: Session) returns (el: Elem<Session>)
      requires sessionMap.Valid() && session.serial < TWO_32 && AbsentKey(Order(sessionMap.tab), session.serial)
      modifies sessionMap, sessionMap.buckets, sessionMap.nodes
      ensures sessionMap.Valid() && Order(sessionMap.tab) == old(Order(sessionMap.tab)) + [el]
      ensures el.value == session && el.key == session.serial
      ensures sessionMap.buckets == old(sessionMap.buckets) || fresh(sessionMap.buckets)
      ensures fresh(sessionMap.nodes - old(sessionMap.nodes))
    {
      el := new Elem<Session>(session.serial, session);
      AddedOrder(sessionMap.hash, sessionMap.tab, el);
      hide Order, HashModel.Add, HashModel.Inv, AbsentKey;
      sessionMap.Add(el);
    }

    /** What a valid server's objects look like, in their own terms */
    ghost predicate Sound()
      reads this, sessionMap, sessionMap.buckets, sessionMap.nodes
      reads sessions, set x | x in sessions :: x.recvBuf
    {
      var order := Order(sessionMap.tab);
      && sessionMap.Valid()
      && |order| <= cfg.maxConnection
      && (forall i :: 0 <= i < |order| ==>
            order[i].value in sessions && order[i].key == order[i].value.serial != 0)
      && (forall i, j :: 0 <= i < j < |order| ==> order[i].value.serial != order[j].value.serial)
      && (forall id :: 0 <= id < |sessions| ==>
            && sessions[id].Valid()
            && (sessions[id].handle == Open <==> exists i :: 0 <= i < |order| && order[i].value == sessions[id])
            && (sessions[id].reading ==> sessions[id].handle == Open))
    }

    lemma ValidIsSound()
      requires Valid()
      ensures Sound()
    {
      hide Order, Hash.Valid, Accounted, NotAhead, Session.Valid, HandleOf;
      var order, live := Order(sessionMap.tab), state.live;
      forall i | 0 <= i < |order|
        ensures order[i].value in sessions && order[i].key == order[i].value.serial != 0
      {
        assert live[i].serial > 0;
      }
      forall id | 0 <= id < |sessions|
        ensures sessions[id].handle == Open <==> exists i :: 0 <= i < |order| && order[i].value == sessions[id]
      {
        OpenIffMapped(id);
      }
    }

    lemma OpenIffMapped(id: nat)
      requires Valid() && id < |sessions|
      ensures sessions[id].handle == Open
        <==> exists i :: 0 <= i < |Order(sessionMap.tab)| && Order(sessionMap.tab)[i].value == sessions[id]
    {
      hide Order, Hash.Valid, Readers, ProperSerials, NotAhead;
      var order, live := Order(sessionMap.tab), state.live;
      if sessions[id].handle == Open {
        OpenIsLive(state, id);
        assert order[WithId(live, id)].value == sessions[id];
      }
      if i :| 0 <= i < |order| && order[i].value == sessions[id] {
        DifferentFrom(sessions, id);
        assert live[i].id == id;
        HandlesDrop(state, i);
      }
    }

    lemma StoppedOf()
      requires Valid()
      ensures stopped == state.stopped
    {
      hide Order, Hash.Valid, Readers, Handles, Different, Mirrors;
    }

    lemma OrderLength()
      requires Valid()
      ensures |Order(sessionMap.tab)| == |state.live|
    {
      hide Order, Hash.Valid, Readers, ProperSerials, NotAhead, Accounted, Handles, Different;
    }

    // ----- the event loop

    /** The element of a session in the map */
    method Locate(session: Session, ghost id: nat) returns (el: Elem<Session>)
      requires Valid() && id < |sessions| && sessions[id] == session && WithId(state.live, id) < |state.live|
      ensures el.value == session
      ensures var k := WithId(state.live, id); k < |Order(sessionMap.tab)| && Order(sessionMap.tab)[k] == el
    {
      hide *;
      ValidMeans();
      SerialPlace(id);
      var found := FindSession(session.serial, state);
      el := found;
    }

    lemma SerialPlace(id: nat)
      requires Valid() && id < |sessions| && WithId(state.live, id) < |state.live|
      ensures var k := WithId(state.live, id);
        && sessions[id].serial < 0x1_0000_0000 && WithSerial(state.live, sessions[id].serial) == k
        && k < |Order(sessionMap.tab)| && Order(sessionMap.tab)[k].value == sessions[id]
    {
      hide Order, Hash.Valid, Readers, Handles, Different, Accounted, NotAhead;
      SerialUnique(state.live, WithId(state.live, id));
    }

    /** The session is being closed exactly when the state says so. */
    lemma ClosingHandle(id: nat)
      requires Valid() && id in state.closing
      ensures id < |sessions| && sessions[id].handle == Closing
    {
      hide Order, Hash.Valid, Readers, Mirrors, Different;
      ClosingOnly(cfg, state, id);
    }

    lemma LiveSession(id: nat)
      requires Valid() && WithId(state.live, id) < |state.live|
      ensures id < |sessions| && sessions[id].Valid()
    {
      hide Order, Hash.Valid, Handles, Different, Accounted, ProperSerials, NotAhead, Session.Valid;
      assert state.live[WithId(state.live, id)].id == id;
    }

    /** A successful read, of as much of `chunk` as the session offers room for */
    method Deliver(id: nat, chunk: seq<byte>)
      requires Valid() && Enabled(state, Data(id)) && chunk != []
      requires id < |sessions|
      modifies this`state, sessions[id], sessions[id].recvBuf
      ensures Valid() && state == Step(cfg, old(state), Data(id))
      ensures sessions[id].recvBuf == old(sessions[id].recvBuf) || fresh(sessions[id].recvBuf)
    {
      hide *;
      EnabledLive(state, id);
      LiveSession(id);
      ghost var k := WithId(state.live, id);
      var el := Locate(sessions[id], id);
      var base, len := el.value.OnAlloc();
      var piece := if |chunk| <= len then chunk else chunk[..len];
      var msg := OnRead(el, piece, k);
    }

    /** One callback or call, as the event says */
    method OnEvent(ev: Event, chunk: seq<byte>)
      requires Valid() && Enabled(state, ev) && chunk != []
      modifies this, sessionMap, sessionMap.buckets, sessionMap.nodes, sessions, set x | x in sessions :: x.recvBuf
      ensures Valid() && state == Step(cfg, old(state), ev)
      ensures fresh(sessionMap.nodes - old(sessionMap.nodes))
      ensures sessionMap.buckets == old(sessionMap.buckets) || sessionMap.buckets == null || fresh(sessionMap.buckets)
      ensures old(sessions) <= sessions
      ensures forall i :: |old(sessions)| <= i < |sessions| ==> fresh(sessions[i]) && fresh(sessions[i].recvBuf)
      ensures forall i :: 0 <= i < |old(sessions)| ==>
        sessions[i].recvBuf == old(sessions[i].recvBuf) || fresh(sessions[i].recvBuf)
    {
      hide *;
      EnabledMeans(state, ev);
      match ev
      case Connect(err, accept, peer, start) => OnConnection(err, accept, peer, start);
      case Data(id) =>
        LiveSession(id);
        Deliver(id, chunk);
      case ReadEnd(id, code) =>
        LiveSession(id);
        var el := Locate(sessions[id], id);
        OnReadError(el, code, WithId(state.live, id));
      case Tick => HeartbeatTimer();
      case Kick(serial) => Close(serial);
      case Stop => StopServer();
      case Closed(id) =>
        ClosingHandle(id);
        OnSessionClose(sessions[id], id);
      case Time(now) =>
        ValidMeans();
        ClockOf(state);
        TimePasses(now);
    }

    /**
     Any possible sequence of events, played on the objects. So what holds of every
     run of the model holds of the hash table, the sessions and their handles.
     */
    method Play(evs: seq<Event>, chunks: seq<seq<byte>>)
      requires Valid() && |chunks| == |evs| && forall i :: 0 <= i < |chunks| ==> chunks[i] != []
      requires ServerModel.Inv(cfg, state) && Possible(cfg, state, evs)
      modifies this, sessionMap, sessionMap.buckets, sessionMap.nodes, sessions, set x | x in sessions :: x.recvBuf
      ensures Valid() && ServerModel.Inv(cfg, old(state)) && state == ServerModel.Run(cfg, old(state), evs)
    {
      hide *;
      ghost var s := state;
      var n := 0;
      assert evs[0..] == evs;
      while n < |evs|
        invariant n <= |evs| && Valid()
        invariant ServerModel.Inv(cfg, state) && Possible(cfg, state, evs[n..])
        invariant ServerModel.Run(cfg, s, evs) == ServerModel.Run(cfg, state, evs[n..])
        invariant fresh(sessionMap.nodes - old(sessionMap.nodes))
        invariant sessionMap.buckets == null || sessionMap.buckets == old(sessionMap.buckets)
          || fresh(sessionMap.buckets)
        invariant old(sessions) <= sessions
        invariant forall i :: |old(sessions)| <= i < |sessions| ==> fresh(sessions[i]) && fresh(sessions[i].recvBuf)
        invariant forall i :: 0 <= i < |old(sessions)| ==>
          sessions[i].recvBuf == old(sessions[i].recvBuf) || fresh(sessions[i].recvBuf)
      {
        RunNext(cfg, state, evs, n);
        OnEvent(evs[n], chunks[n]);
        n := n + 1;
      }
      RunDone(cfg, state, evs[n..]);
    }
  }

  /**
   The life of a server, from its creation on: the map never holds more than
   `max_connection` sessions, each under its own serial; a session's handle is open
   exactly while it is in the map; what each session delivered is the parse of what it
   received; and after a stop the map is empty.
   */
  method Life(hash: HashFn, maxConnection: nat, maxHeartBeat: nat, evs: seq<Event>, chunks: seq<seq<byte>>)
    returns (server: Server)
    requires maxConnection < TWO_32 && maxHeartBeat < 0x1_0000
    requires |chunks| == |evs| && forall i :: 0 <= i < |chunks| ==> chunks[i] != []
    requires var cfg := Config(maxConnection, maxHeartBeat); Possible(cfg, Created(cfg), evs)
    ensures var cfg := Config(maxConnection, maxHeartBeat);
      server.cfg == cfg && server.Valid() && server.state == ServerModel.Run(cfg, Created(cfg), evs)
    ensures server.Sound()
    ensures Stop in evs ==> Order(server.sessionMap.tab) == []
  {
    hide *;
    ghost var cfg := Config(maxConnection, maxHeartBeat);
    ghost var s := Created(cfg);
    Width();
    server := new Server(hash, maxConnection, maxHeartBeat);
    server.Play(evs, chunks);
    server.ValidIsSound();
    if Stop in evs {
      StoppedOnce(cfg, s, evs);
      server.OrderLength();
    }
  }

  /** What it means for an event to be possible */
  lemma EnabledMeans(s: State, ev: Event)
    requires Enabled(s, ev)
    ensures ev.Data? ==> WithId(s.live, ev.id) < |s.live|
    ensures ev.ReadEnd? ==> WithId(s.live, ev.id) < |s.live| && ev.code < 0
    ensures ev.Closed? ==> ev.id in s.closing
    ensures ev.Time? ==> ev.now >= s.clock
    ensures ev.Kick? ==> ev.serial < 0x1_0000_0000
  {
  }

  lemma Width()
    ensures TWO_32 == 0x1_0000_0000
  {
  }

  lemma EnabledLive(s: State, id: nat)
    requires Enabled(s, Data(id))
    ensures WithId(s.live, id) < |s.live|
  {
  }

  lemma SerialUnique(live: seq<Conn>, k: nat)
    requires ProperSerials(live) && k < |live|
    ensures WithSerial(live, live[k].serial) == k && live[k].serial < 0x1_0000_0000
  {
    var j := WithSerial(live, live[k].serial);
    assert !(j < k) && !(k < j);
  }

  /** A session that is closing is neither in the map nor freed. */
  lemma ClosingOnly(cfg: Config, s: State, id: nat)
    requires ServerModel.Inv(cfg, s) && id in s.closing
    ensures id < s.created && HandleOf(s, id) == Closing
  {
    EveryoneCount(s.created, id);
    assert (IdBag(s.live) + s.closing + s.freed)[id] == Everyone(s.created)[id];
  }

  lemma RunNext(cfg: Config, s: State, evs: seq<Event>, n: nat)
    requires ServerModel.Inv(cfg, s) && n < |evs| && Possible(cfg, s, evs[n..])
    ensures Enabled(s, evs[n])
    ensures var t := Step(cfg, s, evs[n]);
      && ServerModel.Inv(cfg, t) && Possible(cfg, t, evs[n + 1..])
      && ServerModel.Run(cfg, s, evs[n..]) == ServerModel.Run(cfg, t, evs[n + 1..])
  {
    StepInv(cfg, s, evs[n]);
    assert evs[n..][0] == evs[n] && evs[n..][1..] == evs[n + 1..];
  }

  lemma RunDone(cfg: Config, s: State, evs: seq<Event>)
    requires ServerModel.Inv(cfg, s) && evs == []
    ensures Possible(cfg, s, evs) && ServerModel.Run(cfg, s, evs) == s
  {
  }

  /** Element by element, the map holds the sessions of `live` under their serials. */
  predicate AtEach(order: Chain<Session>, live: seq<Conn>, sessions: seq<Session>)
  {
    && |order| == |live|
    && (forall i :: 0 <= i < |live| ==>
          live[i].id < |sessions| && order[i].value == sessions[live[i].id] && order[i].key == live[i].serial)
  }

  lemma AtOne(order: Chain<Session>, live: seq<Conn>, sessions: seq<Session>, i: nat)
    requires AtEach(order, live, sessions) && i < |order|
    ensures |order| == |live| && live[i].id < |sessions|
    ensures order[i].value == sessions[live[i].id] && order[i].key == live[i].serial
  {
  }

  lemma NoSuchKey(order: Chain<Session>, live: seq<Conn>, sessions: seq<Session>, serial: Key)
    requires AtEach(order, live, sessions) && forall i :: 0 <= i < |live| ==> live[i].serial != serial
    ensures AbsentKey(order, serial)
  {
  }

  lemma KickSteps(cfg: Config, s: State, serial: nat)
    requires ServerModel.Inv(cfg, s) && serial < 0x1_0000_0000
    ensures Accounted(s) && ServerModel.Inv(cfg, Step(cfg, s, Kick(serial)))
    ensures var k := WithSerial(s.live, serial);
      Step(cfg, s, Kick(serial)) == if k == |s.live| then s else Remove(s, k)
  {
    hide Accounted, ProperSerials, NotAhead, Remove;
    StepInv(cfg, s, Kick(serial));
  }

  /** Kicking one session leaves the others where they are. */
  lemma KickKeeps(cfg: Config, s: State, serial: nat, i: nat)
    requires ServerModel.Inv(cfg, s) && i < |s.live|
    ensures var t := Step(cfg, s, Kick(serial));
      && t.freed == s.freed && t.created == s.created
      && if s.live[i].serial == serial then t.closing[s.live[i].id] == 1 else s.live[i] in t.live
  {
    KickLaw(cfg, s, serial);
    if s.live[i].serial != serial {
      ExceptKeeps(s.live, serial, i);
    }
  }

  lemma ReadEndSteps(cfg: Config, s: State, k: nat, code: int)
    requires ServerModel.Inv(cfg, s) && k < |s.live| && code < 0
    ensures Accounted(s)
    ensures var t := Step(cfg, s, ReadEnd(s.live[k].id, code));
      && ServerModel.Inv(cfg, t)
      && t == Remove(s.(reports := s.reports + [ReadError(code, s.live[k].serial)]), k)
      && t.freed == s.freed && t.created == s.created
  {
    hide Accounted, ProperSerials, NotAhead;
    WithIdAt(s, k);
    StepInv(cfg, s, ReadEnd(s.live[k].id, code));
  }

  lemma FreeFacts(live: seq<Conn>, start: nat)
    requires start < TWO_32 && |Used(live)| < NONZERO
    ensures Free(Used(live), start) !in Used(live)
  {
  }

  lemma DataSteps(cfg: Config, s: State, k: nat)
    requires ServerModel.Inv(cfg, s) && k < |s.live|
    ensures Accounted(s)
    ensures var next := Step(cfg, s, Data(s.live[k].id));
      ServerModel.Inv(cfg, next) && next == s.(live := s.live[k := s.live[k].(last := s.clock)])
  {
    hide Accounted, ProperSerials, NotAhead;
    WithIdAt(s, k);
    StepInv(cfg, s, Data(s.live[k].id));
  }

  /** The branches of on_connection */
  lemma AcceptCases(cfg: Config, s: State, err: int, accept: int, peer: int, start: int)
    requires ServerModel.Inv(cfg, s)
    ensures Accounted(s) && (|s.live| < cfg.maxConnection ==> |Used(s.live)| < NONZERO)
    ensures var ev := Connect(err, accept, peer, start); var next := Step(cfg, s, ev);
      && ServerModel.Inv(cfg, next)
      && next ==
         if err != 0 || s.stopped then s
         else if |s.live| >= cfg.maxConnection then s.(reports := s.reports + [ConnLimit])
         else if accept < 0 || peer < 0 || start < 0
         then s.(created := s.created + 1, closing := s.closing + multiset{s.created})
         else
           var serial := Free(Used(s.live), s.nextSerial);
           s.(created := s.created + 1, live := s.live + [Conn(s.created, serial, s.clock)],
              nextSerial := (serial + 1) % TWO_32)
  {
    hide ProperSerials, NotAhead, Accounted, Free, Used, FirstFree;
    StepInv(cfg, s, Connect(err, accept, peer, start));
    UsedSmall(s.live);
  }

  /** What on_connection may rely on */
  lemma AcceptFacts(cfg: Config, s: State)
    requires ServerModel.Inv(cfg, s)
    ensures s.freed[s.created] == 0 && s.closing[s.created] == 0
    ensures HandleOf(s.(created := s.created + 1), s.created) == Open
    ensures forall i :: 0 <= i < |s.live| ==> s.live[i].id < s.created
    ensures s.nextSerial < TWO_32 && |Used(s.live)| <= |s.live| && cfg.maxConnection <= NONZERO
  {
    EveryoneCount(s.created, s.created);
    assert (IdBag(s.live) + s.closing + s.freed)[s.created] == Everyone(s.created)[s.created];
    UsedSmall(s.live);
    forall i | 0 <= i < |s.live|
      ensures s.live[i].id < s.created
    {
      IdBagDrop(s.live, i);
      EveryoneCount(s.created, s.live[i].id);
      assert (IdBag(s.live) + s.closing + s.freed)[s.live[i].id] == Everyone(s.created)[s.live[i].id];
    }
  }

  lemma ClosingFacts(cfg: Config, s: State, sessions: seq<Session>, id: nat)
    requires ServerModel.Inv(cfg, s) && Handles(sessions, s) && id < |sessions| && sessions[id].handle == Closing
    ensures id in s.closing
    ensures forall i: nat :: HandleOf(Step(cfg, s, Closed(id)), i) == if i == id then Freed else HandleOf(s, i)
  {
    EveryoneCount(s.created, id);
    assert (IdBag(s.live) + s.closing + s.freed)[id] == Everyone(s.created)[id];
  }

  /** A session that is neither closing nor freed is in the map. */
  lemma OpenIsLive(s: State, id: nat)
    requires Accounted(s) && id < s.created && HandleOf(s, id) == Open
    ensures WithId(s.live, id) < |s.live|
  {
    EveryoneCount(s.created, id);
    assert (IdBag(s.live) + s.closing + s.freed)[id] == Everyone(s.created)[id];
    if WithId(s.live, id) == |s.live| {
      NoneThere(s.live, id);
    }
  }

  lemma IdsDiffer(s: State, k: nat)
    requires Accounted(s) && k < |s.live|
    ensures forall i :: 0 <= i < |s.live| && i != k ==> s.live[i].id != s.live[k].id
  {
    forall i | 0 <= i < |s.live| && i != k
      ensures s.live[i].id != s.live[k].id
    {
      WithIdAt(s, i);
      WithIdAt(s, k);
    }
  }

  lemma DifferentFrom(sessions: seq<Session>, k: nat)
    requires Different(sessions) && k < |sessions|
    ensures forall i :: 0 <= i < |sessions| && i != k ==> sessions[i] != sessions[k]
  {
  }

  lemma SessionOf(order: Chain<Session>, live: seq<Conn>, sessions: seq<Session>, k: nat)
    requires Mirrors(order, live, sessions) && k < |live|
    ensures live[k].id < |sessions| && order[k].value == sessions[live[k].id]
  {
  }

  /** What stands after position `p` moves up when that position is cut away. */
  lemma CutAway(s: Chain<Session>, p: nat)
    requires p < |s|
    ensures var r := s[..p] + s[p + 1..]; |r| == |s| - 1 && At(r, p) == At(s, p + 1)
  {
  }

  lemma NothingKept(cfg: Config, s: State)
    ensures Kept(cfg, s.live[..0], s.clock) == []
  {
  }

  lemma SameHandles(sessions: seq<Session>, s: State, t: State)
    requires Handles(sessions, s) && t.closing == s.closing && t.freed == s.freed
    ensures Handles(sessions, t)
  {
  }

  lemma DifferentAt(sessions: seq<Session>, k: nat)
    requires Different(sessions) && k < |sessions|
    ensures forall i :: 0 <= i < k ==> sessions[i] != sessions[k]
  {
  }

  lemma MirrorsSnoc(order: Chain<Session>, live: seq<Conn>, sessions: seq<Session>, el: Elem<Session>, c: Conn)
    requires Mirrors(order, live, sessions)
    requires c.id < |sessions| && el.value == sessions[c.id]
    requires el.key == c.serial == el.value.serial && c.last == el.value.lastRecvTime
    ensures Mirrors(order + [el], live + [c], sessions)
  {
  }

  /** The representation, with a session just created */
  lemma OneMoreSession(order: Chain<Session>, sessions: seq<Session>, x: Session, s: State)
    requires Mirrors(order, s.live, sessions) && Handles(sessions, s) && Readers(sessions) && Different(sessions)
    requires |sessions| == s.created && s.freed[s.created] == 0 && s.closing[s.created] == 0
    requires x.Valid() && x.handle == Open && !x.reading
    requires forall i :: 0 <= i < |sessions| ==> sessions[i] != x && sessions[i].recvBuf != x.recvBuf
    ensures var more, t := sessions + [x], s.(created := s.created + 1);
      Mirrors(order, t.live, more) && Handles(more, t) && Readers(more) && Different(more)
  {
    hide Session.Valid;
  }

  lemma AddedOrder<V>(hash: HashFn, t: Table<V>, e: Elem<V>)
    requires HashModel.Inv(hash, t) && AbsentKey(Order(t), e.key)
    ensures var u := Ready(t); u.Table? && u.chains != [] && |u.mults| == |u.chains|
    ensures Order(HashModel.Add(hash, t, e)) == Order(t) + [e]
  {
    AddInv(hash, t, e);
  }

  lemma UnusedKey(order: Chain<Session>, live: seq<Conn>, sessions: seq<Session>, serial: Key)
    requires Mirrors(order, live, sessions) && serial !in Used(live)
    ensures AbsentKey(order, serial)
  {
    forall i | 0 <= i < |order|
      ensures order[i].key != serial
    {
      assert live[i].serial in Used(live);
    }
  }

  /** A serial that is not found is not in use. */
  lemma NotInUse(order: Chain<Session>, live: seq<Conn>, sessions: seq<Session>, serial: Key, found: Elem?<Session>)
    requires Mirrors(order, live, sessions)
    requires found != null ==> found in order && found.key == serial
    requires found == null ==> AbsentKey(order, serial)
    ensures found == null <==> serial !in Used(live)
  {
    if found != null {
      var i :| 0 <= i < |order| && order[i] == found;
      assert live[i].serial == serial;
    }
  }

  /** What HASH_FIND finds under a serial is the session the state has there. */
  lemma FoundAt(hash: HashFn, t: Table<Session>, live: seq<Conn>, sessions: seq<Session>, serial: Key,
                found: Elem?<Session>)
    requires HashModel.Inv(hash, t) && Mirrors(Order(t), live, sessions)
    requires found != null ==> found in Order(t) && found.key == serial
    requires found == null ==> AbsentKey(Order(t), serial)
    ensures var k := WithSerial(live, serial);
      && (found == null <==> k == |live|)
      && (found != null ==> k < |Order(t)| && Order(t)[k] == found && found.value in sessions)
  {
    var k, order := WithSerial(live, serial), Order(t);
    if found != null {
      var i :| 0 <= i < |order| && order[i] == found;
      assert live[i].serial == serial;
      SameKeySameElement(order, order[k], found);
    }
  }

  /** The session a read callback is about is found by its number. */
  lemma WithIdAt(s: State, k: nat)
    requires Accounted(s) && k < |s.live|
    ensures WithId(s.live, s.live[k].id) == k
  {
    var id := s.live[k].id;
    var j := WithId(s.live, id);
    EveryoneCount(s.created, id);
    assert (IdBag(s.live) + s.closing + s.freed)[id] == Everyone(s.created)[id];
    if j != k {
      Twice(s.live, j, k);
    }
  }

  lemma DeletedOrder<V>(hash: HashFn, t: Table<V>, k: nat)
    requires HashModel.Inv(hash, t) && k < |Order(t)|
    ensures Order(t)[k] in Order(t)
    ensures t.Table? && t.chains != []
    ensures Order(Delete(hash, t, Order(t)[k])) == Order(t)[..k] + Order(t)[k + 1..]
  {
    DeleteInv(hash, t, t.order[k]);
    WithoutCuts(t.order, t.order[k], k);
  }

  lemma MirrorsDrop(order: Chain<Session>, live: seq<Conn>, sessions: seq<Session>, k: nat)
    requires Mirrors(order, live, sessions) && k < |live|
    ensures Mirrors(order[..k] + order[k + 1..], Drop(live, k), sessions)
  {
    var rest, left := order[..k] + order[k + 1..], Drop(live, k);
    assert forall i :: 0 <= i < |left| ==> left[i] == live[if i < k then i else i + 1];
    assert forall i :: 0 <= i < |rest| ==> rest[i] == order[if i < k then i else i + 1];
  }

  lemma HandlesDrop(s: State, k: nat)
    requires Accounted(s) && k < |s.live|
    ensures HandleOf(s, s.live[k].id) == Open
    ensures forall id: nat :: HandleOf(Remove(s, k), id) == if id == s.live[k].id then Closing else HandleOf(s, id)
  {
    var id := s.live[k].id;
    EveryoneCount(s.created, id);
    IdBagDrop(s.live, k);
    assert (IdBag(s.live) + s.closing + s.freed)[id] == Everyone(s.created)[id];
  }
}
