/**
 The life of the sessions of a TCP server, event by event: who is in the session
 map, whose handle is being closed, and whose memory has been freed.
 */
module ServerModel {
  import opened Serials

  const START_SERIAL_NUMBER: nat := 1000

  /** `max_connection` and `max_heart_beat` as the server was created with */
  datatype Config = Config(maxConnection: nat, maxHeartBeat: nat)

  /** A session in the map; `id` numbers the sessions in the order of their creation. */
  datatype Conn = Conn(id: nat, serial: nat, last: nat)

  /** What the read callback is told, besides data */
  datatype Report = ConnLimit | Timeout(serial: nat) | ReadError(code: int, serial: nat)

  datatype State = State(
    live: seq<Conn>,         // the session map, in insertion order
    closing: multiset<nat>,  // uv_close called, callback still to come
    freed: multiset<nat>,    // how often each session's memory was freed
    created: nat,
    nextSerial: nat,
    stopped: bool,
    reports: seq<Report>,
    clock: nat)              // uv_now

  datatype Event =
    | Connect(err: int, accept: int, peer: int, start: int)  // what the listen callback and libuv's calls answer
    | Data(id: nat)                                          // a successful read
    | ReadEnd(id: nat, code: int)                            // a read error or end of file
    | Tick                                                   // the heartbeat timer
    | Kick(serial: nat)                                      // qsf_net_server_close
    | Stop                                                   // qsf_net_server_stop
    | Closed(id: nat)                                        // the close callback
    | Time(now: nat)                                         // the loop's clock moves on

  // ----- the pieces of a step

  function IdBag(live: seq<Conn>): multiset<nat>
  {
    if live == [] then multiset{} else IdBag(live[..|live| - 1]) + multiset{live[|live| - 1].id}
  }

  function Used(live: seq<Conn>): set<nat>
  {
    set i | 0 <= i < |live| :: live[i].serial
  }

  /** The position of the session with this serial, or the length */
  function WithSerial(live: seq<Conn>, serial: nat): (k: nat)
    ensures k <= |live|
    ensures k < |live| ==> live[k].serial == serial
    ensures k == |live| ==> forall i :: 0 <= i < |live| ==> live[i].serial != serial
  {
    if live == [] then 0 else if live[0].serial == serial then 0 else 1 + WithSerial(live[1..], serial)
  }

  function WithId(live: seq<Conn>, id: nat): (k: nat)
    ensures k <= |live|
    ensures k < |live| ==> live[k].id == id
    ensures k == |live| ==> forall i :: 0 <= i < |live| ==> live[i].id != id
  {
    if live == [] then 0 else if live[0].id == id then 0 else 1 + WithId(live[1..], id)
  }

  function Drop(live: seq<Conn>, k: nat): seq<Conn>
    requires k < |live|
  {
    live[..k] + live[k + 1..]
  }

  predicate Overdue(cfg: Config, c: Conn, now: nat)
  {
    now - c.last > cfg.maxHeartBeat * 1000
  }

  function Kept(cfg: Config, live: seq<Conn>, now: nat): seq<Conn>
  {
    if live == [] then []
    else
      var n := |live| - 1;
      Kept(cfg, live[..n], now) + if Overdue(cfg, live[n], now) then [] else [live[n]]
  }

  function Expired(cfg: Config, live: seq<Conn>, now: nat): seq<Conn>
  {
    if live == [] then []
    else
      var n := |live| - 1;
      Expired(cfg, live[..n], now) + if Overdue(cfg, live[n], now) then [live[n]] else []
  }

  function Timeouts(gone: seq<Conn>): (r: seq<Report>)
    ensures |r| == |gone|
  {
    seq(|gone|, i requires 0 <= i < |gone| => Timeout(gone[i].serial))
  }

  /** Take session `k` out of the map and close its handle */
  function Remove(s: State, k: nat): State
    requires k < |s.live|
  {
    s.(live := Drop(s.live, k), closing := s.closing + multiset{s.live[k].id})
  }

  // ----- steps

  /** What libuv promises about its callbacks */
  predicate Enabled(s: State, ev: Event)
  {
    match ev
    case Data(id) => WithId(s.live, id) < |s.live|
    case ReadEnd(id, code) => WithId(s.live, id) < |s.live| && code < 0
    case Closed(id) => id in s.closing
    case Time(now) => now >= s.clock
    case Kick(serial) => serial < TWO_32
    case _ => true
  }

  function Accept(cfg: Config, s: State, ev: Event): State
    requires Inv(cfg, s) && ev.Connect?
  {
    if ev.err != 0 || s.stopped then s
    else if |s.live| >= cfg.maxConnection then s.(reports := s.reports + [ConnLimit])
    else
      var t := s.(created := s.created + 1);
      if ev.accept < 0 || ev.peer < 0 || ev.start < 0 then t.(closing := t.closing + multiset{s.created})
      else
        UsedSmall(s.live);
        var serial := Free(Used(s.live), s.nextSerial);
        t.(live := s.live + [Conn(s.created, serial, s.clock)], nextSerial := (serial + 1) % TWO_32)
  }

  function Step(cfg: Config, s: State, ev: Event): State
    requires ev.Connect? ==> Inv(cfg, s)
  {
    match ev
    case Connect(_, _, _, _) => Accept(cfg, s, ev)
    case Data(id) =>
      var k := WithId(s.live, id);
      if k == |s.live| then s else s.(live := s.live[k := s.live[k].(last := s.clock)])
    case ReadEnd(id, code) =>
      var k := WithId(s.live, id);
      if k == |s.live| then s else Remove(s.(reports := s.reports + [ReadError(code, s.live[k].serial)]), k)
    case Tick =>
      var gone := Expired(cfg, s.live, s.clock);
      s.(live := Kept(cfg, s.live, s.clock), closing := s.closing + IdBag(gone), reports := s.reports + Timeouts(gone))
    case Kick(serial) =>
      var k := WithSerial(s.live, serial);
      if k == |s.live| then s else Remove(s, k)
    case Stop => s.(stopped := true, live := [], closing := s.closing + IdBag(s.live))
    case Closed(id) => s.(closing := s.closing - multiset{id}, freed := s.freed + multiset{id})
    case Time(now) => s.(clock := now)
  }

  const INITIAL: State := State([], multiset{}, multiset{}, 0, START_SERIAL_NUMBER, false, [], 0)

  // ----- invariant

  /** The first `n` sessions, once each */
  function Everyone(n: nat): multiset<nat>
  {
    if n == 0 then multiset{} else Everyone(n - 1) + multiset{n - 1}
  }

  /** The serials in the map are distinct and none is zero. */
  predicate ProperSerials(live: seq<Conn>)
  {
    && (forall i :: 0 <= i < |live| ==> 0 < live[i].serial < TWO_32)
    && (forall i, j :: 0 <= i < j < |live| ==> live[i].serial != live[j].serial)
  }

  predicate NotAhead(live: seq<Conn>, clock: nat)
  {
    forall i :: 0 <= i < |live| ==> live[i].last <= clock
  }

  /** Every session created is in one place, once: in the map, closing, or freed. */
  predicate Accounted(s: State)
  {
    IdBag(s.live) + s.closing + s.freed == Everyone(s.created)
  }

  predicate Inv(cfg: Config, s: State)
  {
    && |s.live| <= cfg.maxConnection < TWO_32
    && ProperSerials(s.live)
    && NotAhead(s.live, s.clock)
    && Accounted(s)
    && s.nextSerial < TWO_32
    && (s.stopped ==> s.live == [])
  }

  lemma {:induction false} EveryoneCount(n: nat, id: nat)
    ensures Everyone(n)[id] == if id < n then 1 else 0
  {
    if n > 0 {
      EveryoneCount(n - 1, id);
    }
  }

  lemma {:induction false} UsedSmall(live: seq<Conn>)
    ensures |Used(live)| <= |live|
  {
    if live != [] {
      var n := |live| - 1;
      UsedSmall(live[..n]);
      assert Used(live) == Used(live[..n]) + {live[n].serial};
    }
  }

  lemma {:induction false} IdBagConcat(a: seq<Conn>, b: seq<Conn>)
    ensures IdBag(a + b) == IdBag(a) + IdBag(b)
  {
    if b == [] {
      assert a + b == a;
    } else {
      var n := |b| - 1;
      assert (a + b)[..|a + b| - 1] == a + b[..n];
      IdBagConcat(a, b[..n]);
    }
  }

  lemma CutAt(live: seq<Conn>, k: nat)
    requires k < |live|
    ensures live == live[..k] + ([live[k]] + live[k + 1..])
  {
  }

  lemma BagSwap(a: multiset<nat>, c: multiset<nat>, b: multiset<nat>)
    ensures a + (c + b) == a + b + c
  {
  }

  lemma IdBagDrop(live: seq<Conn>, k: nat)
    requires k < |live|
    ensures IdBag(live) == IdBag(Drop(live, k)) + multiset{live[k].id}
  {
    hide IdBag;
    var a, c, b := live[..k], live[k], live[k + 1..];
    CutAt(live, k);
    IdBagOne(c);
    IdBagConcat(a, [c] + b);
    IdBagConcat([c], b);
    IdBagConcat(a, b);
    BagSwap(IdBag(a), IdBag([c]), IdBag(b));
  }

  lemma IdBagOne(c: Conn)
    ensures IdBag([c]) == multiset{c.id}
  {
    assert [c][..0] == [];
  }

  lemma IdBagUpdate(live: seq<Conn>, k: nat, c: Conn)
    requires k < |live| && c.id == live[k].id
    ensures IdBag(live[k := c]) == IdBag(live)
  {
    IdBagDrop(live, k);
    IdBagDrop(live[k := c], k);
    assert Drop(live[k := c], k) == Drop(live, k);
  }

  lemma IdBagSnoc(a: seq<Conn>, c: Conn)
    ensures IdBag(a + [c]) == IdBag(a) + multiset{c.id}
  {
    assert (a + [c])[..|a + [c]| - 1] == a;
  }

  /** What leaves one place and enters another is still there. */
  lemma Moved(from: multiset<nat>, stay: multiset<nat>, go: multiset<nat>, c: multiset<nat>, f: multiset<nat>,
              all: multiset<nat>)
    requires from == stay + go && from + c + f == all
    ensures stay + (c + go) + f == all
  {
  }

  lemma OneMore(all: multiset<nat>, a: multiset<nat>, b: multiset<nat>, x: multiset<nat>)
    requires all == a + b
    ensures all + x == (a + x) + b && all + x == a + (b + x)
  {
  }

  lemma {:induction false} SweepSplits(cfg: Config, live: seq<Conn>, now: nat)
    ensures IdBag(live) == IdBag(Kept(cfg, live, now)) + IdBag(Expired(cfg, live, now))
    ensures |live| == |Kept(cfg, live, now)| + |Expired(cfg, live, now)|
  {
    if live != [] {
      var n := |live| - 1;
      SweepSplits(cfg, live[..n], now);
      var kept, gone, c := Kept(cfg, live[..n], now), Expired(cfg, live[..n], now), live[n];
      IdBagSnoc(kept, c);
      IdBagSnoc(gone, c);
      assert IdBag(live) == IdBag(live[..n]) + multiset{c.id};
      if Overdue(cfg, c, now) {
        assert Kept(cfg, live, now) == kept && Expired(cfg, live, now) == gone + [c];
      } else {
        assert Kept(cfg, live, now) == kept + [c] && Expired(cfg, live, now) == gone;
      }
      hide IdBag, Kept, Expired, Overdue;
      OneMore(IdBag(live[..n]), IdBag(kept), IdBag(gone), multiset{c.id});
    }
  }

  lemma {:induction false} KeptMembers(cfg: Config, live: seq<Conn>, now: nat)
    ensures forall i :: 0 <= i < |Kept(cfg, live, now)| ==>
      Kept(cfg, live, now)[i] in live && !Overdue(cfg, Kept(cfg, live, now)[i], now)
  {
    if live != [] {
      hide Overdue;
      var n := |live| - 1;
      KeptMembers(cfg, live[..n], now);
      assert forall c :: c in live[..n] ==> c in live;
    }
  }

  lemma {:induction false} KeptAll(cfg: Config, live: seq<Conn>, now: nat)
    ensures forall i :: 0 <= i < |live| && !Overdue(cfg, live[i], now) ==> live[i] in Kept(cfg, live, now)
  {
    if live != [] {
      hide Overdue;
      var n := |live| - 1;
      KeptAll(cfg, live[..n], now);
      assert forall i :: 0 <= i < n ==> live[..n][i] == live[i];
    }
  }

  lemma {:induction false} KeptSerials(cfg: Config, live: seq<Conn>, now: nat)
    requires ProperSerials(live)
    ensures ProperSerials(Kept(cfg, live, now))
  {
    if live != [] {
      hide Overdue;
      var n := |live| - 1;
      var kept, c := Kept(cfg, live[..n], now), live[n];
      KeptSerials(cfg, live[..n], now);
      KeptMembers(cfg, live[..n], now);
      forall i | 0 <= i < |kept|
        ensures kept[i].serial != c.serial
      {
        SerialBefore(live, kept[i]);
      }
    }
  }

  lemma SerialBefore(live: seq<Conn>, c: Conn)
    requires live != [] && ProperSerials(live) && c in live[..|live| - 1]
    ensures c.serial != live[|live| - 1].serial
  {
    var j :| 0 <= j < |live| - 1 && live[..|live| - 1][j] == c;
    assert live[j] == c;
  }

  /** Survivors of a sweep are the sessions of the map that are not overdue, and no others. */
  lemma KeptProper(cfg: Config, live: seq<Conn>, now: nat)
    requires ProperSerials(live)
    ensures ProperSerials(Kept(cfg, live, now))
    ensures forall i :: 0 <= i < |Kept(cfg, live, now)| ==>
      Kept(cfg, live, now)[i] in live && !Overdue(cfg, Kept(cfg, live, now)[i], now)
    ensures forall i :: 0 <= i < |live| && !Overdue(cfg, live[i], now) ==> live[i] in Kept(cfg, live, now)
  {
    hide *;
    KeptSerials(cfg, live, now);
    KeptMembers(cfg, live, now);
    KeptAll(cfg, live, now);
  }

  lemma StepInv(cfg: Config, s: State, ev: Event)
    requires Inv(cfg, s) && Enabled(s, ev)
    ensures Inv(cfg, Step(cfg, s, ev))
  {
    hide Inv;
    match ev
    case Connect(_, _, _, _) => AcceptInv(cfg, s, ev);
    case Data(id) => DataInv(cfg, s, WithId(s.live, id));
    case ReadEnd(id, code) =>
      var k := WithId(s.live, id);
      ReportInv(cfg, s, [ReadError(code, s.live[k].serial)]);
      RemoveInv(cfg, s.(reports := s.reports + [ReadError(code, s.live[k].serial)]), k);
    case Tick => TickInv(cfg, s);
    case Kick(serial) =>
      if WithSerial(s.live, serial) < |s.live| {
        RemoveInv(cfg, s, WithSerial(s.live, serial));
      }
    case Stop => StopInv(cfg, s);
    case Closed(id) => ClosedInv(cfg, s, id);
    case Time(now) => TimeInv(cfg, s, now);
  }

  lemma ReportInv(cfg: Config, s: State, more: seq<Report>)
    requires Inv(cfg, s)
    ensures Inv(cfg, s.(reports := s.reports + more))
  {
  }

  lemma StopInv(cfg: Config, s: State)
    requires Inv(cfg, s)
    ensures Inv(cfg, s.(stopped := true, live := [], closing := s.closing + IdBag(s.live)))
  {
    assert IdBag([]) == multiset{};
    hide IdBag, Everyone;
    Moved(IdBag(s.live), multiset{}, IdBag(s.live), s.closing, s.freed, Everyone(s.created));
  }

  lemma ClosedInv(cfg: Config, s: State, id: nat)
    requires Inv(cfg, s) && id in s.closing
    ensures Inv(cfg, s.(closing := s.closing - multiset{id}, freed := s.freed + multiset{id}))
  {
    hide IdBag, Everyone, ProperSerials, NotAhead;
    var stay := s.closing - multiset{id};
    assert s.closing == stay + multiset{id};
    Regroup(IdBag(s.live), stay, multiset{id}, s.freed);
  }

  lemma Regroup(a: multiset<nat>, b: multiset<nat>, x: multiset<nat>, f: multiset<nat>)
    ensures a + (b + x) + f == a + b + (f + x)
  {
  }

  lemma TimeInv(cfg: Config, s: State, now: nat)
    requires Inv(cfg, s) && now >= s.clock
    ensures Inv(cfg, s.(clock := now))
  {
  }

  lemma HeardProper(live: seq<Conn>, k: nat, now: nat)
    requires ProperSerials(live) && NotAhead(live, now) && k < |live|
    ensures ProperSerials(live[k := live[k].(last := now)]) && NotAhead(live[k := live[k].(last := now)], now)
  {
  }

  lemma DataInv(cfg: Config, s: State, k: nat)
    requires Inv(cfg, s) && k < |s.live|
    ensures Inv(cfg, s.(live := s.live[k := s.live[k].(last := s.clock)]))
  {
    hide IdBag, Everyone, ProperSerials, NotAhead;
    IdBagUpdate(s.live, k, s.live[k].(last := s.clock));
    HeardProper(s.live, k, s.clock);
  }

  lemma KeptNotAhead(cfg: Config, live: seq<Conn>, now: nat)
    requires ProperSerials(live) && NotAhead(live, now)
    ensures NotAhead(Kept(cfg, live, now), now)
  {
    KeptProper(cfg, live, now);
    hide ProperSerials;
  }

  lemma TickInv(cfg: Config, s: State)
    requires Inv(cfg, s)
    ensures Inv(cfg, Step(cfg, s, Tick))
  {
    hide IdBag, Kept, Expired, ProperSerials, NotAhead, Everyone, Timeouts, Overdue;
    var kept, gone := Kept(cfg, s.live, s.clock), Expired(cfg, s.live, s.clock);
    SweepSplits(cfg, s.live, s.clock);
    KeptIsProper(cfg, s.live, s.clock);
    KeptNotAhead(cfg, s.live, s.clock);
    Moved(IdBag(s.live), IdBag(kept), IdBag(gone), s.closing, s.freed, Everyone(s.created));
  }

  lemma KeptIsProper(cfg: Config, live: seq<Conn>, now: nat)
    requires ProperSerials(live)
    ensures ProperSerials(Kept(cfg, live, now))
  {
    KeptProper(cfg, live, now);
  }

  lemma DropProper(live: seq<Conn>, k: nat, clock: nat)
    requires k < |live| && ProperSerials(live) && NotAhead(live, clock)
    ensures ProperSerials(Drop(live, k)) && NotAhead(Drop(live, k), clock)
  {
  }

  lemma RemoveAccounted(s: State, k: nat)
    requires Accounted(s) && k < |s.live|
    ensures Accounted(Remove(s, k))
  {
    IdBagDrop(s.live, k);
    hide IdBag, Everyone;
    Moved(IdBag(s.live), IdBag(Drop(s.live, k)), multiset{s.live[k].id}, s.closing, s.freed, Everyone(s.created));
  }

  lemma RemoveInv(cfg: Config, s: State, k: nat)
    requires Inv(cfg, s) && k < |s.live|
    ensures Inv(cfg, Remove(s, k))
  {
    RemoveAccounted(s, k);
    DropProper(s.live, k, s.clock);
    hide Accounted, ProperSerials, NotAhead;
  }

  lemma NewArrival(a: multiset<nat>, c: multiset<nat>, f: multiset<nat>, x: multiset<nat>)
    ensures (a + x) + c + f == a + c + f + x
    ensures a + (c + x) + f == a + c + f + x
  {
  }

  lemma FreshProper(live: seq<Conn>, c: Conn)
    requires ProperSerials(live) && 0 < c.serial < TWO_32 && c.serial !in Used(live)
    ensures ProperSerials(live + [c])
  {
    forall i | 0 <= i < |live|
      ensures live[i].serial != c.serial
    {
      assert live[i].serial in Used(live);
    }
  }

  lemma AcceptInv(cfg: Config, s: State, ev: Event)
    requires Inv(cfg, s) && ev.Connect?
    ensures Inv(cfg, Accept(cfg, s, ev))
  {
    hide IdBag, ProperSerials, Free, FirstFree, Used, NotAhead, Accounted, Everyone;
    if ev.err != 0 || s.stopped || |s.live| >= cfg.maxConnection {
      ReportInv(cfg, s, [ConnLimit]);
    } else {
      UsedSmall(s.live);
      var c := Conn(s.created, Free(Used(s.live), s.nextSerial), s.clock);
      FreeIsUnused(s.live, s.nextSerial);
      FreshProper(s.live, c);
      ArrivalAccounted(s, c);
      if ev.accept >= 0 && ev.peer >= 0 && ev.start >= 0 {
        SameAccounts(s.(live := s.live + [c], created := s.created + 1), Accept(cfg, s, ev));
      } else {
        SameAccounts(s.(closing := s.closing + multiset{c.id}, created := s.created + 1), Accept(cfg, s, ev));
      }
      NotAheadSnoc(s.live, c, s.clock);
    }
  }

  lemma FreeIsUnused(live: seq<Conn>, start: nat)
    requires start < TWO_32 && |Used(live)| < NONZERO
    ensures Free(Used(live), start) !in Used(live)
  {
  }

  lemma SameAccounts(s: State, t: State)
    requires Accounted(s) && t.live == s.live && t.closing == s.closing && t.freed == s.freed && t.created == s.created
    ensures Accounted(t)
  {
  }

  lemma NotAheadSnoc(live: seq<Conn>, c: Conn, clock: nat)
    requires NotAhead(live, clock) && c.last <= clock
    ensures NotAhead(live + [c], clock)
  {
  }

  /** A new session is accounted for, whether it enters the map or is given up at once. */
  lemma ArrivalAccounted(s: State, c: Conn)
    requires Accounted(s) && c.id == s.created
    ensures Accounted(s.(live := s.live + [c], created := s.created + 1))
    ensures Accounted(s.(closing := s.closing + multiset{c.id}, created := s.created + 1))
  {
    IdBagSnoc(s.live, c);
    NewArrival(IdBag(s.live), s.closing, s.freed, multiset{c.id});
    hide IdBag;
  }

  // ----- the sweep and the stop, session by session

  /** The sweep, with `k` sessions visited */
  function SweepAt(cfg: Config, s: State, k: nat): State
    requires k <= |s.live|
  {
    var gone := Expired(cfg, s.live[..k], s.clock);
    s.(live := Kept(cfg, s.live[..k], s.clock) + s.live[k..],
       closing := s.closing + IdBag(gone), reports := s.reports + Timeouts(gone))
  }

  lemma Bounds(live: seq<Conn>)
    ensures live[..0] == [] && live[0..] == live && live[..|live|] == live && live[|live|..] == []
  {
  }

  lemma NoneSwept(cfg: Config, s: State)
    ensures Kept(cfg, [], s.clock) == [] && Expired(cfg, [], s.clock) == []
    ensures IdBag([]) == multiset{} && Timeouts([]) == []
    ensures s.closing + multiset{} == s.closing
  {
  }

  lemma SweepEnds(cfg: Config, s: State)
    ensures SweepAt(cfg, s, 0) == s
    ensures SweepAt(cfg, s, |s.live|) == Step(cfg, s, Tick)
  {
    hide Kept, Expired, IdBag, Timeouts;
    Bounds(s.live);
    NoneSwept(cfg, s);
    assert [] + s.live == s.live && s.reports + [] == s.reports;
    assert Kept(cfg, s.live, s.clock) + [] == Kept(cfg, s.live, s.clock);
  }

  lemma KeptSnoc(cfg: Config, live: seq<Conn>, k: nat, now: nat)
    requires k < |live|
    ensures Kept(cfg, live[..k + 1], now)
         == if Overdue(cfg, live[k], now) then Kept(cfg, live[..k], now) else Kept(cfg, live[..k], now) + [live[k]]
    ensures Expired(cfg, live[..k + 1], now)
         == if Overdue(cfg, live[k], now)
            then Expired(cfg, live[..k], now) + [live[k]] else Expired(cfg, live[..k], now)
  {
    assert live[..k + 1][..k] == live[..k];
    assert Kept(cfg, live[..k], now) + [] == Kept(cfg, live[..k], now);
    assert Expired(cfg, live[..k], now) + [] == Expired(cfg, live[..k], now);
  }

  lemma TimeoutsSnoc(reports: seq<Report>, gone: seq<Conn>, c: Conn)
    ensures reports + Timeouts(gone + [c]) == reports + Timeouts(gone) + [Timeout(c.serial)]
  {
    assert Timeouts(gone + [c]) == Timeouts(gone) + [Timeout(c.serial)];
  }

  lemma DropMiddle(a: seq<Conn>, c: Conn, b: seq<Conn>)
    ensures (a + ([c] + b))[|a|] == c && Drop(a + ([c] + b), |a|) == a + b
    ensures a + [c] + b == a + ([c] + b)
  {
  }

  lemma BagAssoc(a: multiset<nat>, b: multiset<nat>, c: multiset<nat>)
    ensures a + (b + c) == a + b + c
  {
  }

  lemma SweepNext(cfg: Config, s: State, k: nat)
    requires k < |s.live|
    ensures var t, p := SweepAt(cfg, s, k), |Kept(cfg, s.live[..k], s.clock)|;
      && p < |t.live| && t.live[p] == s.live[k]
      && |Kept(cfg, s.live[..k + 1], s.clock)| == (if Overdue(cfg, s.live[k], s.clock) then p else p + 1)
      && SweepAt(cfg, s, k + 1) == if Overdue(cfg, s.live[k], s.clock)
           then Remove(t.(reports := t.reports + [Timeout(s.live[k].serial)]), p) else t
  {
    hide Kept, Expired, Timeouts, IdBag, Drop;
    var kept, gone, c := Kept(cfg, s.live[..k], s.clock), Expired(cfg, s.live[..k], s.clock), s.live[k];
    KeptSnoc(cfg, s.live, k, s.clock);
    assert s.live[k..] == [c] + s.live[k + 1..];
    DropMiddle(kept, c, s.live[k + 1..]);
    if Overdue(cfg, c, s.clock) {
      IdBagSnoc(gone, c);
      TimeoutsSnoc(s.reports, gone, c);
      BagAssoc(s.closing, IdBag(gone), multiset{c.id});
    }
  }

  /** The stop, with `k` sessions taken out of the map */
  function StopAt(s: State, k: nat): State
    requires k <= |s.live|
  {
    s.(stopped := true, live := s.live[k..], closing := s.closing + IdBag(s.live[..k]))
  }

  lemma StopEnds(cfg: Config, s: State)
    ensures StopAt(s, 0) == s.(stopped := true)
    ensures StopAt(s, |s.live|) == Step(cfg, s, Stop)
  {
    assert s.live[..0] == [] && s.live[0..] == s.live && s.live[..|s.live|] == s.live && s.live[|s.live|..] == [];
  }

  lemma StopNext(s: State, k: nat)
    requires k < |s.live|
    ensures StopAt(s, k + 1) == Remove(StopAt(s, k), 0)
  {
    assert s.live[..k + 1] == s.live[..k] + [s.live[k]];
    IdBagSnoc(s.live[..k], s.live[k]);
    assert Drop(s.live[k..], 0) == s.live[k + 1..];
  }

  lemma InvAccounted(cfg: Config, s: State)
    requires Inv(cfg, s)
    ensures Accounted(s)
  {
    hide Accounted;
  }

  /** The tick and the stop, from the first session to the last */
  lemma TickSound(cfg: Config, s: State)
    requires Inv(cfg, s)
    ensures Accounted(s) && SweepAt(cfg, s, 0) == s
    ensures SweepAt(cfg, s, |s.live|) == Step(cfg, s, Tick) && Inv(cfg, Step(cfg, s, Tick))
  {
    hide *;
    InvAccounted(cfg, s);
    SweepEnds(cfg, s);
    TickInv(cfg, s);
  }

  lemma StopSound(cfg: Config, s: State)
    requires Inv(cfg, s)
    ensures Accounted(s) && StopAt(s, 0) == s.(stopped := true)
    ensures StopAt(s, |s.live|) == Step(cfg, s, Stop) && Inv(cfg, Step(cfg, s, Stop))
  {
    hide *;
    InvAccounted(cfg, s);
    StopEnds(cfg, s);
    StopKeeps(cfg, s);
  }

  lemma StopKeeps(cfg: Config, s: State)
    requires Inv(cfg, s)
    ensures Inv(cfg, Step(cfg, s, Stop))
  {
    hide Inv, IdBag;
    StopInv(cfg, s);
  }

  // ----- whole runs

  predicate Possible(cfg: Config, s: State, evs: seq<Event>)
    requires Inv(cfg, s)
    decreases |evs|
  {
    evs != [] ==> Enabled(s, evs[0]) && (StepInv(cfg, s, evs[0]); Possible(cfg, Step(cfg, s, evs[0]), evs[1..]))
  }

  /** The server after a run of events. That the invariant holds is the safety of every run. */
  function Run(cfg: Config, s: State, evs: seq<Event>): (t: State)
    requires Inv(cfg, s) && Possible(cfg, s, evs)
    ensures Inv(cfg, t)
    decreases |evs|
  {
    if evs == [] then s
    else
      StepInv(cfg, s, evs[0]);
      Run(cfg, Step(cfg, s, evs[0]), evs[1..])
  }

  /** The server as qsf_create_net_server leaves it */
  function Created(cfg: Config): (s: State)
    requires cfg.maxConnection < TWO_32
    ensures s == INITIAL && Inv(cfg, s)
  {
    INITIAL
  }

  /**
   At any time in any run a session is in one place only: in the map, waiting for
   its close callback, or freed; and nothing is freed twice.
   */
  lemma OnePlaceOnly(cfg: Config, evs: seq<Event>, id: nat)
    requires cfg.maxConnection < TWO_32 && Possible(cfg, Created(cfg), evs)
    ensures var t := Run(cfg, Created(cfg), evs);
      && IdBag(t.live)[id] + t.closing[id] + t.freed[id] == (if id < t.created then 1 else 0)
      && |t.live| <= cfg.maxConnection
  {
    var t := Run(cfg, Created(cfg), evs);
    EveryoneCount(t.created, id);
    assert (IdBag(t.live) + t.closing + t.freed)[id] == Everyone(t.created)[id];
  }

  lemma StoppedStep(cfg: Config, s: State, ev: Event)
    requires Inv(cfg, s) && s.stopped
    ensures Step(cfg, s, ev).stopped
  {
  }

  /** Once stopped, the server stays stopped and its map stays empty, whatever happens. */
  lemma {:induction false} StoppedForever(cfg: Config, s: State, evs: seq<Event>)
    requires Inv(cfg, s) && Possible(cfg, s, evs) && s.stopped
    ensures Run(cfg, s, evs).stopped && Run(cfg, s, evs).live == []
    decreases |evs|
  {
    hide Step;
    if evs != [] {
      StoppedStep(cfg, s, evs[0]);
      StepInv(cfg, s, evs[0]);
      StoppedForever(cfg, Step(cfg, s, evs[0]), evs[1..]);
    }
  }

  /** In a run with a stop in it, the server ends up stopped, with an empty map. */
  lemma {:induction false} StoppedOnce(cfg: Config, s: State, evs: seq<Event>)
    requires Inv(cfg, s) && Possible(cfg, s, evs) && Stop in evs
    ensures Run(cfg, s, evs).stopped && Run(cfg, s, evs).live == []
    decreases |evs|
  {
    hide Inv;
    StepInv(cfg, s, evs[0]);
    if evs[0] == Stop {
      StoppedForever(cfg, Step(cfg, s, Stop), evs[1..]);
    } else {
      StoppedOnce(cfg, Step(cfg, s, evs[0]), evs[1..]);
    }
  }

  // ----- the sweep

  /** Whoever is in the map under `id` was last heard of at `last`. */
  predicate SilentIn(live: seq<Conn>, id: nat, last: nat)
  {
    forall i :: 0 <= i < |live| && live[i].id == id ==> live[i].last == last
  }

  /** ... and `id` is not given again. */
  predicate SilentSince(s: State, id: nat, last: nat)
  {
    id < s.created && SilentIn(s.live, id, last)
  }

  lemma SilentDrop(live: seq<Conn>, k: nat, id: nat, last: nat)
    requires k < |live| && SilentIn(live, id, last)
    ensures SilentIn(Drop(live, k), id, last)
  {
    var rest := Drop(live, k);
    assert forall i :: 0 <= i < |rest| ==> rest[i] == live[if i < k then i else i + 1];
  }

  lemma SilentKept(cfg: Config, live: seq<Conn>, now: nat, id: nat, last: nat)
    requires ProperSerials(live) && SilentIn(live, id, last)
    ensures SilentIn(Kept(cfg, live, now), id, last)
  {
    KeptProper(cfg, live, now);
    var kept := Kept(cfg, live, now);
    forall i | 0 <= i < |kept| && kept[i].id == id
      ensures kept[i].last == last
    {
      var j :| 0 <= j < |live| && live[j] == kept[i];
    }
  }

  lemma SilentStep(cfg: Config, s: State, ev: Event, id: nat, last: nat)
    requires Inv(cfg, s) && Enabled(s, ev) && SilentSince(s, id, last) && ev != Data(id)
    ensures SilentSince(Step(cfg, s, ev), id, last)
  {
    match ev
    case Connect(_, _, _, _) => hide Free, Used, ProperSerials;
    case Data(other) => assert s.live[WithId(s.live, other)].id == other;
    case ReadEnd(other, code) => SilentDrop(s.live, WithId(s.live, other), id, last);
    case Tick => SilentKept(cfg, s.live, s.clock, id, last);
    case Kick(serial) =>
      if WithSerial(s.live, serial) < |s.live| {
        SilentDrop(s.live, WithSerial(s.live, serial), id, last);
      }
    case Stop =>
    case Closed(_) =>
    case Time(_) =>
  }

  /**
   A session from which nothing more is read is gone after the first tick past its
   deadline, whatever else happened before that tick.
   */
  lemma {:induction false} SilentSessionGone(cfg: Config, s: State, evs: seq<Event>, id: nat, last: nat)
    requires Inv(cfg, s) && SilentSince(s, id, last)
    requires evs != [] && evs[|evs| - 1] == Tick && Data(id) !in evs && Possible(cfg, s, evs)
    requires Run(cfg, s, evs).clock - last > cfg.maxHeartBeat * 1000
    ensures forall i :: 0 <= i < |Run(cfg, s, evs).live| ==> Run(cfg, s, evs).live[i].id != id
    decreases |evs|
  {
    hide Inv, Step, SilentSince;
    StepInv(cfg, s, evs[0]);
    assert evs[0] != Data(id);
    if |evs| == 1 {
      SilentTick(cfg, s, id, last);
      assert evs[1..] == [];
      assert Run(cfg, Step(cfg, s, Tick), evs[1..]) == Step(cfg, s, Tick);
    } else {
      SilentStep(cfg, s, evs[0], id, last);
      SilentSessionGone(cfg, Step(cfg, s, evs[0]), evs[1..], id, last);
    }
  }

  lemma SilentTick(cfg: Config, s: State, id: nat, last: nat)
    requires Inv(cfg, s) && SilentSince(s, id, last)
    ensures Step(cfg, s, Tick).clock == s.clock
    ensures s.clock - last > cfg.maxHeartBeat * 1000 ==>
      forall i :: 0 <= i < |Step(cfg, s, Tick).live| ==> Step(cfg, s, Tick).live[i].id != id
  {
    var kept := Kept(cfg, s.live, s.clock);
    KeptProper(cfg, s.live, s.clock);
    SilentKept(cfg, s.live, s.clock, id, last);
    assert forall i :: 0 <= i < |kept| ==> !Overdue(cfg, kept[i], s.clock);
  }

  /** How often a report is made */
  function Times(reports: seq<Report>, r: Report): nat
  {
    multiset(reports)[r]
  }

  lemma OneMoreTimeout(gone: seq<Conn>, c: Conn, r: Report)
    ensures Times(Timeouts(gone + [c]), r) == Times(Timeouts(gone), r) + if r == Timeout(c.serial) then 1 else 0
    ensures Times(Timeouts([]), r) == 0
  {
    assert Timeouts(gone + [c]) == Timeouts(gone) + [Timeout(c.serial)];
  }

  /** A sweep reports exactly the overdue sessions, each once. */
  lemma {:induction false} SweepReportsOnce(cfg: Config, live: seq<Conn>, now: nat, c: Conn)
    requires ProperSerials(live)
    ensures c in live ==>
      Times(Timeouts(Expired(cfg, live, now)), Timeout(c.serial)) == if Overdue(cfg, c, now) then 1 else 0
    ensures (forall i :: 0 <= i < |live| ==> live[i].serial != c.serial) ==>
      Times(Timeouts(Expired(cfg, live, now)), Timeout(c.serial)) == 0
  {
    if live != [] {
      var n := |live| - 1;
      SweepReportsOnce(cfg, live[..n], now, c);
      OneMoreTimeout(Expired(cfg, live[..n], now), live[n], Timeout(c.serial));
      KeptSnoc(cfg, live, n, now);
      assert live[..n + 1] == live;
      hide Expired, Timeouts, Times, Overdue, Kept;
      if c in live {
        var i :| 0 <= i < |live| && live[i] == c;
        assert i < n ==> live[..n][i] == c;
      }
    }
  }

  /** Survivors of a sweep keep the order they had in the map. */
  lemma {:induction false} SweepKeepsOrder(cfg: Config, live: seq<Conn>, now: nat, p: nat, q: nat)
    requires p < q < |Kept(cfg, live, now)|
    ensures exists i, j ::
      0 <= i < j < |live| && live[i] == Kept(cfg, live, now)[p] && live[j] == Kept(cfg, live, now)[q]
  {
    var n := |live| - 1;
    var kept := Kept(cfg, live[..n], now);
    if q < |kept| {
      SweepKeepsOrder(cfg, live[..n], now, p, q);
      var i, j :| 0 <= i < j < n && live[..n][i] == kept[p] && live[..n][j] == kept[q];
      assert live[i] == kept[p] && live[j] == kept[q];
    } else {
      KeptWithin(cfg, live[..n], now, p);
      var i :| 0 <= i < n && live[..n][i] == kept[p];
      assert live[i] == kept[p] && live[n] == Kept(cfg, live, now)[q];
    }
  }

  lemma {:induction false} KeptWithin(cfg: Config, live: seq<Conn>, now: nat, p: nat)
    requires p < |Kept(cfg, live, now)|
    ensures exists i :: 0 <= i < |live| && live[i] == Kept(cfg, live, now)[p]
  {
    var n := |live| - 1;
    var kept := Kept(cfg, live[..n], now);
    if p < |kept| {
      KeptWithin(cfg, live[..n], now, p);
      var i :| 0 <= i < n && live[..n][i] == kept[p];
      assert live[i] == kept[p];
    } else {
      assert live[n] == Kept(cfg, live, now)[p];
    }
  }

  // ----- who is not swept away

  /** The session `id` is in the map under `serial`, and was heard of at `since` or later. */
  predicate Heard(live: seq<Conn>, id: nat, serial: nat, since: nat)
  {
    exists i :: 0 <= i < |live| && live[i].id == id && live[i].serial == serial && live[i].last >= since
  }

  lemma HeardDrop(live: seq<Conn>, k: nat, id: nat, serial: nat, since: nat)
    requires Heard(live, id, serial, since) && k < |live| && (live[k].id != id || live[k].serial != serial)
    ensures Heard(Drop(live, k), id, serial, since)
  {
    var i :| 0 <= i < |live| && live[i].id == id && live[i].serial == serial && live[i].last >= since;
    assert Drop(live, k)[if i < k then i else i - 1] == live[i];
  }

  lemma HeardKept(cfg: Config, live: seq<Conn>, now: nat, id: nat, serial: nat, since: nat)
    requires Heard(live, id, serial, since) && ProperSerials(live) && now - since <= cfg.maxHeartBeat * 1000
    ensures Heard(Kept(cfg, live, now), id, serial, since)
  {
    KeptProper(cfg, live, now);
    var i :| 0 <= i < |live| && live[i].id == id && live[i].serial == serial && live[i].last >= since;
    var j :| 0 <= j < |Kept(cfg, live, now)| && Kept(cfg, live, now)[j] == live[i];
  }

  /** The events that end a session other than by the sweep */
  predicate Ends(ev: Event, id: nat, serial: nat)
  {
    ev == Stop || ev == Kick(serial) || (ev.ReadEnd? && ev.id == id)
  }

  lemma HeardStep(cfg: Config, s: State, ev: Event, id: nat, serial: nat, since: nat)
    requires Inv(cfg, s) && Enabled(s, ev) && Heard(s.live, id, serial, since) && !Ends(ev, id, serial)
    requires s.clock - since <= cfg.maxHeartBeat * 1000 && since <= s.clock
    ensures Heard(Step(cfg, s, ev).live, id, serial, since)
  {
    var i :| 0 <= i < |s.live| && s.live[i].id == id && s.live[i].serial == serial && s.live[i].last >= since;
    match ev
    case Connect(_, _, _, _) =>
      hide Free, Used, ProperSerials;
      assert Accept(cfg, s, ev).live[i] == s.live[i];
    case Data(other) => assert Step(cfg, s, ev).live[i].id == id && Step(cfg, s, ev).live[i].last >= since;
    case ReadEnd(other, code) => HeardDrop(s.live, WithId(s.live, other), id, serial, since);
    case Tick => HeardKept(cfg, s.live, s.clock, id, serial, since);
    case Kick(other) =>
      if WithSerial(s.live, other) < |s.live| {
        HeardDrop(s.live, WithSerial(s.live, other), id, serial, since);
      }
    case Closed(_) =>
    case Time(_) =>
  }

  lemma ClockStep(cfg: Config, s: State, ev: Event)
    requires Inv(cfg, s) && Enabled(s, ev)
    ensures Step(cfg, s, ev).clock >= s.clock
  {
  }

  lemma {:induction false} ClockRun(cfg: Config, s: State, evs: seq<Event>)
    requires Inv(cfg, s) && Possible(cfg, s, evs)
    ensures Run(cfg, s, evs).clock >= s.clock
    decreases |evs|
  {
    hide Inv, Step;
    if evs != [] {
      ClockStep(cfg, s, evs[0]);
      StepInv(cfg, s, evs[0]);
      ClockRun(cfg, Step(cfg, s, evs[0]), evs[1..]);
    }
  }

  /**
   A session heard of within its deadline is still in the map, under its serial,
   unless it failed, was kicked, or the server was stopped: no sweep takes it.
   */
  lemma {:induction false} HeardSessionStays(cfg: Config, s: State, evs: seq<Event>, id: nat, serial: nat, since: nat)
    requires Inv(cfg, s) && Possible(cfg, s, evs) && Heard(s.live, id, serial, since) && since <= s.clock
    requires forall i :: 0 <= i < |evs| ==> !Ends(evs[i], id, serial)
    requires Run(cfg, s, evs).clock - since <= cfg.maxHeartBeat * 1000
    ensures Heard(Run(cfg, s, evs).live, id, serial, since)
    decreases |evs|
  {
    hide Inv, Step, Heard, Ends, Enabled;
    if evs != [] {
      var next := Step(cfg, s, evs[0]);
      ClockRun(cfg, s, evs);
      ClockStep(cfg, s, evs[0]);
      StepInv(cfg, s, evs[0]);
      assert !Ends(evs[0], id, serial);
      HeardStep(cfg, s, evs[0], id, serial, since);
      HeardSessionStays(cfg, next, evs[1..], id, serial, since);
    }
  }

  /** A session is heard of at the time of each of its reads. */
  lemma DataIsHeard(cfg: Config, s: State, id: nat)
    requires Inv(cfg, s) && Enabled(s, Data(id))
    ensures Heard(Step(cfg, s, Data(id)).live, id, s.live[WithId(s.live, id)].serial, s.clock)
    ensures Step(cfg, s, Data(id)).clock == s.clock
  {
    var k := WithId(s.live, id);
    assert Step(cfg, s, Data(id)).live[k] == s.live[k].(last := s.clock);
  }

  /**
   A session keeps its place for `max_heart_beat` seconds after its last read,
   unless it fails, is kicked, or the server is stopped: whatever else happens in
   that time, it is in the map under its serial.
   */
  lemma ReadSessionStays(cfg: Config, s: State, evs: seq<Event>, id: nat)
    requires Inv(cfg, s) && Possible(cfg, s, [Data(id)] + evs)
    requires forall i :: 0 <= i < |evs| ==> !Ends(evs[i], id, s.live[WithId(s.live, id)].serial)
    requires Run(cfg, s, [Data(id)] + evs).clock - s.clock <= cfg.maxHeartBeat * 1000
    ensures Heard(Run(cfg, s, [Data(id)] + evs).live, id, s.live[WithId(s.live, id)].serial, s.clock)
  {
    hide Inv, Step, Heard, Ends;
    var all := [Data(id)] + evs;
    assert all[0] == Data(id) && all[1..] == evs;
    StepInv(cfg, s, Data(id));
    DataIsHeard(cfg, s, id);
    HeardSessionStays(cfg, Step(cfg, s, Data(id)), evs, id, s.live[WithId(s.live, id)].serial, s.clock);
  }
}
