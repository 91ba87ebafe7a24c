/**
 What each event does to the server, apart from keeping it safe: who is in the map
 afterwards, whose handle is being closed, and what has been reported.
 */
module ServerLaws {
  import opened Serials
  import opened ServerModel

  /** The sessions that are not under `serial`, in their order */
  function Except(live: seq<Conn>, serial: nat): seq<Conn>
  {
    if live == [] then []
    else (if live[0].serial == serial then [] else [live[0]]) + Except(live[1..], serial)
  }

  lemma {:induction false} ExceptAll(live: seq<Conn>, serial: nat)
    requires forall i :: 0 <= i < |live| ==> live[i].serial != serial
    ensures Except(live, serial) == live
  {
    if live != [] {
      ExceptAll(live[1..], serial);
    }
  }

  lemma {:induction false} ExceptNone(live: seq<Conn>, serial: nat)
    ensures forall i :: 0 <= i < |Except(live, serial)| ==> Except(live, serial)[i].serial != serial
  {
    if live != [] {
      ExceptNone(live[1..], serial);
    }
  }

  lemma {:induction false} ExceptDrops(live: seq<Conn>, k: nat)
    requires k < |live| && forall i :: 0 <= i < |live| && i != k ==> live[i].serial != live[k].serial
    ensures Except(live, live[k].serial) == Drop(live, k)
  {
    if k == 0 {
      ExceptAll(live[1..], live[0].serial);
    } else {
      ExceptDrops(live[1..], k - 1);
      assert Drop(live, k) == [live[0]] + Drop(live[1..], k - 1);
    }
  }

  lemma {:induction false} ExceptKeeps(live: seq<Conn>, serial: nat, i: nat)
    requires i < |live| && live[i].serial != serial
    ensures live[i] in Except(live, serial)
  {
    if i > 0 {
      ExceptKeeps(live[1..], serial, i - 1);
    }
  }

  lemma OthersDiffer(live: seq<Conn>, k: nat)
    requires ProperSerials(live) && k < |live|
    ensures forall i :: 0 <= i < |live| && i != k ==> live[i].serial != live[k].serial
  {
  }

  /** A session in the map is nowhere else. */
  lemma LiveOnly(cfg: Config, s: State, i: nat)
    requires Inv(cfg, s) && i < |s.live|
    ensures s.live[i].id < s.created && s.closing[s.live[i].id] == 0 && s.freed[s.live[i].id] == 0
    ensures IdBag(s.live)[s.live[i].id] == 1
  {
    var id := s.live[i].id;
    IdBagDrop(s.live, i);
    EveryoneCount(s.created, id);
    assert (IdBag(s.live) + s.closing + s.freed)[id] == Everyone(s.created)[id];
  }

  lemma LiveOnce(cfg: Config, s: State, i: nat, j: nat)
    requires Inv(cfg, s) && i < |s.live| && j < |s.live| && i != j
    ensures s.live[i].id != s.live[j].id
  {
    LiveOnly(cfg, s, i);
    if s.live[i].id == s.live[j].id {
      Twice(s.live, i, j);
    }
  }

  lemma Twice(live: seq<Conn>, j: nat, k: nat)
    requires j < |live| && k < |live| && j != k && live[j].id == live[k].id
    ensures IdBag(live)[live[k].id] >= 2
  {
    IdBagDrop(live, k);
    var rest := Drop(live, k);
    var i := if j < k then j else j - 1;
    assert rest[i] == live[j];
    IdBagDrop(rest, i);
  }

  /** Nothing changed but who is in the map and who is closing. */
  predicate OnlyMoved(s: State, t: State)
  {
    t == s.(live := t.live, closing := t.closing)
  }

  /**
   A kick takes the session out of the map that has the serial, and no other; its
   handle is being closed. Without such a session nothing happens.
   */
  lemma KickLaw(cfg: Config, s: State, serial: nat)
    requires Inv(cfg, s)
    ensures var t := Step(cfg, s, Kick(serial));
      && t.live == Except(s.live, serial) && OnlyMoved(s, t)
      && (forall i :: 0 <= i < |t.live| ==> t.live[i].serial != serial)
      && (forall i :: 0 <= i < |s.live| && s.live[i].serial == serial ==>
            t.closing == s.closing + multiset{s.live[i].id} && t.closing[s.live[i].id] == 1)
      && ((forall i :: 0 <= i < |s.live| ==> s.live[i].serial != serial) ==> t == s)
  {
    var k := WithSerial(s.live, serial);
    if k < |s.live| {
      OthersDiffer(s.live, k);
      ExceptDrops(s.live, k);
      LiveOnly(cfg, s, k);
    } else {
      ExceptAll(s.live, serial);
    }
    ExceptNone(s.live, serial);
  }

  /** A read error is reported with its code and serial, and ends that session and no other. */
  lemma ReadEndLaw(cfg: Config, s: State, i: nat, code: int)
    requires Inv(cfg, s) && i < |s.live|
    ensures var c := s.live[i]; var t := Step(cfg, s, ReadEnd(c.id, code));
      && t.reports == s.reports + [ReadError(code, c.serial)]
      && t.live == Except(s.live, c.serial)
      && (forall j :: 0 <= j < |t.live| ==> t.live[j].serial != c.serial)
      && t.closing == s.closing + multiset{c.id} && t.closing[c.id] == 1
      && OnlyMoved(s, t.(reports := s.reports))
  {
    var k := WithId(s.live, s.live[i].id);
    if k != i {
      LiveOnce(cfg, s, k, i);
    }
    OthersDiffer(s.live, i);
    ExceptDrops(s.live, i);
    ExceptNone(s.live, s.live[i].serial);
    LiveOnly(cfg, s, i);
  }

  /** Data renews the time of its session and changes nothing else. */
  lemma DataLaw(cfg: Config, s: State, i: nat)
    requires Inv(cfg, s) && i < |s.live|
    ensures var t := Step(cfg, s, Data(s.live[i].id));
      t == s.(live := t.live) && t.live == s.live[i := Conn(s.live[i].id, s.live[i].serial, s.clock)]
  {
    var k := WithId(s.live, s.live[i].id);
    if k != i {
      LiveOnce(cfg, s, k, i);
    }
  }

  lemma {:induction false} NoneThere(live: seq<Conn>, id: nat)
    requires forall i :: 0 <= i < |live| ==> live[i].id != id
    ensures IdBag(live)[id] == 0
  {
    if live != [] {
      NoneThere(live[..|live| - 1], id);
    }
  }

  /** Whoever is in the map before and not after an event that frees nothing is being closed. */
  lemma GoneIsClosing(cfg: Config, s: State, t: State, i: nat)
    requires Inv(cfg, s) && Inv(cfg, t) && i < |s.live| && t.created == s.created && t.freed == s.freed
    requires forall j :: 0 <= j < |t.live| ==> t.live[j].id != s.live[i].id
    ensures t.closing[s.live[i].id] == 1
  {
    var id := s.live[i].id;
    LiveOnly(cfg, s, i);
    NoneThere(t.live, id);
    EveryoneCount(t.created, id);
    assert (IdBag(t.live) + t.closing + t.freed)[id] == Everyone(t.created)[id];
  }

  /** A tick closes exactly the sessions silent for more than `max_heart_beat` seconds. */
  lemma TickLaw(cfg: Config, s: State, i: nat)
    requires Inv(cfg, s) && i < |s.live|
    ensures var c := s.live[i]; var t := Step(cfg, s, Tick);
      && (s.clock > c.last + 1000 * cfg.maxHeartBeat ==> c !in t.live && t.closing[c.id] == 1)
      && (s.clock <= c.last + 1000 * cfg.maxHeartBeat ==> c in t.live && t.closing[c.id] == 0)
      && t.created == s.created && t.freed == s.freed && t.nextSerial == s.nextSerial
      && t.clock == s.clock && t.stopped == s.stopped
  {
    var c, t := s.live[i], Step(cfg, s, Tick);
    StepInv(cfg, s, Tick);
    KeptProper(cfg, s.live, s.clock);
    if Overdue(cfg, c, s.clock) {
      forall j | 0 <= j < |t.live|
        ensures t.live[j].id != c.id
      {
        var k :| 0 <= k < |s.live| && s.live[k] == t.live[j];
        if k != i {
          LiveOnce(cfg, s, k, i);
        }
      }
      GoneIsClosing(cfg, s, t, i);
    } else {
      var j :| 0 <= j < |t.live| && t.live[j] == c;
      LiveOnly(cfg, t, j);
    }
  }

  /** A stop empties the map and closes every session that was in it. */
  lemma StopLaw(cfg: Config, s: State)
    requires Inv(cfg, s)
    ensures var t := Step(cfg, s, Stop);
      && t.stopped && t.live == [] && OnlyMoved(s.(stopped := true), t)
      && forall i :: 0 <= i < |s.live| ==> t.closing[s.live[i].id] == 1
  {
    var t := Step(cfg, s, Stop);
    StepInv(cfg, s, Stop);
    forall i | 0 <= i < |s.live|
      ensures t.closing[s.live[i].id] == 1
    {
      GoneIsClosing(cfg, s, t, i);
    }
  }

  /** A close callback frees its session, once, and touches nothing else. */
  lemma ClosedLaw(cfg: Config, s: State, id: nat)
    requires Inv(cfg, s) && id in s.closing
    ensures var t := Step(cfg, s, Closed(id));
      && t == s.(closing := t.closing, freed := t.freed)
      && s.freed[id] == 0 && t.freed == s.freed + multiset{id}
      && s.closing[id] == 1 && t.closing + multiset{id} == s.closing
  {
    EveryoneCount(s.created, id);
    assert (IdBag(s.live) + s.closing + s.freed)[id] == Everyone(s.created)[id];
  }

  /** Is a connection accepted that libuv reports without an error? */
  predicate Welcome(cfg: Config, s: State)
  {
    !s.stopped && |s.live| < cfg.maxConnection
  }

  /**
   A connection that is accepted becomes the last session of the map, under the first
   free serial from `next_serial` on; one that libuv then fails on is closed at once;
   one too many is reported; and after a stop nothing happens.
   */
  lemma AcceptLaw(cfg: Config, s: State, accept: int, peer: int, start: int)
    requires Inv(cfg, s)
    ensures var t := Step(cfg, s, Connect(0, accept, peer, start));
      && (Welcome(cfg, s) && accept >= 0 && peer >= 0 && start >= 0 ==>
            && |t.live| == |s.live| + 1 && t.live[..|s.live|] == s.live
            && (var c := t.live[|s.live|];
                && c.id == s.created && c.last == s.clock
                && 0 < c.serial < TWO_32 && FirstFree(Used(s.live), s.nextSerial, c.serial)
                && t.nextSerial == (if c.serial == TWO_32 - 1 then 0 else c.serial + 1)
                && t == s.(live := t.live, created := s.created + 1, nextSerial := t.nextSerial)))
      && (Welcome(cfg, s) && (accept < 0 || peer < 0 || start < 0) ==>
            t == s.(created := s.created + 1, closing := s.closing + multiset{s.created}))
      && (!s.stopped && |s.live| >= cfg.maxConnection ==> t == s.(reports := s.reports + [ConnLimit]))
      && (s.stopped ==> t == s)
  {
    UsedSmall(s.live);
    hide Used, FirstFree, ProperSerials, NotAhead, Accounted;
  }

  lemma ListenErrorLaw(cfg: Config, s: State, err: int, accept: int, peer: int, start: int)
    requires Inv(cfg, s) && err != 0
    ensures Step(cfg, s, Connect(err, accept, peer, start)) == s
  {
  }
}
