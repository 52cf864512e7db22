/** A visit: everything one run does with an fd between two moments at which the fd is closed,
    interleaved with the events of all other peers, against the run in which those events are left
    out. */
module Visits {
  import opened Basics
  import opened Json
  import opened Parse
  import opened PeerState
  import opened SessionTable
  import opened SocketRead
  import opened Machine
  import opened Routing
  import opened Runs

  /** The event is about the peer on `fd`: its own, or the accept that hands out the number. */
  predicate Concerns(env: Env, ev: Event, fd: int) {
    if ev.fd == env.listener then ev.accepted.NewSocket? && ev.accepted.newfd == fd else ev.fd == fd
  }

  function Without(env: Env, events: seq<Event>, fd: int): (left: seq<Event>)
    ensures forall ev :: ev in left <==> ev in events && !Concerns(env, ev, fd)
  {
    if events == [] then []
    else if Concerns(env, events[0], fd) then Without(env, events[1..], fd)
    else [events[0]] + Without(env, events[1..], fd)
  }

  /** `cs` is the run `bs` with the visits on `fd` left out; the uninitialised sessions may differ. */
  ghost predicate LeavesOut(env: Env, bs: seq<Batch>, cs: seq<Batch>, fd: int) {
    |bs| == |cs| && forall i :: 0 <= i < |bs| ==> cs[i].events == Without(env, bs[i].events, fd)
  }

  // ---------- the state of every descriptor ----------

  /** As Runs.SameView, except that only the first may have `fd` open. */
  ghost predicate SameElsewhere(v: World, w: World, fd: int) {
    && |v.peers| == |w.peers| == MAXFDS && v.halt == w.halt
    && fd !in w.open && v.open.Keys - {fd} == w.open.Keys
    && forall g :: g in w.open ==>
         && g in v.open && v.open[g].interest == w.open[g].interest
         && (0 <= g < MAXFDS ==> Observable(v.peers[g]) == Observable(w.peers[g]))
  }

  lemma VisitorStep(env: Env, v: World, w: World, fd: int, ev: Event, s: SessionData)
    requires SameElsewhere(v, w, fd) && Concerns(env, ev, fd) && Step(env, v, ev, s).halt.None?
    ensures SameElsewhere(Step(env, v, ev, s), w, fd)
  {
    var d := Delivered(env, v, ev);
    if d.Some? {
      HandleKeepsView(v, fd, d.value, s);
    }
  }

  lemma OtherInterest(v: World, w: World, fd: int, g: int, status: Status)
    requires SameElsewhere(v, w, fd) && g in w.open
    ensures SameElsewhere(SetInterest(v, g, status), SetInterest(w, g, status), fd)
  {
  }

  lemma OtherCloses(v: World, w: World, fd: int, g: int)
    requires SameElsewhere(v, w, fd) && g in w.open
    ensures SameElsewhere(PurgeAndClose(v, g), PurgeAndClose(w, g), fd)
    ensures SameElsewhere(Close(v, g), Close(w, g), fd)
  {
  }

  lemma OtherRecv(env: Env, v: World, w: World, fd: int, ev: Event, s: SessionData, t: SessionData)
    requires SameElsewhere(v, w, fd) && ev.fd != fd && v.halt.None?
    ensures SameElsewhere(StepRecv(env, v, ev.fd, ev.recvs, s), StepRecv(env, w, ev.fd, ev.recvs, t), fd)
  {
    if 0 <= ev.fd < MAXFDS && ev.fd in v.open {
      match Read(ev.recvs)
      case PeerClosed => OtherCloses(v, w, fd, ev.fd);
      case Pending => OtherInterest(v, w, fd, ev.fd, READ);
      case Broken =>
      case Message(data) =>
        match env.tokener(CBytes(data))
        case NotAnObject =>
        case Members(es) =>
          HandleKeepsView(v, ev.fd, es, s);
          HandleKeepsView(w, ev.fd, es, t);
          OtherInterest(Handle(v, ev.fd, es, s), Handle(w, ev.fd, es, t), fd, ev.fd, READ);
    }
  }

  lemma OtherSend(v: World, w: World, fd: int, g: int, answer: SendAnswer)
    requires SameElsewhere(v, w, fd) && g != fd && v.halt.None?
    ensures SameElsewhere(StepSend(v, g, answer), StepSend(w, g, answer), fd)
  {
    if 0 <= g < MAXFDS && g in v.open {
      var p, q := ReadySend(v.peers[g], answer), ReadySend(w.peers[g], answer);
      if p.SendResult? {
        OtherInterest(v.(peers := v.peers[g := p.peer]), w.(peers := w.peers[g := q.peer]), fd, g, p.status);
      }
    }
  }

  lemma OtherStep(env: Env, v: World, w: World, fd: int, ev: Event, s: SessionData, t: SessionData)
    requires SameElsewhere(v, w, fd) && !Concerns(env, ev, fd) && v.halt.None?
    ensures SameElsewhere(Step(env, v, ev, s), Step(env, w, ev, t), fd)
  {
    if ev.fd != env.listener {
      OtherRecv(env, v, w, fd, ev, s, t);
      OtherSend(v, w, fd, ev.fd, ev.sent);
    }
  }

  lemma {:induction false} VisitInBatch(env: Env, v: World, w: World, fd: int, events: seq<Event>,
                                        s: SessionData, t: SessionData)
    requires SameElsewhere(v, w, fd) && RunEvents(env, v, events, s).halt.None?
    ensures SameElsewhere(RunEvents(env, v, events, s), RunEvents(env, w, Without(env, events, fd), t), fd)
    decreases |events|
  {
    if events != [] {
      var ev := events[0];
      var v', s' := Step(env, v, ev, s), StepSession(env, v, ev, s);
      StillAlive(env, v', events[1..], s');
      if Concerns(env, ev, fd) {
        VisitorStep(env, v, w, fd, ev, s);
        VisitInBatch(env, v', w, fd, events[1..], s', t);
      } else {
        OtherStep(env, v, w, fd, ev, s, t);
        VisitInBatch(env, v', Step(env, w, ev, t), fd, events[1..], s', StepSession(env, w, ev, t));
        assert Without(env, events, fd)[1..] == Without(env, events[1..], fd);
      }
    }
  }

  lemma StillAlive(env: Env, w: World, events: seq<Event>, s: SessionData)
    requires |w.peers| == MAXFDS && RunEvents(env, w, events, s).halt.None?
    ensures w.halt.None?
  {
    if w.halt.Some? {
      HaltedStays(env, w, events, s);
    }
  }

  lemma AliveAfterBatch(env: Env, w: World, batches: seq<Batch>)
    requires |w.peers| == MAXFDS && Run(env, w, batches).halt.None?
    ensures w.halt.None?
  {
    if w.halt.Some? {
      HaltedRunStays(env, w, batches);
    }
  }

  lemma {:induction false} VisitInRun(env: Env, v: World, w: World, fd: int, bs: seq<Batch>, cs: seq<Batch>)
    requires SameElsewhere(v, w, fd) && LeavesOut(env, bs, cs, fd) && Run(env, v, bs).halt.None?
    ensures SameElsewhere(Run(env, v, bs), Run(env, w, cs), fd)
    decreases |bs|
  {
    if bs != [] {
      var v', w' := RunEvents(env, v, bs[0].events, bs[0].junk), RunEvents(env, w, cs[0].events, cs[0].junk);
      AliveAfterBatch(env, v', bs[1..]);
      VisitInBatch(env, v, w, fd, bs[0].events, bs[0].junk, cs[0].junk);
      VisitInRun(env, v', w', fd, bs[1..], cs[1..]);
    }
  }

  /** Peers come to `fd`, are served between the events of everybody else, and are gone again.  Status,
      state, sendptr and sendbuf_end of every open descriptor are then, and stay in every later run,
      what they would be had those peers never come; so the next peer on the number cannot tell. */
  lemma VisitLeavesNoTrace(env: Env, w: World, fd: int, bs: seq<Batch>, cs: seq<Batch>, later: seq<Batch>)
    requires |w.peers| == MAXFDS && fd !in w.open && LeavesOut(env, bs, cs, fd)
    requires Run(env, w, bs).halt.None? && fd !in Run(env, w, bs).open
    ensures PossibleRun(env, w, bs) ==> PossibleRun(env, w, cs)
    ensures SameView(Run(env, w, bs), Run(env, w, cs))
    ensures SameView(Run(env, Run(env, w, bs), later), Run(env, Run(env, w, cs), later))
  {
    AliveAfterBatch(env, w, bs);
    if PossibleRun(env, w, bs) {
      LeavingOutIsPossible(env, w, w, fd, bs, cs);
    }
    VisitInRun(env, w, w, fd, bs, cs);
    NoTraceOfEarlierPeers(env, Run(env, w, bs), Run(env, w, cs), later, later);
  }

  // ---------- the rows: which trace a visit does leave ----------

  predicate Registers(e: Record, mac: string) {
    e.Registered? && e.mac == mac
  }

  /** The last registration of `mac` among the records from number `n` on. */
  function LastRegistration(h: seq<Record>, n: nat, mac: string): (r: Option<nat>)
    ensures r.None? ==> forall i :: n <= i < |h| ==> !Registers(h[i], mac)
    ensures r.Some? ==> n <= r.value < |h| && Registers(h[r.value], mac)
    ensures r.Some? ==> forall j :: r.value < j < |h| ==> !Registers(h[j], mac)
  {
    if |h| <= n then None
    else if Registers(h[|h| - 1], mac) then Some(|h| - 1)
    else LastRegistration(h[..|h| - 1], n, mac)
  }

  /** That registration was made on `fd`. */
  predicate LastBy(h: seq<Record>, n: nat, mac: string, fd: int) {
    var r := LastRegistration(h, n, mac);
    r.Some? && h[r.value].fd == fd
  }

  lemma LastByAppend(h: seq<Record>, e: Record, n: nat, mac: string, fd: int)
    requires n <= |h|
    ensures LastBy(h + [e], n, mac, fd) <==> if Registers(e, mac) then e.fd == fd else LastBy(h, n, mac, fd)
  {
    assert (h + [e])[..|h|] == h;
  }

  predicate SameRow(t: Rows, u: Rows, mac: string) {
    (mac in t <==> mac in u) && (mac in t ==> t[mac] == u[mac])
  }

  /** How the rows `t` after the records `h` compare with the rows `u` of the run without the visits
      that began at record `n`. */
  ghost predicate Agree(h: seq<Record>, t: Rows, u: Rows, isOpen: bool, fd: int, n: nat) {
    n <= |h| && forall mac ::
      && (mac in u ==> u[mac].fd != fd)
      && (mac in t && t[mac].fd == fd ==> isOpen)
      && (if LastBy(h, n, mac, fd) then mac in t ==> t[mac].fd == fd else SameRow(t, u, mac))
  }

  lemma AgreeAppend(h: seq<Record>, e: Record, t: Rows, u: Rows, isOpen: bool, fd: int, n: nat)
    requires Agree(h, t, u, isOpen, fd, n) && !e.Registered?
    ensures Agree(h + [e], t, u, isOpen, fd, n)
  {
    forall mac ensures LastBy(h + [e], n, mac, fd) == LastBy(h, n, mac, fd) {
      LastByAppend(h, e, n, mac, fd);
    }
  }

  lemma AgreeRegister(h: seq<Record>, e: Record, t: Rows, u: Rows, isOpen: bool, fd: int, n: nat)
    requires Agree(h, t, u, isOpen, fd, n) && e.Registered? && (e.fd == fd ==> isOpen)
    ensures var row := Row(e.fd, e.agentType);
            Agree(h + [e], t[e.mac := row], if e.fd == fd then u else u[e.mac := row], isOpen, fd, n)
  {
    forall mac
      ensures LastBy(h + [e], n, mac, fd) <==> if mac == e.mac then e.fd == fd else LastBy(h, n, mac, fd)
    {
      LastByAppend(h, e, n, mac, fd);
    }
  }

  lemma AgreePurge(h: seq<Record>, t: Rows, u: Rows, isOpen: bool, fd: int, n: nat, g: int)
    requires Agree(h, t, u, isOpen, fd, n)
    ensures Agree(h, Purge(t, g), if g == fd then u else Purge(u, g), isOpen && g != fd, fd, n)
  {
  }

  /** The worlds after some events, the second without the visits on `fd`. */
  ghost predicate RowsAgree(v: World, w: World, fd: int, n: nat) {
    Agree(v.history, v.table, w.table, fd in v.open, fd, n)
  }

  /** What an event delivers from an agent names the agent's mac. */
  ghost predicate NamesItsMac(env: Env, ev: Event) {
    forall data, es :: Read(ev.recvs) == Message(data) && env.tokener(CBytes(data)) == Members(es) ==>
                         (AgentTypeOf(es) == ReqLinuxClaymore ==> LastString(es, "miner_mac").Some?)
  }

  lemma VisitorHandle(v: World, w: World, fd: int, n: nat, es: seq<Entry>, s: SessionData)
    requires RowsAgree(v, w, fd, n) && fd in v.open
    ensures RowsAgree(Handle(v, fd, es, s), w, fd, n)
  {
    var s', h, isOpen := SessionAfter(es, fd, s), v.history, fd in v.open;
    match AgentTypeOf(es)
    case ReqUx =>
      var e := Registered(fd, v.open[fd].generation, UX_SESSION, ReqUx);
      var v' := Register(v, fd, UX_SESSION, ReqUx);
      AgreeRegister(h, e, v.table, w.table, isOpen, fd, n);
      ForwardAgrees(v', w, fd, fd, n, s'.minerMac, CommandOf(s'));
    case ReqLinuxClaymore =>
      var e := Registered(fd, v.open[fd].generation, s'.minerMac, ReqLinuxClaymore);
      AgreeRegister(h, e, v.table, w.table, isOpen, fd, n);
    case _ =>
  }

  lemma ForwardAgrees(v: World, w: World, fd: int, g: int, n: nat, mac: string, command: Command)
    requires RowsAgree(v, w, fd, n) && g in v.open
    ensures mac in v.table ==> RowsAgree(Forward(v, g, mac, command), w, fd, n)
  {
    if mac in v.table {
      var v' := Forward(v, g, mac, command);
      AgreeAppend(v.history, v'.history[|v.history|], v.table, w.table, fd in v.open, fd, n);
    }
  }

  lemma OtherHandle(v: World, w: World, fd: int, n: nat, g: int, es: seq<Entry>, s: SessionData, t: SessionData)
    requires RowsAgree(v, w, fd, n) && g != fd && g in v.open && g in w.open
    requires AgentTypeOf(es) == ReqLinuxClaymore ==> LastString(es, "miner_mac").Some?
    ensures RowsAgree(Handle(v, g, es, s), Handle(w, g, es, t), fd, n)
  {
    var s', h, isOpen := SessionAfter(es, g, s), v.history, fd in v.open;
    match AgentTypeOf(es)
    case ReqUx =>
      var e := Registered(g, v.open[g].generation, UX_SESSION, ReqUx);
      var v', w' := Register(v, g, UX_SESSION, ReqUx), Register(w, g, UX_SESSION, ReqUx);
      AgreeRegister(h, e, v.table, w.table, isOpen, fd, n);
      assert Handle(w, g, es, t).table == w'.table;
      ForwardAgrees(v', w', fd, g, n, s'.minerMac, CommandOf(s'));
    case ReqLinuxClaymore =>
      var e := Registered(g, v.open[g].generation, s'.minerMac, ReqLinuxClaymore);
      AgreeRegister(h, e, v.table, w.table, isOpen, fd, n);
    case _ =>
  }

  lemma PurgeAgrees(v: World, w: World, fd: int, n: nat, g: int)
    requires RowsAgree(v, w, fd, n) && g in v.open && (g != fd ==> g in w.open)
    ensures RowsAgree(PurgeAndClose(v, g), if g == fd then w else PurgeAndClose(w, g), fd, n)
  {
    var purged, closed := Purged(g, v.open[g].generation), Closed(g, v.open[g].generation);
    var t, u := Purge(v.table, g), if g == fd then w.table else Purge(w.table, g);
    var isOpen := fd in v.open && g != fd;
    AgreePurge(v.history, v.table, w.table, fd in v.open, fd, n, g);
    AgreeAppend(v.history, purged, t, u, isOpen, fd, n);
    AgreeAppend(v.history + [purged], closed, t, u, isOpen, fd, n);
  }

  lemma VisitorRows(env: Env, v: World, w: World, fd: int, n: nat, ev: Event, s: SessionData)
    requires |v.peers| == MAXFDS && RowsAgree(v, w, fd, n) && Concerns(env, ev, fd)
    ensures RowsAgree(Step(env, v, ev, s), w, fd, n)
  {
    if v.halt.Some? || ev.err {
    } else if ev.fd == env.listener {
      AgreeAppend(v.history, Connected(fd, v.nextGeneration), v.table, w.table, fd in v.open, fd, n);
    } else if ev.readable && 0 <= fd < MAXFDS && fd in v.open {
      var d := Delivered(env, v, ev);
      if d.Some? {
        VisitorHandle(v, w, fd, n, d.value, s);
      }
      PurgeAgrees(v, w, fd, n, fd);
    }
  }

  lemma OtherRowsRecv(env: Env, v: World, w: World, fd: int, n: nat, ev: Event, s: SessionData, t: SessionData)
    requires RowsAgree(v, w, fd, n) && ev.fd != fd && ev.fd in v.open && ev.fd in w.open && NamesItsMac(env, ev)
    ensures RowsAgree(StepRecv(env, v, ev.fd, ev.recvs, s), StepRecv(env, w, ev.fd, ev.recvs, t), fd, n)
  {
    match Read(ev.recvs)
    case PeerClosed => PurgeAgrees(v, w, fd, n, ev.fd);
    case Pending =>
    case Broken =>
    case Message(data) =>
      match env.tokener(CBytes(data))
      case NotAnObject =>
      case Members(es) =>
        OtherHandle(v, w, fd, n, ev.fd, es, s, t);
        HandleKeepsView(v, ev.fd, es, s);
  }

  lemma OtherRows(env: Env, v: World, w: World, fd: int, n: nat, ev: Event, s: SessionData, t: SessionData)
    requires SameElsewhere(v, w, fd) && RowsAgree(v, w, fd, n)
    requires !Concerns(env, ev, fd) && NamesItsMac(env, ev)
    ensures RowsAgree(Step(env, v, ev, s), Step(env, w, ev, t), fd, n)
  {
    if v.halt.Some? || ev.err {
    } else if ev.fd == env.listener {
      if ev.accepted.NewSocket? {
        AgreeAppend(v.history, Connected(ev.accepted.newfd, v.nextGeneration), v.table, w.table, fd in v.open, fd, n);
      }
    } else if ev.readable && ev.fd in v.open {
      OtherRowsRecv(env, v, w, fd, n, ev, s, t);
    }
  }

  /** Everybody but the visitors names a mac in every agent message. */
  ghost predicate OthersNameTheirMacs(env: Env, events: seq<Event>, fd: int) {
    forall i :: 0 <= i < |events| && !Concerns(env, events[i], fd) ==> NamesItsMac(env, events[i])
  }

  lemma {:induction false} RowsInBatch(env: Env, v: World, w: World, fd: int, n: nat, events: seq<Event>,
                                       s: SessionData, t: SessionData)
    requires SameElsewhere(v, w, fd) && RowsAgree(v, w, fd, n)
    requires RunEvents(env, v, events, s).halt.None? && OthersNameTheirMacs(env, events, fd)
    ensures RowsAgree(RunEvents(env, v, events, s), RunEvents(env, w, Without(env, events, fd), t), fd, n)
    decreases |events|
  {
    if events != [] {
      var ev := events[0];
      var v', s' := Step(env, v, ev, s), StepSession(env, v, ev, s);
      StillAlive(env, v', events[1..], s');
      StillAlive(env, v, events, s);
      if Concerns(env, ev, fd) {
        VisitorStep(env, v, w, fd, ev, s);
        VisitorRows(env, v, w, fd, n, ev, s);
        RowsInBatch(env, v', w, fd, n, events[1..], s', t);
      } else {
        OtherStep(env, v, w, fd, ev, s, t);
        OtherRows(env, v, w, fd, n, ev, s, t);
        RowsInBatch(env, v', Step(env, w, ev, t), fd, n, events[1..], s', StepSession(env, w, ev, t));
        assert Without(env, events, fd)[1..] == Without(env, events[1..], fd);
      }
    }
  }

  lemma {:induction false} RowsInRun(env: Env, v: World, w: World, fd: int, n: nat, bs: seq<Batch>, cs: seq<Batch>)
    requires SameElsewhere(v, w, fd) && RowsAgree(v, w, fd, n)
    requires LeavesOut(env, bs, cs, fd) && Run(env, v, bs).halt.None?
    requires forall i :: 0 <= i < |bs| ==> OthersNameTheirMacs(env, bs[i].events, fd)
    ensures RowsAgree(Run(env, v, bs), Run(env, w, cs), fd, n)
    decreases |bs|
  {
    if bs != [] {
      var v', w' := RunEvents(env, v, bs[0].events, bs[0].junk), RunEvents(env, w, cs[0].events, cs[0].junk);
      AliveAfterBatch(env, v', bs[1..]);
      VisitInBatch(env, v, w, fd, bs[0].events, bs[0].junk, cs[0].junk);
      RowsInBatch(env, v, w, fd, n, bs[0].events, bs[0].junk, cs[0].junk);
      RowsInRun(env, v', w', fd, n, bs[1..], cs[1..]);
    }
  }

  /** Routing is another matter.  When the visitors are gone, a mac last registered by one of them has
      no row, whoever held it before; every other mac has the row it would have had.  So the visits
      leave a trace in the row of a mac exactly when they took it last and someone would still hold it. */
  lemma VisitTraceIff(env: Env, w: World, fd: int, bs: seq<Batch>, cs: seq<Batch>, mac: string)
    requires Inv(env, w) && fd !in w.open && LeavesOut(env, bs, cs, fd)
    requires Run(env, w, bs).halt.None? && fd !in Run(env, w, bs).open
    requires forall i :: 0 <= i < |bs| ==> OthersNameTheirMacs(env, bs[i].events, fd)
    ensures var v, u := Run(env, w, bs), Run(env, w, cs);
            && (LastBy(v.history, |w.history|, mac, fd) ==> mac !in v.table)
            && (SameRow(v.table, u.table, mac) <==> !LastBy(v.history, |w.history|, mac, fd) || mac !in u.table)
  {
    AliveAfterBatch(env, w, bs);
    forall m
      ensures m in w.table ==> w.table[m].fd != fd
    {
      assert RowMatches(w, m);
    }
    RowsInRun(env, w, w, fd, |w.history|, bs, cs);
  }

  /** The event makes the server read an agent's message that names `mac`. */
  predicate BringsMac(env: Env, ev: Event, es: seq<Entry>, mac: string) {
    && !ev.err && ev.readable && Read(ev.recvs).Message?
    && env.tokener(CBytes(Read(ev.recvs).data)) == Members(es)
    && AgentTypeOf(es) == ReqLinuxClaymore && LastString(es, "miner_mac") == Some(mac)
  }

  lemma MacArrives(env: Env, w: World, ev: Event, es: seq<Entry>, mac: string, s: SessionData)
    requires Inv(env, w) && w.halt.None? && ev.fd in w.open && ev.fd != env.listener && BringsMac(env, ev, es, mac)
    ensures var w' := Step(env, w, ev, s);
            && w'.halt.None? && ev.fd in w'.open && |w'.peers| == MAXFDS
            && w'.table == w.table[CString(mac) := Row(ev.fd, ReqLinuxClaymore)]
  {
    AgentRegisters(env, w, ev.fd, es, s, mac);
  }

  lemma VisitorLeaves(env: Env, w: World, ev: Event, s: SessionData)
    requires |w.peers| == MAXFDS && w.halt.None? && ev.fd in w.open && ev.fd != env.listener && 0 <= ev.fd < MAXFDS
    requires !ev.err && ev.readable && Read(ev.recvs) == PeerClosed
    ensures Step(env, w, ev, s) == PurgeAndClose(w, ev.fd)
  {
  }

  lemma ThreeEvents(env: Env, w: World, a: Event, b: Event, c: Event, s: SessionData)
    requires |w.peers| == MAXFDS
    ensures var w1, s1 := Step(env, w, a, s), StepSession(env, w, a, s);
            var w2, s2 := Step(env, w1, b, s1), StepSession(env, w1, b, s1);
            RunEvents(env, w, [a, b, c], s) == Step(env, w2, c, s2)
  {
    var w1, s1 := Step(env, w, a, s), StepSession(env, w, a, s);
    assert [a, b, c][1..] == [b, c] && [b, c][1..] == [c] && [c][1..] == [];
    var w2, s2 := Step(env, w1, b, s1), StepSession(env, w1, b, s1);
    assert RunEvents(env, w2, [c], s2) == Step(env, w2, c, s2);
    assert RunEvents(env, w1, [b, c], s1) == RunEvents(env, w2, [c], s2);
    assert RunEvents(env, w, [a, b, c], s) == RunEvents(env, w1, [b, c], s1);
  }

  /** Such a trace, in any state: a visitor that names a mac held by another peer and leaves again takes
      the row away. */
  lemma HeldMacIsLost(env: Env, w: World, arrive: Event, message: Event, leave: Event, es: seq<Entry>, mac: string,
                      junk: SessionData)
    requires Inv(env, w) && w.halt.None? && CString(mac) in w.table
    requires !arrive.err && arrive.fd == env.listener && arrive.accepted.NewSocket?
    requires arrive.accepted.newfd < MAXFDS && arrive.accepted.newfd !in w.open
    requires message.fd == leave.fd == arrive.accepted.newfd != env.listener
    requires BringsMac(env, message, es, mac)
    requires !leave.err && leave.readable && Read(leave.recvs) == PeerClosed
    ensures var v := RunEvents(env, w, [arrive, message, leave], junk);
            v.halt.None? && v.open.Keys == w.open.Keys && CString(mac) !in v.table
  {
    var fd := arrive.accepted.newfd;
    var w1 := Connect(w, fd);
    ThreeEvents(env, w, arrive, message, leave, junk);
    ConnectKeepsInv(env, w, fd);
    assert Step(env, w, arrive, junk) == w1;
    var s1 := StepSession(env, w, arrive, junk);
    MacArrives(env, w1, message, es, mac, s1);
    HandleKeepsView(w1, fd, es, s1);
    VisitorLeaves(env, Step(env, w1, message, s1), leave, StepSession(env, w1, message, s1));
  }

  // ---------- the run without the visits is one the kernel can produce ----------

  lemma {:induction false} WithoutIsDistinct(env: Env, events: seq<Event>, fd: int)
    requires NamesDistinct(events)
    ensures NamesDistinct(Without(env, events, fd))
  {
    if events != [] {
      var left := Without(env, events[1..], fd);
      WithoutIsDistinct(env, events[1..], fd);
      forall i | 0 <= i < |left|
        ensures left[i].fd != events[0].fd
      {
        assert left[i] in events[1..];
      }
    }
  }

  lemma {:induction false} AcceptsStayFresh(env: Env, v: World, w: World, fd: int, events: seq<Event>,
                                            s: SessionData, t: SessionData)
    requires SameElsewhere(v, w, fd) && RunEvents(env, v, events, s).halt.None? && AcceptsAreFresh(env, v, events, s)
    ensures AcceptsAreFresh(env, w, Without(env, events, fd), t)
    decreases |events|
  {
    if events != [] {
      var ev := events[0];
      var v', s' := Step(env, v, ev, s), StepSession(env, v, ev, s);
      StillAlive(env, v', events[1..], s');
      StillAlive(env, v, events, s);
      if Concerns(env, ev, fd) {
        VisitorStep(env, v, w, fd, ev, s);
        AcceptsStayFresh(env, v', w, fd, events[1..], s', t);
      } else {
        OtherStep(env, v, w, fd, ev, s, t);
        AcceptsStayFresh(env, v', Step(env, w, ev, t), fd, events[1..], s', StepSession(env, w, ev, t));
        assert Without(env, events, fd)[1..] == Without(env, events[1..], fd);
      }
    }
  }

  /** Leaving the visits out of a possible run gives a possible run. */
  lemma {:induction false} LeavingOutIsPossible(env: Env, v: World, w: World, fd: int, bs: seq<Batch>, cs: seq<Batch>)
    requires SameElsewhere(v, w, fd) && LeavesOut(env, bs, cs, fd)
    requires Run(env, v, bs).halt.None? && PossibleRun(env, v, bs)
    ensures PossibleRun(env, w, cs)
    decreases |bs|
  {
    if bs != [] {
      var b, c := bs[0], cs[0];
      var v', w' := RunEvents(env, v, b.events, b.junk), RunEvents(env, w, c.events, c.junk);
      AliveAfterBatch(env, v, bs);
      AliveAfterBatch(env, v', bs[1..]);
      WithoutIsDistinct(env, b.events, fd);
      AcceptsStayFresh(env, v, w, fd, b.events, b.junk, c.junk);
      forall i | 0 <= i < |c.events|
        ensures c.events[i].fd == env.listener || c.events[i].fd in w.open
      {
        assert c.events[i] in b.events;
      }
      VisitInBatch(env, v, w, fd, b.events, b.junk, c.junk);
      LeavingOutIsPossible(env, v', w', fd, bs[1..], cs[1..]);
    }
  }
}
