/** The whole-run theorems about the server. */
module Runs {
  import opened Basics
  import opened Json
  import opened Parse
  import opened PeerState
  import opened SessionTable
  import opened SocketRead
  import opened Machine
  import opened Routing

  // ---------- routing ----------

  /** The row of `mac` is exactly its live registration in the history, made by the connection that
      is now open on that fd. */
  ghost predicate TableIsHistory(w: World, mac: string) {
    && (mac in w.table <==> exists i :: LiveAt(w.history, mac, i))
    && forall i :: LiveAt(w.history, mac, i) ==>
         var reg := w.history[i];
         && w.table[mac] == Row(reg.fd, reg.agentType) && 0 <= reg.fd < MAXFDS
         && reg.fd in w.open && w.open[reg.fd].generation == reg.generation
  }

  /** Each forwarded command was delivered to the connection that held the live registration of its
      mac at that moment, not to a later peer on the same fd number; every close was preceded by the
      purge of that fd; and neither an fd assertion nor a handler called on a closed descriptor ever
      ended the process. */
  ghost predicate SafeSoFar(w: World) {
    var h := w.history;
    && (forall i :: 0 <= i < |h| && h[i].Forwarded? ==>
          exists j :: LiveAt(h[..i], h[i].mac, j) && h[i].target == h[j].fd && h[i].recipient == Some(h[j].generation))
    && (forall i :: 0 <= i < |h| && h[i].Closed? ==> i > 0 && h[i - 1] == Purged(h[i].fd, h[i].generation))
    && w.halt != Some(AssertFailed) && w.halt != Some(StaleFd)
  }

  lemma InvMeansTableIsHistory(env: Env, w: World, mac: string)
    requires Inv(env, w)
    ensures TableIsHistory(w, mac)
  {
    assert RowMatches(w, mac);
    forall i | LiveAt(w.history, mac, i)
      ensures Scan(w.history, mac) == Some(i)
    {
      ScanFindsTheLive(w.history, mac, i);
    }
  }

  lemma InvMeansSafe(env: Env, w: World)
    requires Inv(env, w)
    ensures SafeSoFar(w)
  {
    var h := w.history;
    forall i | 0 <= i < |h| && h[i].Forwarded?
      ensures exists j ::
                LiveAt(h[..i], h[i].mac, j) && h[i].target == h[j].fd && h[i].recipient == Some(h[j].generation)
    {
      assert RoutedAt(h, i);
      assert LiveAt(h[..i], h[i].mac, Scan(h[..i], h[i].mac).value);
    }
  }

  /** Over every run, the incrementally kept table answers exactly what a scan of the whole history
      answers: the last registration of the mac if its connection has not closed since, never an
      older one. */
  lemma TableRefinesHistory(env: Env, peers: seq<Peer>, batches: seq<Batch>, mac: string)
    requires |peers| == MAXFDS && PossibleRun(env, Initial(peers), batches)
    ensures TableIsHistory(Run(env, Initial(peers), batches), mac)
  {
    InitialInv(env, peers);
    RunKeepsInv(env, Initial(peers), batches);
    InvMeansTableIsHistory(env, Run(env, Initial(peers), batches), mac);
  }

  /** Every run is safe. */
  lemma RunsAreSafe(env: Env, peers: seq<Peer>, batches: seq<Batch>)
    requires |peers| == MAXFDS && PossibleRun(env, Initial(peers), batches)
    ensures SafeSoFar(Run(env, Initial(peers), batches))
  {
    InitialInv(env, peers);
    RunKeepsInv(env, Initial(peers), batches);
    InvMeansSafe(env, Run(env, Initial(peers), batches));
  }

  /** The texts of a UX message. */
  datatype Fields = Fields(cmd: string, mac: string, path: string, number: string, install: string)

  /** A UX message whose fields are `f`; with unique keys (json-c keeps them so) LastString is plain
      membership, see Parse.LastStringIsMembership. */
  predicate Carries(es: seq<Entry>, f: Fields) {
    && AgentTypeOf(es) == ReqUx
    && LastString(es, "commend_type") == Some(f.cmd) && LastString(es, "miner_mac") == Some(f.mac)
    && LastString(es, "path") == Some(f.path) && LastString(es, "sequence") == Some(f.number)
    && LastString(es, "path_install") == Some(f.install)
  }

  function CommandFrom(f: Fields): Command {
    Command(CString(f.cmd), CString(f.path), Atoi(CString(f.number)),
            if f.install == "" then None else Some(CString(f.install)))
  }

  /** What any UX message does, in every state a run can reach: UX_SESSION is registered for its sender,
      and the command is forwarded to the live holder of the mac in the session, with the fields in the
      session, or to nobody if there is none. */
  lemma UxMessageIsRouted(env: Env, w: World, fd: int, es: seq<Entry>, s: SessionData)
    requires Inv(env, w) && fd in w.open && AgentTypeOf(es) == ReqUx
    ensures var me, s' := w.open[fd].generation, SessionAfter(es, fd, s);
            var h := w.history + [Registered(fd, me, "UX_SESSION", ReqUx)];
            var w' := Handle(w, fd, es, s);
            && w'.table == w.table["UX_SESSION" := Row(fd, ReqUx)] && w'.open == w.open && w'.peers == w.peers
            && w'.halt == w.halt
            && (forall j :: LiveAt(h, s'.minerMac, j) ==>
                  w'.history == h + [Forwarded(me, s'.minerMac, h[j].fd, Some(h[j].generation),
                                               Command(s'.cmdType, s'.path, s'.sequence, s'.pathInstall))])
            && ((forall j :: !LiveAt(h, s'.minerMac, j)) ==> w'.history == h)
  {
    var w', to := Register(w, fd, UX_SESSION, ReqUx), SessionAfter(es, fd, s).minerMac;
    RegisterKeepsInv(env, w, fd, UX_SESSION, ReqUx);
    assert RowMatches(w', to);
    forall j | LiveAt(w'.history, to, j)
      ensures Scan(w'.history, to) == Some(j)
    {
      ScanFindsTheLive(w'.history, to, j);
    }
  }

  /** What a UX command with all its fields does, in every state a run can reach: it is forwarded,
      with its own fields, to the holder of the live registration, and to nobody if there is none.
      Addressed to "UX_SESSION" it comes back to its sender. */
  lemma CommandGoesToTheHolder(env: Env, w: World, fd: int, es: seq<Entry>, s: SessionData, f: Fields)
    requires Inv(env, w) && fd in w.open && Carries(es, f)
    ensures var me, to := w.open[fd].generation, CString(f.mac);
            var h := w.history + [Registered(fd, me, UX_SESSION, ReqUx)];
            var h' := Handle(w, fd, es, s).history;
            && (forall j :: LiveAt(h, to, j) ==>
                  h' == h + [Forwarded(me, to, h[j].fd, Some(h[j].generation), CommandFrom(f))])
            && ((forall j :: !LiveAt(h, to, j)) ==> h' == h)
            && (to == UX_SESSION ==> h' == h + [Forwarded(me, to, fd, Some(me), CommandFrom(f))])
  {
    UxMessageIsRouted(env, w, fd, es, s);
    var h := w.history + [Registered(fd, w.open[fd].generation, UX_SESSION, ReqUx)];
    assert LiveAt(h, UX_SESSION, |w.history|);
  }

  /** An agent message makes its mac the live registration of the sender's connection. */
  lemma AgentRegisters(env: Env, w: World, fd: int, es: seq<Entry>, s: SessionData, mac: string)
    requires Inv(env, w) && fd in w.open && AgentTypeOf(es) == ReqLinuxClaymore
    requires LastString(es, "miner_mac") == Some(mac)
    ensures var w' := Handle(w, fd, es, s);
            && Inv(env, w') && w'.open == w.open
            && w'.table == w.table[CString(mac) := Row(fd, ReqLinuxClaymore)]
            && LiveAt(w'.history, CString(mac), |w.history|)
            && w'.history[|w.history|] == Registered(fd, w.open[fd].generation, CString(mac), ReqLinuxClaymore)
  {
    HandleKeepsInv(env, w, fd, es, s);
  }

  // ---------- what single events do ----------

  /** The event makes the server read a message that decodes to `es`. */
  predicate Brings(env: Env, ev: Event, es: seq<Entry>) {
    && !ev.err && ev.readable && ev.fd != env.listener && Read(ev.recvs).Message?
    && env.tokener(CBytes(Read(ev.recvs).data)) == Members(es)
  }

  /** A message of no known type does nothing: the peer stays open and readable. */
  lemma UnknownMessageDoesNothing(env: Env, w: World, ev: Event, es: seq<Entry>, s: SessionData)
    requires Inv(env, w) && w.halt.None? && ev.fd in w.open && Brings(env, ev, es)
    requires Texts(es) == [] || CString(Texts(es)[0]) !in {"ux", "linux-claymore-nvidia"}
    ensures Step(env, w, ev, s) == w.(open := w.open[ev.fd := Connection(w.open[ev.fd].generation, READ)])
    ensures StepSession(env, w, ev, s) == s
  {
    AgentTypeIff(es);
  }

  /** What a message leaves in the session besides its own fields: the sender and the type, if known. */
  lemma SessionOfMessage(env: Env, w: World, ev: Event, es: seq<Entry>, s: SessionData)
    requires Inv(env, w) && w.halt.None? && ev.fd in w.open && Brings(env, ev, es)
    ensures var t := StepSession(env, w, ev, s);
            && (AgentTypeOf(es) == ReqUx ==> t == CmdFields(es, s.(fd := ev.fd, agentType := ReqUx)))
            && (AgentTypeOf(es) == ReqLinuxClaymore ==>
                  t == s.(fd := ev.fd, agentType := ReqLinuxClaymore, minerMac := t.minerMac))
            && (AgentTypeOf(es) == ReqInvalid ==> t == s)
  {
  }

  /** The events that end the process, and why; nothing happens afterwards. */
  lemma FatalEvents(env: Env, w: World, ev: Event, s: SessionData)
    requires |w.peers| == MAXFDS
    ensures var w' := Step(env, w, ev, s);
            && (w.halt.Some? ==> w' == w)
            && (w.halt.None? && ev.err ==> w' == w.(halt := Some(EpollError)))
            && (w.halt.None? && !ev.err && ev.fd == env.listener ==>
                  && (ev.accepted == AcceptError ==> w' == w.(halt := Some(AcceptFailed)))
                  && (ev.accepted.NewSocket? && ev.accepted.newfd >= 16384 ==> w' == w.(halt := Some(FdTooLarge))))
            && (w.halt.None? && !ev.err && ev.fd != env.listener && 0 <= ev.fd < MAXFDS && ev.fd in w.open ==>
                  && (ev.readable && Meets(ev.recvs, Failure) ==>
                        w' == w.(halt := Some(RecvFailed)))
                  && (var r := Read(ev.recvs);
                      ev.readable && r.Message? && env.tokener(CBytes(r.data)) == NotAnObject ==>
                        w' == w.(halt := Some(NotJson)))
                  && (!ev.readable && !ev.writable ==> w' == w))
  {
    BrokenIff(ev.recvs);
  }

  /** A new peer is watched for reading, starts in INITIAL_ACK with its whole acknowledgement to send, and
      nobody else is touched; with no connection pending nothing happens. */
  lemma AcceptOutcomes(env: Env, w: World, ev: Event, s: SessionData)
    requires |w.peers| == MAXFDS && w.halt.None? && !ev.err && ev.fd == env.listener
    ensures var w' := Step(env, w, ev, s);
            && (ev.accepted == NothingPending ==> w' == w)
            && (ev.accepted.NewSocket? && ev.accepted.newfd < 16384 ==>
                  var fd := ev.accepted.newfd;
                  && w'.open == w.open[fd := Connection(w.nextGeneration, READ)]
                  && w'.peers == w.peers[fd := Peer(InitialAck, w.peers[fd].sendData, 8, 0)]
                  && w'.table == w.table && w'.halt == None && w'.nextGeneration == w.nextGeneration + 1
                  && w'.history == w.history + [Connected(fd, w.nextGeneration)])
  {
  }

  /** A write-ready peer: with nothing left to send it is watched for both; while bytes are left, or the
      socket is full, for writing; once the kernel has taken all of them, for reading only, and
      INITIAL_ACK is over.  Rows, records and other descriptors stay as they are, and only an error of
      send ends the process. */
  lemma SendOutcomes(env: Env, w: World, ev: Event, s: SessionData)
    requires Inv(env, w) && w.halt.None? && ev.fd in w.open && !ev.err && !ev.readable && ev.writable
    ensures var w', p := Step(env, w, ev, s), w.peers[ev.fd];
            var left := p.sendbufEnd - p.sendptr;
            if left > 0 && ev.sent == SendError then w' == w.(halt := Some(SendFailed))
            else
              && w'.peers[ev.fd].sendData == p.sendData && w'.halt == None
              && w' == w.(peers := w.peers[ev.fd := w'.peers[ev.fd]],
                          open := w.open[ev.fd := Connection(w.open[ev.fd].generation, w'.open[ev.fd].interest)])
              && var q, watched := Observable(w'.peers[ev.fd]), w'.open[ev.fd].interest;
                 if left <= 0 then q == Observable(p) && watched == READ_WRITE
                 else if ev.sent == SendBlocked then q == Observable(p) && watched == WRITE
                 else if ev.sent.count < left then
                   q == (p.state, p.sendptr + ev.sent.count, p.sendbufEnd) && watched == WRITE
                 else
                   q == (if p.state == InitialAck then WaitForMsg else p.state, 0, 0) && watched == READ
  {
  }

  /** A read-ready peer is closed exactly when its stream ended before a message did, and then all
      its rows go and no others; every other outcome that does not end the process keeps it open
      and readable, and a would-block changes nothing but the peer's interest, which is set to read. */
  lemma RecvOutcomes(env: Env, w: World, ev: Event, s: SessionData)
    requires Inv(env, w) && w.halt.None? && ev.fd in w.open && !ev.err && ev.readable
    ensures var w' := Step(env, w, ev, s);
            var atEnd := Meets(ev.recvs, EndOfStream);
            && w'.peers == w.peers && w'.open - {ev.fd} == w.open - {ev.fd}
            && (ev.fd !in w'.open <==> atEnd)
            && (atEnd ==> forall mac :: (mac in w'.table <==> mac in w.table && w.table[mac].fd != ev.fd)
                                        && (mac in w'.table ==> w'.table[mac] == w.table[mac]))
            && (!atEnd && w'.halt.None? ==> w'.open[ev.fd] == Connection(w.open[ev.fd].generation, READ))
            && (w'.halt == Some(RecvFailed) <==> Meets(ev.recvs, Failure))
            && (Meets(ev.recvs, WouldBlock) || Read(ev.recvs) == Pending ==>
                  && w' == w.(open := w.open[ev.fd := Connection(w.open[ev.fd].generation, READ)])
                  && StepSession(env, w, ev, s) == s)
  {
    ClosedIff(ev.recvs);
    BrokenIff(ev.recvs);
    PendingIff(ev.recvs);
    var d := Delivered(env, w, ev);
    if d.Some? {
      HandleKeepsInv(env, w, ev.fd, d.value, s);
    }
  }

  // ---------- the compiled configuration: read interest only ----------

  /** Every open peer is watched for reading only and still has its whole acknowledgement to send. */
  ghost predicate ReadOnly(w: World) {
    |w.peers| == MAXFDS &&
    forall fd :: fd in w.open ==>
      0 <= fd < MAXFDS && w.open[fd].interest == READ && Observable(w.peers[fd]) == (InitialAck, 0, SYNACK_LEN)
  }

  /** epoll reports readiness only for what was asked (errors and hang-ups aside). */
  ghost predicate Honest(w: World, events: seq<Event>) {
    forall i :: 0 <= i < |events| && events[i].fd in w.open ==>
      && (events[i].readable ==> w.open[events[i].fd].interest.wantRead)
      && (events[i].writable ==> w.open[events[i].fd].interest.wantWrite)
  }

  ghost predicate HonestRun(env: Env, w: World, batches: seq<Batch>)
    requires |w.peers| == MAXFDS
    decreases |batches|
  {
    batches == [] ||
    (&& Honest(w, batches[0].events)
     && HonestRun(env, RunEvents(env, w, batches[0].events, batches[0].junk), batches[1..]))
  }

  lemma StepKeepsReadOnly(env: Env, w: World, ev: Event, s: SessionData)
    requires ReadOnly(w) && AcceptIsFresh(env, w, ev)
    requires ev.fd in w.open && ev.fd != env.listener ==> !ev.writable
    ensures ReadOnly(Step(env, w, ev, s))
  {
    var d := Delivered(env, w, ev);
    if d.Some? {
      assert Handle(w, ev.fd, d.value, s).open == w.open && Handle(w, ev.fd, d.value, s).peers == w.peers;
    }
  }

  ghost predicate NoWrites(env: Env, events: seq<Event>) {
    forall i :: 0 <= i < |events| && events[i].fd != env.listener ==> !events[i].writable
  }

  lemma {:induction false} BatchKeepsReadOnly(env: Env, w: World, events: seq<Event>, s: SessionData)
    requires ReadOnly(w) && AcceptsAreFresh(env, w, events, s) && NoWrites(env, events)
    ensures ReadOnly(RunEvents(env, w, events, s))
    decreases |events|
  {
    if events != [] {
      StepKeepsReadOnly(env, w, events[0], s);
      assert forall i :: 0 <= i < |events[1..]| ==> events[1..][i] == events[i + 1];
      BatchKeepsReadOnly(env, Step(env, w, events[0], s), events[1..], StepSession(env, w, events[0], s));
    }
  }

  /** In the compiled configuration interest is read-only throughout, so no peer ever gets a
      write-ready event and none ever leaves INITIAL_ACK. */
  lemma {:induction false} RunsStayReadOnly(env: Env, w: World, batches: seq<Batch>)
    requires ReadOnly(w) && PossibleRun(env, w, batches) && HonestRun(env, w, batches)
    ensures ReadOnly(Run(env, w, batches))
    ensures batches != [] && w.halt.None? ==> NoWrites(env, batches[0].events)
    decreases |batches|
  {
    if batches != [] {
      var b := batches[0];
      if w.halt.None? {
        BatchKeepsReadOnly(env, w, b.events, b.junk);
      } else {
        HaltedStays(env, w, b.events, b.junk);
      }
      RunsStayReadOnly(env, RunEvents(env, w, b.events, b.junk), batches[1..]);
    }
  }

  lemma {:induction false} HonestPrefix(env: Env, w: World, batches: seq<Batch>, b: nat)
    requires |w.peers| == MAXFDS && b <= |batches|
    requires PossibleRun(env, w, batches) && HonestRun(env, w, batches)
    ensures PossibleRun(env, w, batches[..b]) && HonestRun(env, w, batches[..b])
    ensures PossibleRun(env, Run(env, w, batches[..b]), batches[b..])
    ensures HonestRun(env, Run(env, w, batches[..b]), batches[b..])
    decreases b
  {
    if b > 0 {
      var w' := RunEvents(env, w, batches[0].events, batches[0].junk);
      HonestPrefix(env, w', batches[1..], b - 1);
      assert batches[..b][1..] == batches[1..][..b - 1] && batches[1..][b - 1..] == batches[b..];
    } else {
      assert batches[..0] == [] && batches[0..] == batches;
    }
  }

  /** From the start of the process: before each batch every peer is watched for reading only, and
      while the process lives no batch brings a write-ready peer. */
  lemma NoWriteEventEver(env: Env, peers: seq<Peer>, batches: seq<Batch>, b: nat)
    requires |peers| == MAXFDS && b < |batches|
    requires PossibleRun(env, Initial(peers), batches) && HonestRun(env, Initial(peers), batches)
    ensures var w := Run(env, Initial(peers), batches[..b]);
            ReadOnly(w) && (w.halt.None? ==> NoWrites(env, batches[b].events))
  {
    HonestPrefix(env, Initial(peers), batches, b);
    RunsStayReadOnly(env, Initial(peers), batches[..b]);
    RunsStayReadOnly(env, Run(env, Initial(peers), batches[..b]), batches[b..]);
    assert batches[b..][0] == batches[b];
  }

  // ---------- two runs: no trace of an earlier peer on the same fd ----------

  /** The same descriptors are open, with the same interest and the same readable state.  Nothing is
      said of the table, the history, the generations, closed descriptors or send_data pointers. */
  ghost predicate SameView(v: World, w: World) {
    && |v.peers| == |w.peers| == MAXFDS && v.halt == w.halt && v.open.Keys == w.open.Keys
    && forall fd :: fd in v.open ==>
         && fd in w.open && v.open[fd].interest == w.open[fd].interest
         && (0 <= fd < MAXFDS ==> Observable(v.peers[fd]) == Observable(w.peers[fd]))
  }

  lemma HandleKeepsView(w: World, fd: int, es: seq<Entry>, s: SessionData)
    requires fd in w.open
    ensures var w' := Handle(w, fd, es, s); w'.open == w.open && w'.peers == w.peers && w'.halt == w.halt
  {
  }

  lemma RecvKeepsSameView(env: Env, v: World, w: World, fd: int, recvs: seq<Answer>, s: SessionData, t: SessionData)
    requires SameView(v, w) && v.halt.None?
    ensures SameView(StepRecv(env, v, fd, recvs, s), StepRecv(env, w, fd, recvs, t))
  {
    if 0 <= fd < MAXFDS && fd in v.open && Read(recvs).Message? {
      var document := env.tokener(CBytes(Read(recvs).data));
      if document.Members? {
        HandleKeepsView(v, fd, document.entries, s);
        HandleKeepsView(w, fd, document.entries, t);
      }
    }
  }

  lemma SendKeepsSameView(v: World, w: World, fd: int, answer: SendAnswer)
    requires SameView(v, w) && v.halt.None?
    ensures SameView(StepSend(v, fd, answer), StepSend(w, fd, answer))
  {
  }

  lemma StepKeepsSameView(env: Env, v: World, w: World, ev: Event, s: SessionData, t: SessionData)
    requires SameView(v, w)
    ensures SameView(Step(env, v, ev, s), Step(env, w, ev, t))
  {
    if v.halt.None? {
      RecvKeepsSameView(env, v, w, ev.fd, ev.recvs, s, t);
      SendKeepsSameView(v, w, ev.fd, ev.sent);
    }
  }

  lemma {:induction false} BatchKeepsSameView(env: Env, v: World, w: World, events: seq<Event>,
                                              s: SessionData, t: SessionData)
    requires SameView(v, w)
    ensures SameView(RunEvents(env, v, events, s), RunEvents(env, w, events, t))
    decreases |events|
  {
    if events != [] {
      var ev := events[0];
      StepKeepsSameView(env, v, w, ev, s, t);
      BatchKeepsSameView(env, Step(env, v, ev, s), Step(env, w, ev, t), events[1..],
                         StepSession(env, v, ev, s), StepSession(env, w, ev, t));
    }
  }

  /** Two runs over the same events, whatever earlier peers did in each: other rows, other histories,
      other generations, other session contents, other leftovers on closed descriptors.  Every later
      status, state, sendptr and sendbuf_end of every open descriptor is the same in both. */
  lemma {:induction false} NoTraceOfEarlierPeers(env: Env, v: World, w: World, bs: seq<Batch>, cs: seq<Batch>)
    requires SameView(v, w)
    requires |bs| == |cs| && forall i :: 0 <= i < |bs| ==> bs[i].events == cs[i].events
    ensures SameView(Run(env, v, bs), Run(env, w, cs))
    decreases |bs|
  {
    if bs != [] {
      var b, c := bs[0], cs[0];
      BatchKeepsSameView(env, v, w, b.events, b.junk, c.junk);
      NoTraceOfEarlierPeers(env, RunEvents(env, v, b.events, b.junk), RunEvents(env, w, c.events, c.junk),
                            bs[1..], cs[1..]);
    }
  }

  /** The worlds differ at most in the state of closed fds and in unread send_data pointers. */
  ghost predicate Alike(v: World, w: World) {
    && |v.peers| == MAXFDS && v.(peers := w.peers) == w
    && |w.peers| == MAXFDS
    && forall fd :: fd in w.open && 0 <= fd < MAXFDS ==> Observable(v.peers[fd]) == Observable(w.peers[fd])
  }

  lemma HandleKeepsAlike(v: World, w: World, fd: int, es: seq<Entry>, s: SessionData)
    requires Alike(v, w) && fd in w.open
    ensures Alike(Handle(v, fd, es, s), Handle(w, fd, es, s)) && Handle(w, fd, es, s).open == w.open
  {
  }

  lemma SendKeepsAlike(v: World, w: World, fd: int, answer: SendAnswer)
    requires Alike(v, w)
    ensures Alike(StepSend(v, fd, answer), StepSend(w, fd, answer))
  {
  }

  lemma StepKeepsAlike(env: Env, v: World, w: World, ev: Event, s: SessionData)
    requires Alike(v, w)
    ensures Alike(Step(env, v, ev, s), Step(env, w, ev, s)) && StepSession(env, v, ev, s) == StepSession(env, w, ev, s)
  {
    var d := Delivered(env, w, ev);
    if d.Some? {
      HandleKeepsAlike(v, w, ev.fd, d.value, s);
    }
    SendKeepsAlike(v, w, ev.fd, ev.sent);
  }

  lemma {:induction false} BatchKeepsAlike(env: Env, v: World, w: World, events: seq<Event>, s: SessionData)
    requires Alike(v, w)
    ensures Alike(RunEvents(env, v, events, s), RunEvents(env, w, events, s))
    decreases |events|
  {
    if events != [] {
      StepKeepsAlike(env, v, w, events[0], s);
      BatchKeepsAlike(env, Step(env, v, events[0], s), Step(env, w, events[0], s), events[1..],
                      StepSession(env, w, events[0], s));
    }
  }

  /** If the rows and the history agree to begin with, every later row and record is the same too,
      generations and forwarded commands included. */
  lemma {:induction false} LeftoversAreNeverRead(env: Env, v: World, w: World, batches: seq<Batch>)
    requires Alike(v, w)
    ensures Alike(Run(env, v, batches), Run(env, w, batches))
    decreases |batches|
  {
    if batches != [] {
      var b := batches[0];
      BatchKeepsAlike(env, v, w, b.events, b.junk);
      LeftoversAreNeverRead(env, RunEvents(env, v, b.events, b.junk), RunEvents(env, w, b.events, b.junk),
                            batches[1..]);
    }
  }
}
