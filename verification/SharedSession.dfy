/** One uninitialised session_t is shared by all events of a batch (src/main.c:254), and the texts its
    pointers lead to are freed after every message (src/main.c:174).  Messages that carry all their
    fields do not notice; exactly the others do. */
module SharedSession {
  import opened Basics
  import opened Json
  import opened Parse
  import opened PeerState
  import opened SessionTable
  import opened SocketRead
  import opened Machine
  import opened Routing
  import opened Runs

  /** The message sets every session field that its handling reads. */
  predicate Complete(es: seq<Entry>) {
    match AgentTypeOf(es)
    case ReqUx => Has(es, "commend_type") && Has(es, "miner_mac") && Has(es, "path")
                  && Has(es, "sequence") && Has(es, "path_install")
    case ReqLinuxClaymore => Has(es, "miner_mac")
    case _ => true
  }

  lemma FieldsFound(es: seq<Entry>)
    ensures Complete(es) <==>
            match AgentTypeOf(es)
            case ReqUx => LastString(es, "commend_type").Some? && LastString(es, "miner_mac").Some?
                          && LastString(es, "path").Some? && LastString(es, "sequence").Some?
                          && LastString(es, "path_install").Some?
            case ReqLinuxClaymore => LastString(es, "miner_mac").Some?
            case _ => true
  {
    HasIffFound(es, "commend_type");
    HasIffFound(es, "miner_mac");
    HasIffFound(es, "path");
    HasIffFound(es, "sequence");
    HasIffFound(es, "path_install");
  }

  lemma CompleteIgnoresSession(w: World, fd: int, es: seq<Entry>, s: SessionData, t: SessionData)
    requires Complete(es) && fd in w.open
    ensures Handle(w, fd, es, s) == Handle(w, fd, es, t)
  {
    FieldsFound(es);
  }

  /** Static storage. */
  function Zeroed(): (peers: seq<Peer>)
    ensures |peers| == MAXFDS
  {
    seq(MAXFDS, _ => Peer(InitialAck, [], 0, 0))
  }

  /** A first connection, on `fd`, has registered `mac`: a state every server can be in. */
  function Witness(fd: nat, mac: string): World
    requires fd < MAXFDS
  {
    Register(Connect(Initial(Zeroed()), fd), fd, mac, ReqLinuxClaymore)
  }

  lemma WitnessIsSound(env: Env, fd: nat, mac: string)
    requires fd < MAXFDS && fd != env.listener
    ensures Inv(env, Witness(fd, mac)) && fd in Witness(fd, mac).open && mac in Witness(fd, mac).table
  {
    InitialInv(env, Zeroed());
    ConnectKeepsInv(env, Initial(Zeroed()), fd);
    RegisterKeepsInv(env, Connect(Initial(Zeroed()), fd), fd, mac, ReqLinuxClaymore);
  }

  function Junk(text: string, n: int): SessionData {
    SessionData(0, ReqInvalid, text, text, text, Some(text), n)
  }

  /** An incomplete message lets the old session contents through: into the table for an agent,
      into the route or the forwarded command for a UX peer. */
  lemma IncompleteShowsSession(env: Env, fd: nat, es: seq<Entry>)
    requires !Complete(es) && fd < MAXFDS && fd != env.listener
    ensures exists w: World, s, t :: Inv(env, w) && fd in w.open && Handle(w, fd, es, s) != Handle(w, fd, es, t)
  {
    FieldsFound(es);
    var found := LastString(es, "miner_mac");
    var mac := if found.Some? then CString(found.value) else "a";
    var w := Witness(fd, mac);
    WitnessIsSound(env, fd, mac);
    var s, t := Junk("a", 0), Junk("b", 1);
    var n := |w.history|;
    var hs, ht := Handle(w, fd, es, s).history, Handle(w, fd, es, t).history;
    if AgentTypeOf(es) == ReqLinuxClaymore {
      assert hs[n].mac == "a" && ht[n].mac == "b";
    } else if found.None? {
      assert |hs| == n + 2 && |ht| == n + 1;
    } else {
      assert hs[n + 1].command != ht[n + 1].command;
    }
    assert Handle(w, fd, es, s) != Handle(w, fd, es, t);
  }

  /** In the states the run invariant allows, the handling of a message is independent of what the session held
      exactly when the message is complete. */
  lemma CompleteIffIndependent(env: Env, es: seq<Entry>)
    ensures Complete(es) <==>
            forall w: World, fd, s, t :: Inv(env, w) && fd in w.open ==> Handle(w, fd, es, s) == Handle(w, fd, es, t)
  {
    if Complete(es) {
      forall w: World, fd, s, t | Inv(env, w) && fd in w.open
        ensures Handle(w, fd, es, s) == Handle(w, fd, es, t)
      {
        CompleteIgnoresSession(w, fd, es, s, t);
      }
    } else {
      IncompleteShowsSession(env, if env.listener == 0 then 1 else 0, es);
    }
  }

  /** The leak: within one batch, an agent's complete message is followed by another peer's message of
      the same type without a mac.  The second peer takes over the first one's mac; with a session of
      its own, holding anything else, it does not. */
  lemma IncompleteMessageTakesOver(env: Env, w: World, e1: Event, e2: Event, es1: seq<Entry>, es2: seq<Entry>,
                                   mac: string, s: SessionData, t: SessionData)
    requires Inv(env, w) && e1.fd != e2.fd && e2.fd in w.open
    requires Delivered(env, w, e1) == Some(es1) && Delivered(env, w, e2) == Some(es2)
    requires AgentTypeOf(es1) == AgentTypeOf(es2) == ReqLinuxClaymore
    requires LastString(es1, "miner_mac") == Some(mac) && !Has(es2, "miner_mac") && t.minerMac != CString(mac)
    ensures var table := RunEvents(env, w, [e1, e2], s).table;
            CString(mac) in table && table[CString(mac)] == Row(e2.fd, ReqLinuxClaymore)
    ensures var table := RunSeparately(env, w, [Found(e1, s), Found(e2, t)]).table;
            CString(mac) in table && table[CString(mac)] == Row(e1.fd, ReqLinuxClaymore)
  {
    HasIffFound(es2, "miner_mac");
    HandleKeepsInv(env, w, e1.fd, es1, s);
    var w1, s1 := Step(env, w, e1, s), StepSession(env, w, e1, s);
    assert w1.table == w.table[CString(mac) := Row(e1.fd, ReqLinuxClaymore)];
    assert w1.halt.None? && w1.open.Keys == w.open.Keys && s1.minerMac == CString(mac);
    DeliversAgain(env, w, w1, e2);
    HandleAgent(env, w1, e2, es2, s1);
    HandleAgent(env, w1, e2, es2, t);
    assert [e1, e2][1..] == [e2] && [e2][1..] == [];
    assert RunEvents(env, w1, [e2], s1) == Step(env, w1, e2, s1);
    assert [Found(e1, s), Found(e2, t)][1..] == [Found(e2, t)] && [Found(e2, t)][1..] == [];
    assert RunSeparately(env, w1, [Found(e2, t)]) == Step(env, w1, e2, t);
  }

  lemma DeliversAgain(env: Env, w: World, w': World, ev: Event)
    requires Delivered(env, w, ev).Some? && w'.halt.None? && ev.fd in w'.open
    ensures Delivered(env, w', ev) == Delivered(env, w, ev)
  {
  }

  lemma HandleAgent(env: Env, w: World, ev: Event, es: seq<Entry>, s: SessionData)
    requires |w.peers| == MAXFDS && Delivered(env, w, ev) == Some(es) && AgentTypeOf(es) == ReqLinuxClaymore
    ensures Step(env, w, ev, s).table
            == w.table[Or(LastString(es, "miner_mac"), s.minerMac) := Row(ev.fd, ReqLinuxClaymore)]
  {
  }

  // ---------- the leak on a run from the start of the process ----------

  /** A listening socket 3, and a tokener that knows two agent messages: one names its mac, one does not. */
  function LeakEnv(): Env {
    Env(3, bytes => Members(if bytes == [1] then NamedAgent() else NamelessAgent()))
  }

  function NamedAgent(): seq<Entry> {
    [Entry("agent_type", JsonString(AGENT_TYPE_LINUX_NVIDIA)), Entry("miner_mac", JsonString("a"))]
  }

  function NamelessAgent(): seq<Entry> {
    [Entry("agent_type", JsonString(AGENT_TYPE_LINUX_NVIDIA))]
  }

  function Arrival(fd: nat): Event {
    Event(3, false, true, false, NewSocket(fd), [], SendBlocked)
  }

  function Message1(fd: int, b: byte): Event {
    Event(fd, false, true, false, NothingPending, [Data([b], 0)], SendBlocked)
  }

  /** Peers 5 and 6 connect; then 5 registers the mac "a" and 6 sends a message without a mac. */
  function LeakRun(junk: SessionData): seq<Batch> {
    [Batch(junk, [Arrival(5)]), Batch(junk, [Arrival(6)]), Batch(junk, [Message1(5, 1), Message1(6, 2)])]
  }

  lemma AgentByFirstEntry(es: seq<Entry>)
    requires es != [] && es[0].value == JsonString(AGENT_TYPE_LINUX_NVIDIA)
    ensures AgentTypeOf(es) == ReqLinuxClaymore
  {
    NulFree(AGENT_TYPE_LINUX_NVIDIA);
    assert FirstStringAt(es, 0);
  }

  lemma OneEventBatch(env: Env, w: World, ev: Event, s: SessionData)
    requires |w.peers| == MAXFDS
    ensures RunEvents(env, w, [ev], s) == Step(env, w, ev, s)
    ensures AcceptIsFresh(env, w, ev) && ev.fd == env.listener ==> Possible(env, w, [ev], s)
  {
    assert [ev][1..] == [];
  }

  /** After that run the mac registered by peer 5 belongs to peer 6. */
  lemma LeakHappens(junk: SessionData)
    ensures PossibleRun(LeakEnv(), Initial(Zeroed()), LeakRun(junk))
    ensures var table := Run(LeakEnv(), Initial(Zeroed()), LeakRun(junk)).table;
            "a" in table && table["a"] == Row(6, ReqLinuxClaymore)
  {
    var env, w0 := LeakEnv(), Initial(Zeroed());
    var w1 := Connect(w0, 5);
    var w2 := Connect(w1, 6);
    var e1, e2 := Message1(5, 1), Message1(6, 2);
    InitialInv(env, Zeroed());
    ConnectKeepsInv(env, w0, 5);
    ConnectKeepsInv(env, w1, 6);
    OneEventBatch(env, w0, Arrival(5), junk);
    OneEventBatch(env, w1, Arrival(6), junk);
    LeakBatch(w2, junk);
    MessagesArePossible(env, w2, e1, e2, junk);
    LeakUnfolds(junk, w1, w2);
  }

  lemma MessageDelivers(w: World, fd: int, b: byte)
    requires w.halt.None? && fd in w.open && 3 < fd < MAXFDS && b != 0
    ensures Delivered(LeakEnv(), w, Message1(fd, b)) == Some(if b == 1 then NamedAgent() else NamelessAgent())
  {
    ReadsOneByte(b);
    assert [b] == [1] <==> b == 1;
  }

  lemma MacOfAgents()
    ensures LastString(NamedAgent(), "miner_mac") == Some("a") && !Has(NamelessAgent(), "miner_mac")
  {
    assert NamedAgent()[1].key == "miner_mac";
    assert "agent_type"[0] != "miner_mac"[0];
  }

  lemma LeakBatch(w: World, junk: SessionData)
    requires Inv(LeakEnv(), w) && w.halt.None? && 5 in w.open && 6 in w.open
    ensures var table := RunEvents(LeakEnv(), w, [Message1(5, 1), Message1(6, 2)], junk).table;
            "a" in table && table["a"] == Row(6, ReqLinuxClaymore)
  {
    MessageDelivers(w, 5, 1);
    MessageDelivers(w, 6, 2);
    AgentByFirstEntry(NamedAgent());
    AgentByFirstEntry(NamelessAgent());
    MacOfAgents();
    NulFree("a");
    IncompleteMessageTakesOver(LeakEnv(), w, Message1(5, 1), Message1(6, 2), NamedAgent(), NamelessAgent(), "a",
                               junk, junk.(minerMac := "b"));
  }

  lemma ReadsOneByte(b: byte)
    requires b != 0
    ensures Read([Data([b], 0)]) == Message([b]) && CBytes([b]) == [b]
  {
    var answers := [Data([b], 0)];
    assert Stops(answers[0]) && StopIndex(answers) == 0;
    assert answers[..1] == answers && answers[..0] == [];
    assert Joined(answers) == [b];
  }

  lemma MessagesArePossible(env: Env, w: World, e1: Event, e2: Event, s: SessionData)
    requires |w.peers| == MAXFDS && e1.fd != e2.fd && e1.fd in w.open && e2.fd in w.open
    requires e1.fd != env.listener && e2.fd != env.listener
    ensures Possible(env, w, [e1, e2], s)
  {
    var w1, s1 := Step(env, w, e1, s), StepSession(env, w, e1, s);
    assert [e1, e2][1..] == [e2] && [e2][1..] == [];
    assert AcceptsAreFresh(env, w1, [e2], s1);
  }

  lemma LeakUnfolds(junk: SessionData, w1: World, w2: World)
    requires w1 == Connect(Initial(Zeroed()), 5) && w2 == Connect(w1, 6)
    requires var env := LeakEnv();
             && RunEvents(env, Initial(Zeroed()), [Arrival(5)], junk) == w1
             && Possible(env, Initial(Zeroed()), [Arrival(5)], junk)
             && RunEvents(env, w1, [Arrival(6)], junk) == w2 && Possible(env, w1, [Arrival(6)], junk)
             && Possible(env, w2, [Message1(5, 1), Message1(6, 2)], junk)
    ensures PossibleRun(LeakEnv(), Initial(Zeroed()), LeakRun(junk))
    ensures Run(LeakEnv(), Initial(Zeroed()), LeakRun(junk))
            == RunEvents(LeakEnv(), w2, [Message1(5, 1), Message1(6, 2)], junk)
  {
    var env, b := LeakEnv(), LeakRun(junk);
    assert b[1..][1..] == [b[2]] && [b[2]][1..] == [];
    assert b[1..][0] == b[1];
    assert Run(env, w2, [b[2]]) == RunEvents(env, w2, b[2].events, junk);
    assert PossibleRun(env, w2, [b[2]]);
    assert Run(env, w1, b[1..]) == Run(env, w2, [b[2]]);
    assert PossibleRun(env, w1, b[1..]);
  }

  // ---------- whole batches and runs with any session contents ----------

  /** An event together with what the session held when its handling began: a fresh session, or
      whatever the freed memory behind a stale pointer now holds. */
  datatype Found = Found(event: Event, session: SessionData)

  function RunSeparately(env: Env, w: World, found: seq<Found>): (w': World)
    requires |w.peers| == MAXFDS
    ensures |w'.peers| == MAXFDS
    decreases |found|
  {
    if found == [] then w
    else RunSeparately(env, Step(env, w, found[0].event, found[0].session), found[1..])
  }

  ghost predicate CarriesCompleteMessage(env: Env, ev: Event) {
    forall data, es :: Read(ev.recvs) == Message(data) && env.tokener(CBytes(data)) == Members(es) ==> Complete(es)
  }

  /** A batch of complete messages handled with one shared session, started uninitialised, ends in
      the same state as with a separate session for every event: the same rows, routes and
      forwarded commands, whatever any session held. */
  lemma {:induction false} SharingIsHarmless(env: Env, w: World, events: seq<Event>, s: SessionData, found: seq<Found>)
    requires |w.peers| == MAXFDS && |found| == |events|
    requires forall i :: 0 <= i < |events| ==> found[i].event == events[i] && CarriesCompleteMessage(env, events[i])
    ensures RunEvents(env, w, events, s) == RunSeparately(env, w, found)
    decreases |events|
  {
    if events != [] {
      var ev, t := events[0], found[0].session;
      var d := Delivered(env, w, ev);
      if d.Some? {
        assert CarriesCompleteMessage(env, ev);
        CompleteIgnoresSession(w, ev.fd, d.value, s, t);
      }
      assert Step(env, w, ev, s) == Step(env, w, ev, t);
      SharingIsHarmless(env, Step(env, w, ev, s), events[1..], StepSession(env, w, ev, s), found[1..]);
    }
  }

  /** The kernel's part, as in Machine.Possible. */
  ghost predicate PossibleSeparately(env: Env, w: World, found: seq<Found>)
    requires |w.peers| == MAXFDS
    decreases |found|
  {
    && (w.halt.None? ==>
          forall i :: 0 <= i < |found| ==> found[i].event.fd == env.listener || found[i].event.fd in w.open)
    && (forall i, j :: 0 <= i < j < |found| ==> found[i].event.fd != found[j].event.fd)
    && (found != [] ==>
          && AcceptIsFresh(env, w, found[0].event)
          && PossibleSeparately(env, Step(env, w, found[0].event, found[0].session), found[1..]))
  }

  function RunAny(env: Env, w: World, batches: seq<seq<Found>>): (w': World)
    requires |w.peers| == MAXFDS
    ensures |w'.peers| == MAXFDS
    decreases |batches|
  {
    if batches == [] then w else RunAny(env, RunSeparately(env, w, batches[0]), batches[1..])
  }

  ghost predicate PossibleAny(env: Env, w: World, batches: seq<seq<Found>>)
    requires |w.peers| == MAXFDS
    decreases |batches|
  {
    batches == [] ||
    (PossibleSeparately(env, w, batches[0]) && PossibleAny(env, RunSeparately(env, w, batches[0]), batches[1..]))
  }

  lemma {:induction false} SeparateBatchKeepsInv(env: Env, w: World, found: seq<Found>)
    requires Inv(env, w) && PossibleSeparately(env, w, found)
    ensures Inv(env, RunSeparately(env, w, found))
    decreases |found|
  {
    if found != [] {
      StepKeepsInv(env, w, found[0].event, found[0].session);
      SeparateBatchKeepsInv(env, Step(env, w, found[0].event, found[0].session), found[1..]);
    }
  }

  lemma {:induction false} AnyRunKeepsInv(env: Env, w: World, batches: seq<seq<Found>>)
    requires Inv(env, w) && PossibleAny(env, w, batches)
    ensures Inv(env, RunAny(env, w, batches))
    decreases |batches|
  {
    if batches != [] {
      SeparateBatchKeepsInv(env, w, batches[0]);
      AnyRunKeepsInv(env, RunSeparately(env, w, batches[0]), batches[1..]);
    }
  }

  /** Over every run, and whatever each handler finds in the session, the table is the history and
      the run is safe. */
  lemma AnyRunIsSafe(env: Env, peers: seq<Peer>, batches: seq<seq<Found>>, mac: string)
    requires |peers| == MAXFDS && PossibleAny(env, Initial(peers), batches)
    ensures var w := RunAny(env, Initial(peers), batches); TableIsHistory(w, mac) && SafeSoFar(w)
  {
    InitialInv(env, peers);
    AnyRunKeepsInv(env, Initial(peers), batches);
    InvMeansTableIsHistory(env, RunAny(env, Initial(peers), batches), mac);
    InvMeansSafe(env, RunAny(env, Initial(peers), batches));
  }

  /** The events of a batch with what each of them finds when the session is shared. */
  function Shared(env: Env, w: World, events: seq<Event>, s: SessionData): (found: seq<Found>)
    requires |w.peers| == MAXFDS
    ensures |found| == |events| && forall i :: 0 <= i < |found| ==> found[i].event == events[i]
    decreases |events|
  {
    if events == [] then []
    else [Found(events[0], s)] + Shared(env, Step(env, w, events[0], s), events[1..], StepSession(env, w, events[0], s))
  }

  /** Sharing is one of the ways sessions can be filled. */
  lemma {:induction false} SharedIsSeparate(env: Env, w: World, events: seq<Event>, s: SessionData)
    requires |w.peers| == MAXFDS
    ensures RunEvents(env, w, events, s) == RunSeparately(env, w, Shared(env, w, events, s))
    decreases |events|
  {
    if events != [] {
      SharedIsSeparate(env, Step(env, w, events[0], s), events[1..], StepSession(env, w, events[0], s));
      var rest := Shared(env, Step(env, w, events[0], s), events[1..], StepSession(env, w, events[0], s));
      assert ([Found(events[0], s)] + rest)[1..] == rest;
    }
  }
}
