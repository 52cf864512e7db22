/** From one event of a run to a later one: what an agent's message does to a UX peer's command. */
module EndToEnd {
  import opened Basics
  import opened Json
  import opened Parse
  import opened PeerState
  import opened SocketRead
  import opened Machine
  import opened Routing
  import opened Runs

  // ---------- runs continue one another ----------

  /** `w'` lies on the way from `w`: records are only added, and a dead process stays dead. */
  ghost predicate Later(w: World, w': World) {
    w.history <= w'.history && (w'.halt.None? ==> w.halt.None?)
  }

  lemma StepIsLater(env: Env, w: World, ev: Event, s: SessionData)
    requires |w.peers| == MAXFDS
    ensures Later(w, Step(env, w, ev, s))
  {
  }

  lemma {:induction false} BatchIsLater(env: Env, w: World, events: seq<Event>, s: SessionData)
    requires |w.peers| == MAXFDS
    ensures Later(w, RunEvents(env, w, events, s))
    decreases |events|
  {
    if events != [] {
      StepIsLater(env, w, events[0], s);
      BatchIsLater(env, Step(env, w, events[0], s), events[1..], StepSession(env, w, events[0], s));
    }
  }

  lemma {:induction false} RunIsLater(env: Env, w: World, batches: seq<Batch>)
    requires |w.peers| == MAXFDS
    ensures Later(w, Run(env, w, batches))
    decreases |batches|
  {
    if batches != [] {
      BatchIsLater(env, w, batches[0].events, batches[0].junk);
      RunIsLater(env, RunEvents(env, w, batches[0].events, batches[0].junk), batches[1..]);
    }
  }

  /** The shared session after some events of a batch. */
  function BatchSession(env: Env, w: World, events: seq<Event>, s: SessionData): SessionData
    requires |w.peers| == MAXFDS
    decreases |events|
  {
    if events == [] then s
    else BatchSession(env, Step(env, w, events[0], s), events[1..], StepSession(env, w, events[0], s))
  }

  /** A batch may be cut at any event. */
  lemma {:induction false} BatchCut(env: Env, w: World, events: seq<Event>, s: SessionData, k: nat)
    requires |w.peers| == MAXFDS && k <= |events|
    ensures var w', s' := RunEvents(env, w, events[..k], s), BatchSession(env, w, events[..k], s);
            && RunEvents(env, w, events, s) == RunEvents(env, w', events[k..], s')
            && (Possible(env, w, events, s) ==> Possible(env, w', events[k..], s'))
    decreases k
  {
    if k == 0 {
      assert events[..0] == [] && events[0..] == events;
    } else {
      var w1, s1 := Step(env, w, events[0], s), StepSession(env, w, events[0], s);
      assert events[..k][1..] == events[1..][..k - 1] && events[1..][k - 1..] == events[k..];
      BatchCut(env, w1, events[1..], s1, k - 1);
      if Possible(env, w, events, s) {
        StepKeepsPossible(env, w, events, s);
      }
    }
  }

  /** So may a run, at any batch. */
  lemma {:induction false} RunCut(env: Env, w: World, batches: seq<Batch>, b: nat)
    requires |w.peers| == MAXFDS && b <= |batches|
    ensures Run(env, w, batches) == Run(env, Run(env, w, batches[..b]), batches[b..])
    ensures PossibleRun(env, w, batches) ==>
              PossibleRun(env, w, batches[..b]) && PossibleRun(env, Run(env, w, batches[..b]), batches[b..])
    decreases b
  {
    if b == 0 {
      assert batches[..0] == [] && batches[0..] == batches;
    } else {
      assert batches[..b][1..] == batches[1..][..b - 1] && batches[1..][b - 1..] == batches[b..];
      RunCut(env, RunEvents(env, w, batches[0].events, batches[0].junk), batches[1..], b - 1);
    }
  }

  // ---------- the state in which an event of a run is handled ----------

  function At(env: Env, w: World, batches: seq<Batch>, b: nat, k: nat): (w': World)
    requires |w.peers| == MAXFDS && b < |batches| && k <= |batches[b].events|
    ensures |w'.peers| == MAXFDS
  {
    RunEvents(env, Run(env, w, batches[..b]), batches[b].events[..k], batches[b].junk)
  }

  function SessionAt(env: Env, w: World, batches: seq<Batch>, b: nat, k: nat): SessionData
    requires |w.peers| == MAXFDS && b < |batches| && k <= |batches[b].events|
  {
    BatchSession(env, Run(env, w, batches[..b]), batches[b].events[..k], batches[b].junk)
  }

  lemma BatchSnoc(env: Env, w: World, events: seq<Event>, s: SessionData, k: nat)
    requires |w.peers| == MAXFDS && k < |events|
    ensures RunEvents(env, w, events[..k + 1], s)
            == Step(env, RunEvents(env, w, events[..k], s), events[k], BatchSession(env, w, events[..k], s))
  {
    BatchCut(env, w, events[..k + 1], s, k);
    assert events[..k + 1][..k] == events[..k] && events[..k + 1][k..] == [events[k]];
    var w', s' := RunEvents(env, w, events[..k], s), BatchSession(env, w, events[..k], s);
    assert [events[k]][1..] == [];
    assert RunEvents(env, w', [events[k]], s') == Step(env, w', events[k], s');
  }

  /** Handling event k of batch b is one step of the machine. */
  lemma AtStep(env: Env, w: World, batches: seq<Batch>, b: nat, k: nat)
    requires |w.peers| == MAXFDS && b < |batches| && k < |batches[b].events|
    ensures At(env, w, batches, b, k + 1)
            == Step(env, At(env, w, batches, b, k), batches[b].events[k], SessionAt(env, w, batches, b, k))
  {
    BatchSnoc(env, Run(env, w, batches[..b]), batches[b].events, batches[b].junk, k);
  }

  /** Every state an event is handled in keeps the invariant, and names an open peer. */
  lemma AtKeepsInv(env: Env, w: World, batches: seq<Batch>, b: nat, k: nat)
    requires Inv(env, w) && PossibleRun(env, w, batches) && b < |batches| && k <= |batches[b].events|
    ensures var w' := At(env, w, batches, b, k);
            && Inv(env, w')
            && (k < |batches[b].events| && w'.halt.None? ==>
                  var fd := batches[b].events[k].fd; fd == env.listener || fd in w'.open)
  {
    var w0, events, junk := Run(env, w, batches[..b]), batches[b].events, batches[b].junk;
    RunCut(env, w, batches, b);
    RunKeepsInv(env, w, batches[..b]);
    assert batches[b..][0] == batches[b];
    BatchCut(env, w0, events, junk, k);
    PossiblePrefix(env, w0, events, junk, k);
    BatchKeepsInv(env, w0, events[..k], junk);
    if k < |events| {
      assert events[k..][0] == events[k];
    }
  }

  lemma {:induction false} PossiblePrefix(env: Env, w: World, events: seq<Event>, s: SessionData, k: nat)
    requires |w.peers| == MAXFDS && k <= |events| && Possible(env, w, events, s)
    ensures Possible(env, w, events[..k], s)
    decreases k
  {
    if k > 0 {
      assert events[..k][1..] == events[1..][..k - 1];
      StepKeepsPossible(env, w, events, s);
      PossiblePrefix(env, Step(env, w, events[0], s), events[1..], StepSession(env, w, events[0], s), k - 1);
    }
  }

  /** The whole run lies on the way from each of its events. */
  lemma RunIsLaterThanAt(env: Env, w: World, batches: seq<Batch>, b: nat, k: nat)
    requires |w.peers| == MAXFDS && b < |batches| && k <= |batches[b].events|
    ensures Later(At(env, w, batches, b, k), Run(env, w, batches[..b + 1]))
    ensures Later(Run(env, w, batches[..b + 1]), Run(env, w, batches))
  {
    var w0, events, junk := Run(env, w, batches[..b]), batches[b].events, batches[b].junk;
    BatchCut(env, w0, events, junk, k);
    BatchIsLater(env, At(env, w, batches, b, k), events[k..], SessionAt(env, w, batches, b, k));
    RunCut(env, w, batches[..b + 1], b);
    assert batches[..b + 1][..b] == batches[..b] && batches[..b + 1][b..] == [batches[b]];
    assert [batches[b]][1..] == [];
    assert Run(env, w0, [batches[b]]) == RunEvents(env, w0, events, junk);
    RunCut(env, w, batches, b + 1);
    RunIsLater(env, Run(env, w, batches[..b + 1]), batches[b + 1..]);
  }

  predicate Precedes(b: nat, k: nat, c: nat, l: nat) {
    b < c || (b == c && k < l)
  }

  /** A later event of the run is handled on the way from an earlier one. */
  lemma LaterEvent(env: Env, w: World, batches: seq<Batch>, b: nat, k: nat, c: nat, l: nat)
    requires |w.peers| == MAXFDS && b < |batches| && k < |batches[b].events|
    requires c < |batches| && l <= |batches[c].events| && Precedes(b, k, c, l)
    ensures Later(At(env, w, batches, b, k), At(env, w, batches, b, k + 1))
    ensures Later(At(env, w, batches, b, k + 1), At(env, w, batches, c, l))
  {
    AtStep(env, w, batches, b, k);
    StepIsLater(env, At(env, w, batches, b, k), batches[b].events[k], SessionAt(env, w, batches, b, k));
    var w0, events, junk := Run(env, w, batches[..c]), batches[c].events, batches[c].junk;
    if b == c {
      var head := events[..l];
      BatchCut(env, w0, head, junk, k + 1);
      assert head[..k + 1] == events[..k + 1];
      BatchIsLater(env, At(env, w, batches, b, k + 1), head[k + 1..], SessionAt(env, w, batches, b, k + 1));
    } else {
      var front := batches[..c];
      RunIsLaterThanAt(env, w, front, b, k + 1);
      assert front[..b] == batches[..b] && front[..b + 1] == batches[..b + 1];
      BatchIsLater(env, w0, events[..l], junk);
    }
  }

  // ---------- an agent's message and a UX peer's command ----------

  lemma BroughtIsHandled(env: Env, w: World, ev: Event, es: seq<Entry>, s: SessionData)
    requires Inv(env, w) && w.halt.None? && ev.fd in w.open && Brings(env, ev, es)
    ensures Step(env, w, ev, s).history == Handle(w, ev.fd, es, s).history
  {
    HandleKeepsInv(env, w, ev.fd, es, s);
  }

  /** A registration stays live over all later records that do not supersede it. */
  lemma RegistrationLasts(h: seq<Record>, h': seq<Record>, mac: string, i: int)
    requires LiveAt(h, mac, i) && h <= h'
    requires forall j :: |h| <= j < |h'| ==> !Supersedes(h'[j], h[i])
    ensures LiveAt(h', mac, i) && h'[i] == h[i]
  {
    assert forall j :: 0 <= j < |h| ==> h'[j] == h[j];
  }

  /** Two events of one run: event k of batch b brings an agent's message with a mac, and a later event
      l of batch c brings a UX command for it.  If nobody registered the mac in between and the
      agent's connection was not closed, the command goes, with its own fields, to exactly that
      connection on the fd the agent registered from, and the run's history says so. */
  lemma AgentReceivesItsCommand(env: Env, peers: seq<Peer>, batches: seq<Batch>, b: nat, k: nat, c: nat, l: nat,
                                agent: seq<Entry>, mac: string, ux: seq<Entry>, f: Fields)
    requires |peers| == MAXFDS && PossibleRun(env, Initial(peers), batches)
    requires b < |batches| && k < |batches[b].events| && c < |batches| && l < |batches[c].events|
    requires Precedes(b, k, c, l)
    requires Brings(env, batches[b].events[k], agent) && AgentTypeOf(agent) == ReqLinuxClaymore
    requires LastString(agent, "miner_mac") == Some(mac)
    requires Brings(env, batches[c].events[l], ux) && Carries(ux, f) && CString(f.mac) == CString(mac) != UX_SESSION
    requires At(env, Initial(peers), batches, c, l).halt.None?
    requires Undisturbed(At(env, Initial(peers), batches, b, k), At(env, Initial(peers), batches, c, l),
                         batches[b].events[k].fd, CString(mac))
    ensures var v, w := At(env, Initial(peers), batches, b, k), At(env, Initial(peers), batches, c, l);
            var from, to := batches[c].events[l].fd, batches[b].events[k].fd;
            && to in v.open && from in w.open
            && At(env, Initial(peers), batches, c, l + 1).history
               == w.history + [Registered(from, w.open[from].generation, UX_SESSION, ReqUx)]
                  + [Forwarded(w.open[from].generation, CString(mac), to, Some(v.open[to].generation), CommandFrom(f))]
            && At(env, Initial(peers), batches, c, l + 1).history <= Run(env, Initial(peers), batches).history
  {
    var w0 := Initial(peers);
    var v, w := At(env, w0, batches, b, k), At(env, w0, batches, c, l);
    var e1, e2 := batches[b].events[k], batches[c].events[l];
    var s, t := SessionAt(env, w0, batches, b, k), SessionAt(env, w0, batches, c, l);
    InitialInv(env, peers);
    AtKeepsInv(env, w0, batches, b, k);
    AtKeepsInv(env, w0, batches, c, l);
    LaterEvent(env, w0, batches, b, k, c, l);
    AtStep(env, w0, batches, b, k);
    AtStep(env, w0, batches, c, l);
    RunIsLaterThanAt(env, w0, batches, c, l + 1);
    BroughtIsHandled(env, v, e1, agent, s);
    BroughtIsHandled(env, w, e2, ux, t);
    AgentRegisters(env, v, e1.fd, agent, s, mac);
    var h := Handle(v, e1.fd, agent, s).history;
    RegistrationLasts(h, w.history, CString(mac), |v.history|);
    HolderGetsIt(env, w, e2.fd, ux, t, f, |v.history|);
  }

  /** Between `v` and `w` no record supersedes the registration that the peer on `fd` is making. */
  ghost predicate Undisturbed(v: World, w: World, fd: int, mac: string) {
    fd in v.open ==>
      forall j :: |v.history| < j < |w.history| ==>
        !Supersedes(w.history[j], Registered(fd, v.open[fd].generation, mac, ReqLinuxClaymore))
  }

  lemma HolderGetsIt(env: Env, w: World, fd: int, es: seq<Entry>, s: SessionData, f: Fields, i: nat)
    requires Inv(env, w) && fd in w.open && Carries(es, f) && CString(f.mac) != UX_SESSION
    requires LiveAt(w.history, CString(f.mac), i)
    ensures var me := w.open[fd].generation;
            Handle(w, fd, es, s).history
            == w.history + [Registered(fd, me, UX_SESSION, ReqUx)]
               + [Forwarded(me, CString(f.mac), w.history[i].fd, Some(w.history[i].generation), CommandFrom(f))]
  {
    var h := w.history + [Registered(fd, w.open[fd].generation, UX_SESSION, ReqUx)];
    assert LiveAt(h, CString(f.mac), i);
    CommandGoesToTheHolder(env, w, fd, es, s, f);
  }
}
