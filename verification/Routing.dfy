/** What every run of the server keeps: the session table is the history read backwards, and no
    command reaches a peer other than the one that registered the mac. */
module Routing {
  import opened Basics
  import opened Json
  import opened Parse
  import opened PeerState
  import opened SessionTable
  import opened SocketRead
  import opened Machine

  // ---------- the table as a full scan of the history ----------

  /** Does `e` end the registration `r`: a newer registration of the mac, or the end of the connection? */
  predicate Supersedes(e: Record, r: Record)
    requires r.Registered?
  {
    (e.Registered? && e.mac == r.mac) || (e.Closed? && e.generation == r.generation)
  }

  /** Record i is the last registration of `mac`, and its connection has not closed since. */
  ghost predicate LiveAt(h: seq<Record>, mac: string, i: int) {
    && 0 <= i < |h| && h[i].Registered? && h[i].mac == mac
    && forall j :: i < j < |h| ==> !Supersedes(h[j], h[i])
  }

  /** The live registration of `mac`, found by scanning the whole history. */
  function Scan(h: seq<Record>, mac: string): (r: Option<nat>)
    ensures r.Some? ==> LiveAt(h, mac, r.value)
    ensures r.None? ==> forall i :: !LiveAt(h, mac, i)
  {
    if h == [] then None
    else
      var n := |h| - 1;
      assert forall i :: 0 <= i < n && LiveAt(h, mac, i) ==> LiveAt(h[..n], mac, i);
      if h[n].Registered? && h[n].mac == mac then Some(n)
      else
        var r := Scan(h[..n], mac);
        if r.Some? && Supersedes(h[n], h[r.value]) then None else r
  }

  /** There is at most one live registration, and the scan finds it. */
  lemma ScanFindsTheLive(h: seq<Record>, mac: string, i: int)
    requires LiveAt(h, mac, i)
    ensures Scan(h, mac) == Some(i)
  {
  }

  /** One more record changes the scan as follows. */
  lemma ScanAppend(h: seq<Record>, e: Record, mac: string)
    ensures Scan(h + [e], mac) ==
            if e.Registered? && e.mac == mac then Some(|h|)
            else if Scan(h, mac).Some? && Supersedes(e, h[Scan(h, mac).value]) then None
            else Scan(h, mac)
  {
    assert (h + [e])[..|h|] == h;
  }

  /** The row of `mac` is its live registration, made by the connection now open on that fd. */
  ghost predicate RowMatches(w: World, mac: string) {
    var r := Scan(w.history, mac);
    if r.None? then mac !in w.table
    else
      var reg := w.history[r.value];
      && mac in w.table && w.table[mac] == Row(reg.fd, reg.agentType)
      && reg.fd in w.open && w.open[reg.fd].generation == reg.generation
  }

  // ---------- the history itself ----------

  /** The command forwarded at record i went to the connection that had the live registration then. */
  ghost predicate RoutedAt(h: seq<Record>, i: nat)
    requires i < |h| && h[i].Forwarded?
  {
    var r := Scan(h[..i], h[i].mac);
    r.Some? && h[i].target == h[r.value].fd && h[i].recipient == Some(h[r.value].generation)
  }

  ghost predicate AllRouted(h: seq<Record>) {
    forall i :: 0 <= i < |h| && h[i].Forwarded? ==> RoutedAt(h, i)
  }

  /** Every close comes right after the purge of that connection's rows. */
  ghost predicate AllClosesPurged(h: seq<Record>) {
    forall i :: 0 <= i < |h| && h[i].Closed? ==> i > 0 && h[i - 1] == Purged(h[i].fd, h[i].generation)
  }

  lemma AppendKeepsHistory(h: seq<Record>, e: Record)
    requires AllRouted(h) && AllClosesPurged(h)
    requires e.Forwarded? ==> RoutedAt(h + [e], |h|)
    requires e.Closed? ==> h != [] && h[|h| - 1] == Purged(e.fd, e.generation)
    ensures AllRouted(h + [e]) && AllClosesPurged(h + [e])
  {
    forall i | 0 <= i < |h| && (h + [e])[i].Forwarded?
      ensures RoutedAt(h + [e], i)
    {
      assert RoutedAt(h, i);
      assert (h + [e])[..i] == h[..i];
    }
  }

  // ---------- the invariant ----------

  ghost predicate OpenPeers(env: Env, w: World) {
    && (forall fd :: fd in w.open ==>
          0 <= fd < MAXFDS && fd != env.listener && w.open[fd].generation < w.nextGeneration)
    && (forall f, g :: f in w.open && g in w.open && w.open[f].generation == w.open[g].generation ==> f == g)
  }

  ghost predicate Inv(env: Env, w: World) {
    && |w.peers| == MAXFDS
    && OpenPeers(env, w)
    && (forall mac :: RowMatches(w, mac))
    && AllRouted(w.history) && AllClosesPurged(w.history)
    && w.halt != Some(AssertFailed) && w.halt != Some(StaleFd)
  }

  lemma InitialInv(env: Env, peers: seq<Peer>)
    requires |peers| == MAXFDS
    ensures Inv(env, Initial(peers))
  {
  }

  lemma ConnectKeepsInv(env: Env, w: World, fd: int)
    requires Inv(env, w) && 0 <= fd < MAXFDS && fd !in w.open && fd != env.listener
    ensures Inv(env, Connect(w, fd))
  {
    var w', e := Connect(w, fd), Connected(fd, w.nextGeneration);
    AppendKeepsHistory(w.history, e);
    forall mac ensures RowMatches(w', mac) {
      assert RowMatches(w, mac);
      ScanAppend(w.history, e, mac);
    }
  }

  lemma RegisterKeepsInv(env: Env, w: World, fd: int, mac: string, t: AgentType)
    requires Inv(env, w) && fd in w.open
    ensures Inv(env, Register(w, fd, mac, t))
  {
    var w', e := Register(w, fd, mac, t), Registered(fd, w.open[fd].generation, mac, t);
    AppendKeepsHistory(w.history, e);
    forall m ensures RowMatches(w', m) {
      assert RowMatches(w, m);
      ScanAppend(w.history, e, m);
    }
  }

  lemma ForwardKeepsInv(env: Env, w: World, fd: int, mac: string, command: Command)
    requires Inv(env, w) && fd in w.open && mac in w.table
    ensures Inv(env, Forward(w, fd, mac, command))
  {
    var w' := Forward(w, fd, mac, command);
    var e := w'.history[|w.history|];
    assert RowMatches(w, mac);
    assert (w.history + [e])[..|w.history|] == w.history;
    AppendKeepsHistory(w.history, e);
    forall m ensures RowMatches(w', m) {
      assert RowMatches(w, m);
      ScanAppend(w.history, e, m);
    }
  }

  lemma PurgeAndCloseKeepsInv(env: Env, w: World, fd: int)
    requires Inv(env, w) && fd in w.open
    ensures Inv(env, PurgeAndClose(w, fd))
  {
    var w', g := PurgeAndClose(w, fd), w.open[fd].generation;
    var h := w.history + [Purged(fd, g)];
    AppendKeepsHistory(w.history, Purged(fd, g));
    AppendKeepsHistory(h, Closed(fd, g));
    forall mac ensures RowMatches(w', mac) {
      assert RowMatches(w, mac);
      ScanAppend(w.history, Purged(fd, g), mac);
      ScanAppend(h, Closed(fd, g), mac);
    }
  }

  lemma HandleKeepsInv(env: Env, w: World, fd: int, es: seq<Entry>, s: SessionData)
    requires Inv(env, w) && fd in w.open
    ensures Inv(env, Handle(w, fd, es, s)) && Handle(w, fd, es, s).open == w.open
  {
    var s' := SessionAfter(es, fd, s);
    if AgentTypeOf(es) == ReqUx {
      var w' := Register(w, fd, UX_SESSION, ReqUx);
      RegisterKeepsInv(env, w, fd, UX_SESSION, ReqUx);
      if s'.minerMac in w'.table {
        ForwardKeepsInv(env, w', fd, s'.minerMac, CommandOf(s'));
      }
    } else if AgentTypeOf(es) == ReqLinuxClaymore {
      RegisterKeepsInv(env, w, fd, s'.minerMac, ReqLinuxClaymore);
    }
  }

  /** Interest and per-fd state play no part in routing. */
  lemma PlainChangeKeepsInv(env: Env, w: World, w': World)
    requires Inv(env, w) && w'.table == w.table && w'.history == w.history && w'.nextGeneration == w.nextGeneration
    requires |w'.peers| == MAXFDS && w'.open.Keys == w.open.Keys
    requires forall fd :: fd in w.open ==> w'.open[fd].generation == w.open[fd].generation
    requires w'.halt != Some(AssertFailed) && w'.halt != Some(StaleFd)
    ensures Inv(env, w')
  {
    assert forall fd :: fd in w'.open <==> fd in w.open;
    forall mac ensures RowMatches(w', mac) {
      assert RowMatches(w, mac);
    }
  }

  lemma HaltKeepsInv(env: Env, w: World, reason: Reason)
    requires Inv(env, w) && reason != AssertFailed && reason != StaleFd
    ensures Inv(env, Halt(w, reason))
  {
    PlainChangeKeepsInv(env, w, Halt(w, reason));
  }

  lemma StepKeepsInv(env: Env, w: World, ev: Event, s: SessionData)
    requires Inv(env, w) && AcceptIsFresh(env, w, ev)
    requires w.halt.None? ==> ev.fd == env.listener || ev.fd in w.open
    ensures Inv(env, Step(env, w, ev, s))
  {
    var w' := Step(env, w, ev, s);
    if w.halt.Some? {
    } else if w'.halt.Some? {
      PlainChangeKeepsInv(env, w, w');
    } else if ev.fd == env.listener {
      if ev.accepted.NewSocket? {
        ConnectKeepsInv(env, w, ev.accepted.newfd);
      }
    } else if ev.readable {
      var d := Delivered(env, w, ev);
      if d.Some? {
        HandleKeepsInv(env, w, ev.fd, d.value, s);
        PlainChangeKeepsInv(env, Handle(w, ev.fd, d.value, s), w');
      } else if Read(ev.recvs).PeerClosed? {
        PurgeAndCloseKeepsInv(env, w, ev.fd);
      } else {
        PlainChangeKeepsInv(env, w, w');
      }
    } else if ev.writable {
      PlainChangeKeepsInv(env, w, w');
    }
  }

  // ---------- batches: fd reuse inside one batch ----------

  /** An event leaves every other registered connection exactly as it was. */
  lemma StepSparesOthers(env: Env, w: World, ev: Event, s: SessionData, fd: int)
    requires |w.peers| == MAXFDS && fd in w.open && fd != ev.fd && AcceptIsFresh(env, w, ev)
    ensures fd in Step(env, w, ev, s).open && Step(env, w, ev, s).open[fd] == w.open[fd]
  {
  }

  lemma StepKeepsPossible(env: Env, w: World, events: seq<Event>, s: SessionData)
    requires |w.peers| == MAXFDS && events != [] && Possible(env, w, events, s)
    ensures Possible(env, Step(env, w, events[0], s), events[1..], StepSession(env, w, events[0], s))
    ensures AcceptIsFresh(env, w, events[0])
    ensures w.halt.None? ==> events[0].fd == env.listener || events[0].fd in w.open
  {
    var w' := Step(env, w, events[0], s);
    if w'.halt.None? {
      forall i | 0 <= i < |events[1..]|
        ensures events[1..][i].fd == env.listener || events[1..][i].fd in w'.open
      {
        var ev := events[i + 1];
        if ev.fd != env.listener {
          StepSparesOthers(env, w, events[0], s, ev.fd);
        }
      }
    }
  }

  /** The state in which event k of a batch is handled. */
  function StateAt(env: Env, w: World, events: seq<Event>, s: SessionData, k: nat): (w': World)
    requires |w.peers| == MAXFDS && k <= |events|
    ensures |w'.peers| == MAXFDS
  {
    RunEvents(env, w, events[..k], s)
  }

  /** However earlier events of the batch closed descriptors and accepts reused their numbers, event
      k finds the very connection that was registered when the batch was taken, untouched. */
  lemma {:induction false} BatchMeetsItsConnections(env: Env, w: World, events: seq<Event>, s: SessionData, k: nat)
    requires |w.peers| == MAXFDS && Possible(env, w, events, s) && w.halt.None? && k < |events|
    requires events[k].fd != env.listener
    ensures var fd, w' := events[k].fd, StateAt(env, w, events, s, k);
            fd in w.open && fd in w'.open && w'.open[fd] == w.open[fd]
    decreases k
  {
    if k > 0 {
      var w1, s1 := Step(env, w, events[0], s), StepSession(env, w, events[0], s);
      StepKeepsPossible(env, w, events, s);
      StepSparesOthers(env, w, events[0], s, events[k].fd);
      assert events[..k][1..] == events[1..][..k - 1];
      if w1.halt.None? {
        BatchMeetsItsConnections(env, w1, events[1..], s1, k - 1);
      } else {
        HaltedStays(env, w1, events[1..][..k - 1], s1);
      }
    }
  }

  lemma {:induction false} HaltedStays(env: Env, w: World, events: seq<Event>, s: SessionData)
    requires |w.peers| == MAXFDS && w.halt.Some?
    ensures RunEvents(env, w, events, s) == w
    decreases |events|
  {
    if events != [] {
      HaltedStays(env, w, events[1..], s);
    }
  }

  lemma {:induction false} HaltedRunStays(env: Env, w: World, batches: seq<Batch>)
    requires |w.peers| == MAXFDS && w.halt.Some?
    ensures Run(env, w, batches) == w
    decreases |batches|
  {
    if batches != [] {
      HaltedStays(env, w, batches[0].events, batches[0].junk);
      HaltedRunStays(env, w, batches[1..]);
    }
  }

  // ---------- every run ----------

  lemma {:induction false} BatchKeepsInv(env: Env, w: World, events: seq<Event>, s: SessionData)
    requires Inv(env, w) && Possible(env, w, events, s)
    ensures Inv(env, RunEvents(env, w, events, s))
    decreases |events|
  {
    if events != [] {
      StepKeepsPossible(env, w, events, s);
      StepKeepsInv(env, w, events[0], s);
      BatchKeepsInv(env, Step(env, w, events[0], s), events[1..], StepSession(env, w, events[0], s));
    }
  }

  lemma {:induction false} RunKeepsInv(env: Env, w: World, batches: seq<Batch>)
    requires Inv(env, w) && PossibleRun(env, w, batches)
    ensures Inv(env, Run(env, w, batches))
    decreases |batches|
  {
    if batches != [] {
      BatchKeepsInv(env, w, batches[0].events, batches[0].junk);
      RunKeepsInv(env, RunEvents(env, w, batches[0].events, batches[0].junk), batches[1..]);
    }
  }
}
