/** The epoll server itself, updating its state in place: src/main.c.  Every method is proved to do
    what the step machine of module Machine says. */
module Server {
  import opened Basics
  import opened Parse
  import opened PeerState
  import opened SessionTable
  import opened SocketRead
  import opened Machine
  import opened Routing

  /** One send call made to forward a command. */
  datatype Outgoing = Outgoing(target: int, command: Command)

  /** The send calls a history stands for. */
  function Sends(h: seq<Record>): seq<Outgoing> {
    if h == [] then []
    else
      var last := h[|h| - 1];
      Sends(h[..|h| - 1]) + if last.Forwarded? then [Outgoing(last.target, last.command)] else []
  }

  lemma SendsAppend(h: seq<Record>, e: Record)
    ensures Sends(h + [e]) == Sends(h) + if e.Forwarded? then [Outgoing(e.target, e.command)] else []
  {
    assert (h + [e])[..|h|] == h;
  }

  class EpollServer {
    const env: Env
    const globalState: array<Peer>
    const table: Table
    var interest: map<int, Status>
    var outbox: seq<Outgoing>
    ghost var world: World

    /** The real fields and the abstract state tell the same story. */
    ghost predicate Valid()
      reads this, globalState, table
    {
      && globalState.Length == MAXFDS && world.peers == globalState[..]
      && table.rows == world.table
      && interest.Keys == world.open.Keys
      && (forall fd :: fd in interest ==> interest[fd] == world.open[fd].interest)
      && outbox == Sends(world.history)
      && Inv(env, world)
    }

    /** The state in which main enters its loop; global_state is static storage. */
    constructor (env: Env)
      ensures Valid() && fresh(globalState) && fresh(table)
      ensures this.env == env && world == Initial(globalState[..])
    {
      this.env := env;
      globalState := new Peer[MAXFDS](_ => Peer(InitialAck, [], 0, 0));
      table := new Table();
      interest, outbox := map[], [];
      new;
      world := Initial(globalState[..]);
      InitialInv(env, globalState[..]);
    }

    /** on_peer_connected.  The C assertion fd < MAXFDS is the precondition. */
    method OnPeerConnected(fd: int) returns (status: Status)
      requires 0 <= fd < globalState.Length
      modifies globalState
      ensures globalState[..] == old(globalState[..])[fd := Reset(old(globalState[fd]))]
      ensures status == READ
    {
      globalState[fd] := globalState[fd].(state := InitialAck);
      globalState[fd] := globalState[fd].(sendptr := 0);
      globalState[fd] := globalState[fd].(sendbufEnd := SYNACK_LEN);
      status := READ;
    }

    /** on_peer_ready_send; `dies` when send fails for good. */
    method OnPeerReadySend(fd: int, answer: SendAnswer) returns (status: Status, dies: bool)
      requires 0 <= fd < globalState.Length
      modifies globalState
      ensures dies <==> ReadySend(old(globalState[fd]), answer).SendDies?
      ensures dies ==> globalState[..] == old(globalState[..])
      ensures !dies ==> var r := ReadySend(old(globalState[fd]), answer);
                        status == r.status && globalState[..] == old(globalState[..])[fd := r.peer]
    {
      var peer := globalState[fd];
      dies := false;
      if peer.sendptr >= peer.sendbufEnd {
        return READ_WRITE, false;
      }
      var sendlen := peer.sendbufEnd - peer.sendptr;
      match answer {
        case SendBlocked => status := WRITE;
        case SendError => status, dies := NEITHER, true;
        case Sent(nsent) =>
          if nsent < sendlen {
            globalState[fd] := peer.(sendptr := peer.sendptr + nsent);
            status := WRITE;
          } else {
            globalState[fd] := peer.(sendptr := 0, sendbufEnd := 0);
            if peer.state == InitialAck {
              globalState[fd] := globalState[fd].(state := WaitForMsg);
            }
            status := READ;
          }
      }
    }

    /** mysql_insert_fd on behalf of a peer. */
    method RegisterPeer(mac: string, fd: int, agentType: AgentType)
      requires Valid() && fd in world.open
      modifies this`world, table
      ensures Valid() && world == Register(old(world), fd, mac, agentType)
    {
      RegisterKeepsInv(env, world, fd, mac, agentType);
      SendsAppend(world.history, Registered(fd, world.open[fd].generation, mac, agentType));
      var _ := table.InsertFd(mac, fd, agentType);
      world := Register(world, fd, mac, agentType);
    }

    /** The REQ_UX case: register the UX session, look the mac up, forward the command. */
    method RouteCommand(fd: int, session: Session)
      requires Valid() && fd in world.open && session.fd == fd
      modifies this`world, this`outbox, table
      ensures Valid()
      ensures var w := Register(old(world), fd, UX_SESSION, ReqUx);
              world == if session.minerMac in w.table
                       then Forward(w, fd, session.minerMac, CommandOf(session.Contents())) else w
      ensures var rows := old(table.rows)["UX_SESSION" := Row(fd, ReqUx)];
              && table.rows == rows
              && outbox == old(outbox)
                           + if session.minerMac !in rows then []
                             else
                               var command :=
                                 Command(session.cmdType, session.path, session.sequence, session.pathInstall);
                               [Outgoing(rows[session.minerMac].fd, command)]
    {
      RegisterPeer(UX_SESSION, session.fd, ReqUx);
      var ret := table.SelectFd(session.minerMac);
      assert RowMatches(world, session.minerMac);
      if ret < 0 {
        // no live session for that mac
      } else {
        ForwardKeepsInv(env, world, fd, session.minerMac, CommandOf(session.Contents()));
        var command := Command(session.cmdType, session.path, session.sequence, session.pathInstall);
        outbox := outbox + [Outgoing(ret, command)];
        ghost var h := world.history;
        world := Forward(world, fd, session.minerMac, CommandOf(session.Contents()));
        SendsAppend(h, world.history[|h|]);
      }
    }

    /** on_peer_ready_recv; `halt` says why the process ended, if it did. */
    method OnPeerReadyRecv(fd: int, session: Session, recvs: seq<Answer>) returns (status: Status, halt: Option<Reason>)
      requires Valid() && fd in world.open
      modifies this`world, this`outbox, table, session
      ensures Valid()
      ensures Read(recvs) == PeerClosed ==> status == NEITHER && halt == None
      ensures Read(recvs) == Pending ==> status == READ && halt == None
      ensures Read(recvs) == Broken ==> halt == Some(RecvFailed)
      ensures Read(recvs).Message? ==>
                match env.tokener(CBytes(Read(recvs).data))
                case NotAnObject => halt == Some(NotJson)
                case Members(es) =>
                  && status == READ && halt == None && world == Handle(old(world), fd, es, old(session.Contents()))
                  && session.Contents() == SessionAfter(es, fd, old(session.Contents()))
      ensures !Read(recvs).Message? || env.tokener(CBytes(Read(recvs).data)).NotAnObject? ==>
                world == old(world) && session.Contents() == old(session.Contents())
    {
      var data, ret := Receive(recvs);
      status, halt := NEITHER, None;
      if data.None? {
        return;
      }
      if ret == -1 {
        return;
      } else if ret == -2 {
        status := READ;
        return;
      } else if ret == -3 {
        halt := Some(RecvFailed);
        return;
      }
      var document := env.tokener(CBytes(data.value));
      if document.NotAnObject? {
        halt := Some(NotJson);
        return;
      }
      var es := document.entries;
      var agentType := GetAgentType(es);
      if agentType == ReqUx {
        session.fd, session.agentType := fd, ReqUx;
        ParseJsonCmd(es, session);
        RouteCommand(fd, session);
      } else if agentType == ReqLinuxClaymore {
        session.fd, session.agentType := fd, ReqLinuxClaymore;
        ParseJsonAgent(es, session);
        RegisterPeer(session.minerMac, session.fd, ReqLinuxClaymore);
      }
      var readyToSend := false;
      status := Status(!readyToSend, readyToSend);
    }

    /** A connection is waiting on the listening socket. */
    method AcceptPeer(answer: AcceptAnswer) returns (halt: Option<Reason>)
      requires Valid() && world.halt.None?
      requires answer.NewSocket? ==> answer.newfd !in world.open && answer.newfd != env.listener
      modifies this, globalState
      ensures Valid() && world == StepAccept(old(world), answer) && halt == world.halt
    {
      halt := None;
      match answer {
        case NothingPending =>
        case AcceptError =>
          halt := Stop(AcceptFailed);
        case NewSocket(newfd) =>
          if newfd >= MAXFDS {
            halt := Stop(FdTooLarge);
          } else {
            ConnectKeepsInv(env, world, newfd);
            SendsAppend(world.history, Connected(newfd, world.nextGeneration));
            var status := OnPeerConnected(newfd);
            interest := interest[newfd := status];
            world := Connect(world, newfd);
          }
      }
    }

    /** Ending the process. */
    method Stop(reason: Reason) returns (halt: Option<Reason>)
      requires Valid() && reason != AssertFailed && reason != StaleFd
      modifies this`world
      ensures Valid() && world == Halt(old(world), reason) && halt == Some(reason)
    {
      HaltKeepsInv(env, world, reason);
      world := Halt(world, reason);
      halt := Some(reason);
    }

    /** The peer is gone: purge its rows, deregister it, close the descriptor. */
    method DropPeer(fd: int)
      requires Valid() && fd in world.open
      modifies this, table
      ensures Valid() && world == PurgeAndClose(old(world), fd)
    {
      ghost var g := world.open[fd].generation;
      PurgeAndCloseKeepsInv(env, world, fd);
      SendsAppend(world.history, Purged(fd, g));
      SendsAppend(world.history + [Purged(fd, g)], Closed(fd, g));
      table.DeleteFd(fd);
      interest := interest - {fd};
      world := PurgeAndClose(world, fd);
    }

    /** EPOLL_CTL_MOD. */
    method Rearm(fd: int, status: Status)
      requires Valid() && fd in world.open
      modifies this
      ensures Valid() && world == SetInterest(old(world), fd, status)
    {
      PlainChangeKeepsInv(env, world, SetInterest(world, fd, status));
      interest := interest[fd := status];
      world := SetInterest(world, fd, status);
    }

    /** A peer is ready for reading. */
    method ServeReader(ev: Event, session: Session) returns (halt: Option<Reason>)
      requires Valid() && world.halt.None? && ev.fd in world.open
      modifies this, table, session
      ensures Valid() && world == StepRecv(env, old(world), ev.fd, ev.recvs, old(session.Contents()))
      ensures halt == world.halt
      ensures var s := old(session.Contents());
              session.Contents() ==
                if Read(ev.recvs).Message? && env.tokener(CBytes(Read(ev.recvs).data)).Members?
                then SessionAfter(env.tokener(CBytes(Read(ev.recvs).data)).entries, ev.fd, s) else s
    {
      var status;
      status, halt := OnPeerReadyRecv(ev.fd, session, ev.recvs);
      if halt.Some? {
        halt := Stop(halt.value);
      } else {
        if status == NEITHER {
          DropPeer(ev.fd);
        } else {
          Rearm(ev.fd, status);
        }
      }
    }

    /** A peer is ready for writing. */
    method ServeWriter(ev: Event) returns (halt: Option<Reason>)
      requires Valid() && world.halt.None? && ev.fd in world.open
      modifies this, globalState
      ensures Valid() && world == StepSend(old(world), ev.fd, ev.sent) && halt == world.halt
    {
      var fd := ev.fd;
      ghost var w := world;
      var status, dies := OnPeerReadySend(fd, ev.sent);
      halt := None;
      if dies {
        halt := Some(SendFailed);
      } else if status == NEITHER {
        // the close without a purge: no status of OnPeerReadySend leads here
        assert false;
      } else {
        interest := interest[fd := status];
      }
      PlainChangeKeepsInv(env, w, StepSend(w, fd, ev.sent));
      world := StepSend(w, fd, ev.sent);
    }

    /** One turn of the batch loop. */
    method HandleEvent(ev: Event, session: Session) returns (halt: Option<Reason>)
      requires Valid() && world.halt.None? && AcceptIsFresh(env, world, ev)
      requires ev.fd == env.listener || ev.fd in world.open
      modifies this, globalState, table, session
      ensures Valid() && world == Step(env, old(world), ev, old(session.Contents())) && halt == world.halt
      ensures session.Contents() == StepSession(env, old(world), ev, old(session.Contents()))
    {
      halt := None;
      if ev.err {
        halt := Stop(EpollError);
      } else if ev.fd == env.listener {
        halt := AcceptPeer(ev.accepted);
      } else if ev.readable {
        halt := ServeReader(ev, session);
      } else if ev.writable {
        halt := ServeWriter(ev);
      }
    }

    /** One round of the outer loop: a session is allocated and shared by the events of the batch. */
    method HandleBatch(batch: Batch) returns (halt: Option<Reason>)
      requires Valid() && world.halt.None? && Possible(env, world, batch.events, batch.junk)
      modifies this, globalState, table
      ensures Valid() && world == RunEvents(env, old(world), batch.events, batch.junk) && halt == world.halt
    {
      var session := new Session(batch.junk);
      var events := batch.events;
      halt := None;
      ghost var result := RunEvents(env, world, events, batch.junk);
      for i := 0 to |events|
        invariant Valid() && halt == world.halt == None
        invariant Possible(env, world, events[i..], session.Contents())
        invariant RunEvents(env, world, events[i..], session.Contents()) == result
      {
        assert events[i..][1..] == events[i + 1..];
        StepKeepsPossible(env, world, events[i..], session.Contents());
        halt := HandleEvent(events[i], session);
        if halt.Some? {
          HaltedStays(env, world, events[i + 1..], session.Contents());
          return;
        }
      }
    }

    /** The main loop over every batch the kernel hands out. */
    method Serve(batches: seq<Batch>) returns (halt: Option<Reason>)
      requires Valid() && world.halt.None? && PossibleRun(env, world, batches)
      modifies this, globalState, table
      ensures Valid() && world == Run(env, old(world), batches) && halt == world.halt
    {
      halt := None;
      ghost var result := Run(env, world, batches);
      for i := 0 to |batches|
        invariant Valid() && halt == world.halt == None
        invariant PossibleRun(env, world, batches[i..])
        invariant Run(env, world, batches[i..]) == result
      {
        assert batches[i..][1..] == batches[i + 1..];
        halt := HandleBatch(batches[i]);
        if halt.Some? {
          HaltedRunStays(env, world, batches[i + 1..]);
          return;
        }
      }
    }
  }
}
