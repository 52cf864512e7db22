/** The server as a step machine: the open peers with their epoll interest, the per-fd state, the
    session table, and a record of everything that happened.  src/main.c. */
module Machine {
  import opened Basics
  import opened Json
  import opened Parse
  import opened PeerState
  import opened SessionTable
  import opened SocketRead

  const MAXFDS := 16 * 1024
  const UX_SESSION := "UX_SESSION"

  /** What stays fixed over a run: the listening socket and the JSON tokener. */
  datatype Env = Env(listener: int, tokener: seq<byte> -> Document)

  /** An open, epoll-registered peer.  The generation tells apart successive peers on one fd number. */
  datatype Connection = Connection(generation: nat, interest: Status)

  /** The arguments of a forwarded command. */
  datatype Command = Command(cmdType: string, path: string, sequence: int, pathInstall: Option<string>)

  datatype Record =
    | Connected(fd: int, generation: nat)
    | Registered(fd: int, generation: nat, mac: string, agentType: AgentType)
    | Forwarded(sender: nat, mac: string, target: int, recipient: Option<nat>, command: Command)
    | Purged(fd: int, generation: nat)
    | Closed(fd: int, generation: nat)

  /** Why the process ended. */
  datatype Reason = EpollError | AcceptFailed | FdTooLarge | AssertFailed | StaleFd | RecvFailed | NotJson | SendFailed

  datatype World = World(
    open: map<int, Connection>, peers: seq<Peer>, table: Rows,
    nextGeneration: nat, history: seq<Record>, halt: Option<Reason>)

  datatype AcceptAnswer = NewSocket(newfd: nat) | NothingPending | AcceptError

  /** One entry of an epoll_wait batch, with the kernel's answers to the calls its handling makes. */
  datatype Event = Event(
    fd: int, err: bool, readable: bool, writable: bool,
    accepted: AcceptAnswer, recvs: seq<Answer>, sent: SendAnswer)

  // ---------- the elementary effects ----------

  function Halt(w: World, reason: Reason): World {
    w.(halt := Some(reason))
  }

  function SetInterest(w: World, fd: int, status: Status): World
    requires fd in w.open
  {
    w.(open := w.open[fd := w.open[fd].(interest := status)])
  }

  /** accept, on_peer_connected and EPOLL_CTL_ADD. */
  function Connect(w: World, fd: int): World
    requires 0 <= fd < |w.peers|
  {
    w.(open := w.open[fd := Connection(w.nextGeneration, READ)],
       peers := w.peers[fd := Reset(w.peers[fd])],
       nextGeneration := w.nextGeneration + 1,
       history := w.history + [Connected(fd, w.nextGeneration)])
  }

  /** mysql_insert_fd on behalf of the peer on `fd`. */
  function Register(w: World, fd: int, mac: string, agentType: AgentType): World
    requires fd in w.open
  {
    w.(table := w.table[mac := Row(fd, agentType)],
       history := w.history + [Registered(fd, w.open[fd].generation, mac, agentType)])
  }

  /** send on the fd stored under `mac`: the bytes reach whatever connection has that fd now. */
  function Forward(w: World, fd: int, mac: string, command: Command): World
    requires fd in w.open && mac in w.table
  {
    var target := w.table[mac].fd;
    var recipient := if target in w.open then Some(w.open[target].generation) else None;
    w.(history := w.history + [Forwarded(w.open[fd].generation, mac, target, recipient, command)])
  }

  /** The read-side close: mysql_delete_fd, EPOLL_CTL_DEL, close. */
  function PurgeAndClose(w: World, fd: int): World
    requires fd in w.open
  {
    var purged := w.(table := Purge(w.table, fd), history := w.history + [Purged(fd, w.open[fd].generation)]);
    Close(purged, fd)
  }

  /** EPOLL_CTL_DEL and close alone, as on the write side. */
  function Close(w: World, fd: int): World
    requires fd in w.open
  {
    w.(open := w.open - {fd}, history := w.history + [Closed(fd, w.open[fd].generation)])
  }

  // ---------- one message ----------

  /** The session after the message has been parsed into it. */
  function SessionAfter(es: seq<Entry>, fd: int, s: SessionData): SessionData {
    match AgentTypeOf(es)
    case ReqUx => CmdFields(es, s.(fd := fd, agentType := ReqUx))
    case ReqLinuxClaymore => AgentFields(es, s.(fd := fd, agentType := ReqLinuxClaymore))
    case _ => s
  }

  function CommandOf(s: SessionData): Command {
    Command(s.cmdType, s.path, s.sequence, s.pathInstall)
  }

  /** The effect of a decoded message from the peer on `fd`. */
  function Handle(w: World, fd: int, es: seq<Entry>, s: SessionData): World
    requires fd in w.open
  {
    var s' := SessionAfter(es, fd, s);
    match AgentTypeOf(es)
    case ReqUx =>
      var w' := Register(w, s'.fd, UX_SESSION, ReqUx);
      if s'.minerMac in w'.table then Forward(w', fd, s'.minerMac, CommandOf(s')) else w'
    case ReqLinuxClaymore => Register(w, s'.fd, s'.minerMac, ReqLinuxClaymore)
    case _ => w
  }

  // ---------- one event ----------

  /** What the read side does with the status its callback returned. */
  function AfterRecv(w: World, fd: int, status: Status): World
    requires fd in w.open
  {
    if status == NEITHER then PurgeAndClose(w, fd) else SetInterest(w, fd, status)
  }

  function StepRecv(env: Env, w: World, fd: int, recvs: seq<Answer>, s: SessionData): World {
    if !(0 <= fd < MAXFDS) then Halt(w, AssertFailed)
    else if fd !in w.open then Halt(w, StaleFd)
    else match Read(recvs)
      case PeerClosed => AfterRecv(w, fd, NEITHER)
      case Pending => AfterRecv(w, fd, READ)
      case Broken => Halt(w, RecvFailed)
      case Message(data) =>
        match env.tokener(CBytes(data))
        case NotAnObject => Halt(w, NotJson)
        case Members(es) => AfterRecv(Handle(w, fd, es, s), fd, READ)
  }

  function StepSend(w: World, fd: int, answer: SendAnswer): World
    requires |w.peers| == MAXFDS
  {
    if !(0 <= fd < MAXFDS) then Halt(w, AssertFailed)
    else if fd !in w.open then Halt(w, StaleFd)
    else match ReadySend(w.peers[fd], answer)
      case SendDies => Halt(w, SendFailed)
      case SendResult(peer, status) =>
        var w' := w.(peers := w.peers[fd := peer]);
        if status == NEITHER then Close(w', fd) else SetInterest(w', fd, status)
  }

  function StepAccept(w: World, answer: AcceptAnswer): World
    requires |w.peers| == MAXFDS
  {
    match answer
    case NothingPending => w
    case AcceptError => Halt(w, AcceptFailed)
    case NewSocket(fd) => if fd >= MAXFDS then Halt(w, FdTooLarge) else Connect(w, fd)
  }

  /** One turn of the batch loop, with `s` in the shared session. */
  function Step(env: Env, w: World, ev: Event, s: SessionData): (w': World)
    requires |w.peers| == MAXFDS
    ensures |w'.peers| == MAXFDS
  {
    if w.halt.Some? then w
    else if ev.err then Halt(w, EpollError)
    else if ev.fd == env.listener then StepAccept(w, ev.accepted)
    else if ev.readable then StepRecv(env, w, ev.fd, ev.recvs, s)
    else if ev.writable then StepSend(w, ev.fd, ev.sent)
    else w
  }

  /** The message an event delivers to the parsers, if any. */
  function Delivered(env: Env, w: World, ev: Event): Option<seq<Entry>> {
    if w.halt.None? && !ev.err && ev.fd != env.listener && ev.readable
       && 0 <= ev.fd < MAXFDS && ev.fd in w.open && Read(ev.recvs).Message?
    then match env.tokener(CBytes(Read(ev.recvs).data))
      case NotAnObject => None
      case Members(es) => Some(es)
    else None
  }

  /** The shared session after an event. */
  function StepSession(env: Env, w: World, ev: Event, s: SessionData): SessionData {
    var d := Delivered(env, w, ev);
    if d.Some? then SessionAfter(d.value, ev.fd, s) else s
  }

  // ---------- runs ----------

  /** One batch, one session shared by all its events. */
  function RunEvents(env: Env, w: World, events: seq<Event>, s: SessionData): (w': World)
    requires |w.peers| == MAXFDS
    ensures |w'.peers| == MAXFDS
    decreases |events|
  {
    if events == [] then w
    else RunEvents(env, Step(env, w, events[0], s), events[1..], StepSession(env, w, events[0], s))
  }

  /** A batch and the uninitialised contents of the session allocated for it. */
  datatype Batch = Batch(junk: SessionData, events: seq<Event>)

  function Run(env: Env, w: World, batches: seq<Batch>): (w': World)
    requires |w.peers| == MAXFDS
    ensures |w'.peers| == MAXFDS
    decreases |batches|
  {
    if batches == [] then w
    else Run(env, RunEvents(env, w, batches[0].events, batches[0].junk), batches[1..])
  }

  /** The state main starts its loop in; the table starts empty. */
  function Initial(peers: seq<Peer>): World {
    World(map[], peers, map[], 0, [], None)
  }

  // ---------- what is assumed of the kernel ----------

  /** accept hands out a descriptor that is not open. */
  ghost predicate AcceptIsFresh(env: Env, w: World, ev: Event) {
    ev.fd == env.listener && ev.accepted.NewSocket? ==>
      ev.accepted.newfd !in w.open && ev.accepted.newfd != env.listener
  }

  ghost predicate AcceptsAreFresh(env: Env, w: World, events: seq<Event>, s: SessionData)
    requires |w.peers| == MAXFDS
    decreases |events|
  {
    events == [] ||
    (&& AcceptIsFresh(env, w, events[0])
     && AcceptsAreFresh(env, Step(env, w, events[0], s), events[1..], StepSession(env, w, events[0], s)))
  }

  /** epoll_wait names only registered descriptors, ... */
  ghost predicate NamesRegistered(env: Env, w: World, events: seq<Event>) {
    forall i :: 0 <= i < |events| ==> events[i].fd == env.listener || events[i].fd in w.open
  }

  /** ... each at most once. */
  ghost predicate NamesDistinct(events: seq<Event>) {
    forall i, j :: 0 <= i < |events| && 0 <= j < |events| && events[i].fd == events[j].fd ==> i == j
  }

  /** A batch the kernel can hand out in state `w`.  Nothing is assumed about the event bits: a
      peer may turn up readable or writable whatever interest was asked for. */
  ghost predicate Possible(env: Env, w: World, events: seq<Event>, s: SessionData)
    requires |w.peers| == MAXFDS
  {
    (w.halt.None? ==> NamesRegistered(env, w, events)) && NamesDistinct(events) && AcceptsAreFresh(env, w, events, s)
  }

  ghost predicate PossibleRun(env: Env, w: World, batches: seq<Batch>)
    requires |w.peers| == MAXFDS
    decreases |batches|
  {
    batches == [] ||
    (&& Possible(env, w, batches[0].events, batches[0].junk)
     && PossibleRun(env, RunEvents(env, w, batches[0].events, batches[0].junk), batches[1..]))
  }
}
