/** The per-fd state and the write side of the connection protocol: src/main.c. */
module PeerState {
  import opened Basics

  const SYNACK_LEN := 8

  datatype ProcessingState = InitialAck | WaitForMsg | InMsg

  datatype Peer = Peer(state: ProcessingState, sendData: seq<byte>, sendbufEnd: int, sendptr: int)

  /** What a callback asks of the main loop; neither bit set means: close. */
  datatype Status = Status(wantRead: bool, wantWrite: bool)

  const READ := Status(true, false)
  const WRITE := Status(false, true)
  const READ_WRITE := Status(true, true)
  const NEITHER := Status(false, false)

  /** The answer of send: a byte count, EAGAIN/EWOULDBLOCK, or another error. */
  datatype SendAnswer = Sent(count: nat) | SendBlocked | SendError

  /** on_peer_connected: three fields are reset, the send_data pointer is not. */
  function Reset(p: Peer): (r: Peer)
    ensures Observable(r) == (InitialAck, 0, 8) && r.sendData == p.sendData
  {
    p.(state := InitialAck, sendptr := 0, sendbufEnd := SYNACK_LEN)
  }

  datatype SendResult = SendResult(peer: Peer, status: Status) | SendDies

  /** on_peer_ready_send.  Whatever its state, a peer is never told to close from the write side. */
  function ReadySend(p: Peer, answer: SendAnswer): (r: SendResult)
    ensures r.SendResult? ==> r.status != NEITHER && r.peer.sendData == p.sendData
  {
    if p.sendptr >= p.sendbufEnd then SendResult(p, READ_WRITE)
    else
      var sendlen := p.sendbufEnd - p.sendptr;
      match answer
      case SendBlocked => SendResult(p, WRITE)
      case SendError => SendDies
      case Sent(count) =>
        if count < sendlen then SendResult(p.(sendptr := p.sendptr + count), WRITE)
        else SendResult(p.(sendptr := 0, sendbufEnd := 0,
                           state := if p.state == InitialAck then WaitForMsg else p.state), READ)
  }

  /** Everything the server ever reads of a peer's state. */
  function Observable(p: Peer): (ProcessingState, int, int) {
    (p.state, p.sendptr, p.sendbufEnd)
  }

  // ---------- the acknowledgement protocol over every sequence of answers ----------

  /** The kernel never accepts more than it was offered, and a fatal error ends the process. */
  ghost predicate Plausible(p: Peer, answers: seq<SendAnswer>)
    decreases |answers|
  {
    answers == [] ||
    (&& !ReadySend(p, answers[0]).SendDies?
     && (answers[0].Sent? && p.sendptr < p.sendbufEnd ==> answers[0].count <= p.sendbufEnd - p.sendptr)
     && Plausible(ReadySend(p, answers[0]).peer, answers[1..]))
  }

  /** The peer after a run of write-ready calls; an error ends the process. */
  function After(p: Peer, answers: seq<SendAnswer>): Peer
    decreases |answers|
  {
    if answers == [] || ReadySend(p, answers[0]).SendDies? then p
    else After(ReadySend(p, answers[0]).peer, answers[1..])
  }

  /** How many bytes one call hands over; a call with nothing to send sends nothing. */
  function Taken(p: Peer, answer: SendAnswer): nat {
    if answer.Sent? && p.sendptr < p.sendbufEnd then answer.count else 0
  }

  /** How many bytes the kernel accepted over that run. */
  function Accepted(p: Peer, answers: seq<SendAnswer>): nat
    decreases |answers|
  {
    if answers == [] || ReadySend(p, answers[0]).SendDies? then 0
    else Taken(p, answers[0]) + Accepted(ReadySend(p, answers[0]).peer, answers[1..])
  }

  /** `p` is a peer of which `sent` of the SYNACK_LEN bytes have been accepted. */
  ghost predicate Progress(p: Peer, sent: int) {
    if sent < SYNACK_LEN then p.state == InitialAck && p.sendptr == sent && p.sendbufEnd == SYNACK_LEN
    else sent == SYNACK_LEN && p.state == WaitForMsg && p.sendptr == 0 && p.sendbufEnd == 0
  }

  lemma {:induction false} ProgressAfter(p: Peer, sent: nat, answers: seq<SendAnswer>)
    requires Progress(p, sent) && Plausible(p, answers)
    ensures Progress(After(p, answers), sent + Accepted(p, answers))
    decreases |answers|
  {
    if answers != [] {
      var q := ReadySend(p, answers[0]).peer;
      var n := Taken(p, answers[0]);
      assert Progress(q, sent + n);
      ProgressAfter(q, sent + n, answers[1..]);
    }
  }

  /** From any connect, after every plausible run of answers: the pointers stay ordered, the count
      accepted so far is the send pointer until it reaches SYNACK_LEN, and INITIAL_ACK is left
      exactly when all SYNACK_LEN bytes are out and never re-entered.  The next call then answers
      W while bytes are still missing, R exactly on the call that completes them, RW afterwards;
      it never asks for a close, and a positive partial send strictly shrinks what is left. */
  lemma AckProtocol(before: Peer, answers: seq<SendAnswer>, next: SendAnswer)
    requires Plausible(Reset(before), answers) && Plausible(After(Reset(before), answers), [next])
    ensures var p, sent := After(Reset(before), answers), Accepted(Reset(before), answers);
            && 0 <= p.sendptr <= p.sendbufEnd && sent <= SYNACK_LEN
            && (p.state == InitialAck <==> sent < SYNACK_LEN) && (p.state == WaitForMsg <==> sent == SYNACK_LEN)
            && (sent < SYNACK_LEN ==> p.sendptr == sent)
            && var n := if next.Sent? && sent < SYNACK_LEN then next.count else 0;
               var r := ReadySend(p, next);
               && (r.status == WRITE <==> sent + n < SYNACK_LEN)
               && (r.status == READ <==> sent < SYNACK_LEN && sent + n == SYNACK_LEN)
               && (r.status == READ_WRITE <==> sent == SYNACK_LEN)
               && Progress(r.peer, sent + n)
               && (n > 0 ==> r.peer.sendbufEnd - r.peer.sendptr < p.sendbufEnd - p.sendptr)
  {
    ProgressAfter(Reset(before), 0, answers);
  }

  // ---------- what the peer receives ----------

  /** The bytes on the wire: every send starts at send_data again, whatever has gone out before. */
  function Wire(p: Peer, answers: seq<SendAnswer>): (w: seq<byte>)
    decreases |answers|
  {
    if answers == [] || ReadySend(p, answers[0]).SendDies? then []
    else
      var n := Taken(p, answers[0]);
      (if n <= |p.sendData| then p.sendData[..n] else p.sendData) + Wire(ReadySend(p, answers[0]).peer, answers[1..])
  }

  lemma {:induction false} WireLength(p: Peer, sent: nat, answers: seq<SendAnswer>)
    requires Progress(p, sent) && Plausible(p, answers) && |p.sendData| >= SYNACK_LEN
    ensures |Wire(p, answers)| == Accepted(p, answers)
    ensures Wire(p, answers) != [] ==> Wire(p, answers)[0] == p.sendData[0]
    decreases |answers|
  {
    if answers != [] {
      var n := Taken(p, answers[0]);
      WireLength(ReadySend(p, answers[0]).peer, sent + n, answers[1..]);
    }
  }

  /** `w` is the stretch of `d` that starts at `from`. */
  predicate Matches(w: seq<byte>, d: seq<byte>, from: nat) {
    from + |w| <= |d| && w == d[from..from + |w|]
  }

  lemma ConcatMatches(a: seq<byte>, b: seq<byte>, d: seq<byte>, from: nat)
    ensures Matches(a + b, d, from) <==> Matches(a, d, from) && Matches(b, d, from + |a|)
  {
    if from + |a| + |b| <= |d| {
      var c := d[from..from + |a| + |b|];
      assert c[..|a|] == d[from..from + |a|] && c[|a|..] == d[from + |a|..from + |a| + |b|];
      assert (a + b)[..|a|] == a && (a + b)[|a|..] == b;
      assert c == c[..|a|] + c[|a|..];
    }
  }

  /** Every piece that goes out is the stretch of send_data it stands for; `sent` bytes went before. */
  predicate PiecesInPlace(p: Peer, sent: nat, answers: seq<SendAnswer>)
    decreases |answers|
  {
    answers == [] || ReadySend(p, answers[0]).SendDies? ||
    (var n := Taken(p, answers[0]);
     && n <= |p.sendData| && Matches(p.sendData[..n], p.sendData, sent)
     && PiecesInPlace(ReadySend(p, answers[0]).peer, sent + n, answers[1..]))
  }

  /** One plausible call moves the progress by what it hands over. */
  lemma ProgressStep(p: Peer, sent: nat, answers: seq<SendAnswer>)
    requires Progress(p, sent) && answers != [] && Plausible(p, answers)
    ensures ReadySend(p, answers[0]).SendResult? && sent + Taken(p, answers[0]) <= SYNACK_LEN
    ensures Progress(ReadySend(p, answers[0]).peer, sent + Taken(p, answers[0]))
    ensures Plausible(ReadySend(p, answers[0]).peer, answers[1..])
  {
  }

  lemma {:induction false} WireIffPieces(p: Peer, sent: nat, answers: seq<SendAnswer>)
    requires Progress(p, sent) && Plausible(p, answers) && |p.sendData| >= SYNACK_LEN
    ensures Matches(Wire(p, answers), p.sendData, sent) <==> PiecesInPlace(p, sent, answers)
    decreases |answers|
  {
    if answers != [] {
      var n, q, rest := Taken(p, answers[0]), ReadySend(p, answers[0]).peer, answers[1..];
      ProgressStep(p, sent, answers);
      WireIffPieces(q, sent + n, rest);
      ConcatMatches(p.sendData[..n], Wire(q, rest), p.sendData, sent);
    }
  }

  /** A completed acknowledgement arrives intact exactly when every piece sent is the stretch of
      send_data it stands for. */
  lemma AckIntactIff(p: Peer, answers: seq<SendAnswer>)
    requires Progress(p, 0) && Plausible(p, answers) && |p.sendData| >= SYNACK_LEN
    requires Accepted(p, answers) == SYNACK_LEN
    ensures Wire(p, answers) == p.sendData[..SYNACK_LEN] <==> PiecesInPlace(p, 0, answers)
  {
    WireIffPieces(p, 0, answers);
    WireLength(p, 0, answers);
  }

  ghost predicate Completes(p: Peer, answers: seq<SendAnswer>) {
    Plausible(p, answers) && Accepted(p, answers) == SYNACK_LEN
  }

  lemma {:induction false} UniformPieces(p: Peer, sent: nat, answers: seq<SendAnswer>)
    requires Progress(p, sent) && Plausible(p, answers) && |p.sendData| >= SYNACK_LEN
    requires forall i :: 0 <= i < SYNACK_LEN ==> p.sendData[i] == p.sendData[0]
    ensures PiecesInPlace(p, sent, answers)
    decreases |answers|
  {
    if answers != [] {
      var n := Taken(p, answers[0]);
      UniformPieces(ReadySend(p, answers[0]).peer, sent + n, answers[1..]);
    }
  }

  /** What can be said before the first send: the acknowledgement arrives intact however the kernel
      takes it in pieces exactly when its bytes are all the same. */
  lemma AckAlwaysIntactIff(p: Peer)
    requires Progress(p, 0) && |p.sendData| >= SYNACK_LEN
    ensures (forall answers :: Completes(p, answers) ==> Wire(p, answers) == p.sendData[..SYNACK_LEN])
            <==> forall i :: 0 <= i < SYNACK_LEN ==> p.sendData[i] == p.sendData[0]
  {
    if i :| 0 <= i < SYNACK_LEN && p.sendData[i] != p.sendData[0] {
      TwoPieces(p, i);
    } else {
      forall answers | Completes(p, answers)
        ensures Wire(p, answers) == p.sendData[..SYNACK_LEN]
      {
        UniformPieces(p, 0, answers);
        AckIntactIff(p, answers);
      }
    }
  }

  /** Cut after i bytes, the acknowledgement shows its first byte again at position i. */
  lemma TwoPieces(p: Peer, i: nat)
    requires Progress(p, 0) && |p.sendData| >= SYNACK_LEN && 0 < i < SYNACK_LEN
    ensures var answers := [Sent(i), Sent(SYNACK_LEN - i)];
            Completes(p, answers) && |Wire(p, answers)| == SYNACK_LEN && Wire(p, answers)[i] == p.sendData[0]
  {
    var answers := [Sent(i), Sent(SYNACK_LEN - i)];
    var rest := answers[1..];
    var q := ReadySend(p, Sent(i)).peer;
    var r := ReadySend(q, Sent(SYNACK_LEN - i)).peer;
    assert rest == [Sent(SYNACK_LEN - i)] && rest[1..] == [];
    assert Plausible(r, rest[1..]) && Plausible(q, rest) && Plausible(p, answers);
    assert Accepted(r, rest[1..]) == 0 && Accepted(q, rest) == SYNACK_LEN - i;
    WireLength(q, i, rest);
    assert Wire(p, answers) == p.sendData[..i] + Wire(q, rest);
  }
}
