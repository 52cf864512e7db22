/** The chunk-accumulating receive loop: socket_read in src/session.c. */
module SocketRead {
  import opened Basics

  const MAX_RECV_BUFF_SIZE := 256

  /** What one successful recv can deliver. */
  type Chunk = b: seq<byte> | 1 <= |b| <= MAX_RECV_BUFF_SIZE witness [0]

  /** One answer of recv.  `beyond` is the byte that happens to follow the received data in
      memory, which the end-of-message test also looks at; nothing is known about it. */
  datatype Answer = Data(bytes: Chunk, beyond: byte) | EndOfStream | WouldBlock | Failure

  /** The loop goes on only after data with no end-of-message mark. */
  predicate Stops(a: Answer) {
    !a.Data? || a.bytes[|a.bytes| - 1] == 0 || a.beyond == 0
  }

  /** How many answers the loop consumes before the deciding one. */
  function StopIndex(answers: seq<Answer>): (k: nat)
    ensures k <= |answers|
    ensures forall i :: 0 <= i < k ==> !Stops(answers[i])
    ensures k < |answers| ==> Stops(answers[k])
  {
    if answers == [] || Stops(answers[0]) then 0 else 1 + StopIndex(answers[1..])
  }

  /** The bytes delivered by a run of answers. */
  function Joined(answers: seq<Answer>): seq<byte> {
    if answers == [] then []
    else
      var last := answers[|answers| - 1];
      Joined(answers[..|answers| - 1]) + if last.Data? then last.bytes else []
  }

  lemma JoinedStep(answers: seq<Answer>, i: nat)
    requires i < |answers| && answers[i].Data?
    ensures Joined(answers[..i + 1]) == Joined(answers[..i]) + answers[i].bytes
  {
    assert answers[..i + 1][..i] == answers[..i];
  }

  datatype ReadResult = PeerClosed | Pending | Broken | Message(data: seq<byte>)

  /** The outcome of one call.  After the listed answers the socket is drained: MSG_DONTWAIT makes
      the next recv answer EAGAIN. */
  function Read(answers: seq<Answer>): ReadResult {
    var k := StopIndex(answers);
    if k == |answers| then Pending
    else match answers[k]
      case Data(_, _) => Message(Joined(answers[..k + 1]))
      case EndOfStream => PeerClosed
      case WouldBlock => Pending
      case Failure => Broken
  }

  /** Answer i, reached by the loop, is gone past, or it is the deciding one and settles the outcome. */
  lemma Decides(answers: seq<Answer>, i: nat)
    requires i <= StopIndex(answers)
    ensures i < |answers| && !Stops(answers[i]) ==> i < StopIndex(answers)
    ensures i == |answers| || Stops(answers[i]) ==>
              StopIndex(answers) == i && Read(answers) ==
                if i == |answers| then Pending
                else match answers[i]
                  case Data(_, _) => Message(Joined(answers[..i + 1]))
                  case EndOfStream => PeerClosed
                  case WouldBlock => Pending
                  case Failure => Broken
  {
  }

  /** The buffer at the start: 256 zero bytes. */
  function Blank(): (b: seq<byte>)
    ensures |b| == MAX_RECV_BUFF_SIZE && forall i :: 0 <= i < |b| ==> b[i] == 0
  {
    seq(MAX_RECV_BUFF_SIZE, _ => 0)
  }

  /** The buffer after i pieces. */
  function Buffer(answers: seq<Answer>, i: nat): seq<byte>
    requires i <= |answers|
  {
    if i == 0 then Blank() else Joined(answers[..i])
  }

  /** Resizing to what was received so far and appending the next piece. */
  lemma BufferStep(answers: seq<Answer>, i: nat)
    requires i < |answers| && answers[i].Data?
    ensures |Joined(answers[..i])| <= |Buffer(answers, i)|
    ensures Buffer(answers, i)[..|Joined(answers[..i])|] + answers[i].bytes == Joined(answers[..i + 1])
  {
    JoinedStep(answers, i);
    assert Buffer(answers, i)[..|Joined(answers[..i])|] == Joined(answers[..i]);
  }

  /** socket_read.  The buffer starts as 256 zero bytes and is resized to exactly what was received. */
  method Receive(answers: seq<Answer>) returns (data: Option<seq<byte>>, ret: int)
    ensures Read(answers) == PeerClosed <==> ret == -1
    ensures Read(answers) == Pending <==> ret == -2
    ensures Read(answers) == Broken <==> ret == -3
    ensures Read(answers).Message? <==> ret == 0
    ensures ret == -1 <==> Meets(answers, EndOfStream)
    ensures ret == -3 <==> Meets(answers, Failure)
    ensures data.None? <==> ret == -1
    ensures ret == 0 ==> data == Some(Read(answers).data)
    ensures ret == -2 || ret == -3 ==> data == Some(Buffer(answers, StopIndex(answers)))
  {
    ClosedIff(answers);
    BrokenIff(answers);
    var recvData := Blank();
    var recvLen, offset, i := 0, 0, 0;
    while true
      invariant 0 <= i <= StopIndex(answers)
      invariant offset == recvLen == |Joined(answers[..i])|
      invariant recvData == Buffer(answers, i)
      decreases |answers| - i
    {
      Decides(answers, i);
      var answer := if i < |answers| then answers[i] else WouldBlock;
      match answer {
        case EndOfStream => return None, -1;
        case WouldBlock => return Some(recvData), -2;
        case Failure => return Some(recvData), -3;
        case Data(bytes, beyond) =>
          BufferStep(answers, i);
          recvLen := recvLen + |bytes|;
          recvData := recvData[..offset] + bytes;
          offset := offset + |bytes|;
          if recvData[recvLen - 1] == 0 || beyond == 0 {
            return Some(recvData), 0;
          }
          i := i + 1;
      }
    }
  }

  // ---------- when a stream is closed, and when a message is seen whole ----------

  /** Data with no end-of-message mark. */
  predicate Unmarked(a: Answer) {
    a.Data? && a.bytes[|a.bytes| - 1] != 0 && a.beyond != 0
  }

  /** Answer k is `a`, and before it there was only data with no end-of-message mark. */
  ghost predicate ComesTo(answers: seq<Answer>, k: int, a: Answer) {
    0 <= k < |answers| && answers[k] == a && forall i :: 0 <= i < k ==> Unmarked(answers[i])
  }

  /** The loop comes to `a` before any end-of-message mark. */
  ghost predicate Meets(answers: seq<Answer>, a: Answer) {
    exists k :: ComesTo(answers, k, a)
  }

  lemma ComesToStop(answers: seq<Answer>, k: int, a: Answer)
    requires Stops(a)
    ensures ComesTo(answers, k, a) <==> k == StopIndex(answers) < |answers| && answers[k] == a
  {
    var n := StopIndex(answers);
    assert forall b :: Unmarked(b) <==> !Stops(b);
    assert n < |answers| ==> !Unmarked(answers[n]);
  }

  /** The peer counts as closed exactly when a recv returned 0 before any end-of-message mark. */
  lemma ClosedIff(answers: seq<Answer>)
    ensures Read(answers) == PeerClosed <==> Meets(answers, EndOfStream)
  {
    if k :| ComesTo(answers, k, EndOfStream) {
      ComesToStop(answers, k, EndOfStream);
    }
    ComesToStop(answers, StopIndex(answers), EndOfStream);
  }

  /** The read fails exactly when a recv failed, for another reason than a drained socket, before any
      end-of-message mark. */
  lemma BrokenIff(answers: seq<Answer>)
    ensures Read(answers) == Broken <==> Meets(answers, Failure)
  {
    if k :| ComesTo(answers, k, Failure) {
      ComesToStop(answers, k, Failure);
    }
    ComesToStop(answers, StopIndex(answers), Failure);
  }

  /** The message is pending exactly when the socket was drained before any end-of-message mark: by a
      would-block, or because no answer is left. */
  lemma PendingIff(answers: seq<Answer>)
    ensures Read(answers) == Pending <==>
            Meets(answers, WouldBlock) || ComesTo(answers + [WouldBlock], |answers|, WouldBlock)
  {
    if k :| ComesTo(answers, k, WouldBlock) {
      ComesToStop(answers, k, WouldBlock);
    }
    ComesToStop(answers, StopIndex(answers), WouldBlock);
    assert forall i :: 0 <= i < |answers| ==> (answers + [WouldBlock])[i] == answers[i];
    if ComesTo(answers + [WouldBlock], |answers|, WouldBlock) {
      assert forall i :: 0 <= i < |answers| ==> !Stops(answers[i]);
    }
  }

  /** `answers` delivers `m` in pieces; the byte after each piece is arbitrary. */
  ghost predicate IsDelivery(answers: seq<Answer>, m: seq<byte>) {
    Joined(answers) == m && forall i :: 0 <= i < |answers| ==> answers[i].Data?
  }

  /** No zero byte happens to follow a piece. */
  ghost predicate NoStrayZero(answers: seq<Answer>) {
    forall i :: 0 <= i < |answers| && answers[i].Data? ==> answers[i].beyond != 0
  }

  ghost predicate NulOnlyAtEnd(m: seq<byte>) {
    m != [] && forall i :: 0 <= i < |m| ==> (m[i] == 0 <==> i == |m| - 1)
  }

  lemma Associative<T>(a: seq<T>, b: seq<T>, c: seq<T>)
    ensures (a + b) + c == a + (b + c)
  {
  }

  lemma {:induction false} JoinedConcat(a: seq<Answer>, b: seq<Answer>)
    ensures Joined(a + b) == Joined(a) + Joined(b)
  {
    if b == [] {
      assert a + b == a;
    } else {
      var n := |b| - 1;
      var init, last := b[..n], if b[n].Data? then b[n].bytes else [];
      JoinedConcat(a, init);
      assert (a + b)[..|a| + n] == a + init && (a + b)[|a| + n] == b[n];
      assert Joined(a + b) == Joined(a + init) + last && Joined(b) == Joined(init) + last;
      Associative(Joined(a), Joined(init), last);
    }
  }

  /** Pieces of data and drained sockets. */
  ghost predicate IsStream(answers: seq<Answer>) {
    forall i :: 0 <= i < |answers| ==> answers[i] == WouldBlock || answers[i].Data?
  }

  ghost predicate NoData(answers: seq<Answer>) {
    forall i :: 0 <= i < |answers| ==> !answers[i].Data?
  }

  ghost predicate NoneAfter(answers: seq<Answer>, i: int) {
    forall j :: 0 <= i < j < |answers| ==> !answers[j].Data?
  }

  ghost predicate NoneBefore(answers: seq<Answer>, i: int) {
    forall j :: 0 <= j < i && j < |answers| ==> !answers[j].Data?
  }

  lemma NoDataInit(answers: seq<Answer>)
    requires answers != []
    ensures var n := |answers| - 1; NoData(answers) <==> NoData(answers[..n]) && !answers[n].Data?
  {
    var init := answers[..|answers| - 1];
    assert forall i :: 0 <= i < |init| ==> init[i] == answers[i];
  }

  lemma {:induction false} NoDataJoinsEmpty(answers: seq<Answer>)
    ensures Joined(answers) == [] <==> NoData(answers)
  {
    if answers != [] {
      var n := |answers| - 1;
      NoDataInit(answers);
      NoDataJoinsEmpty(answers[..n]);
      assert |Joined(answers)| == |Joined(answers[..n])| + if answers[n].Data? then |answers[n].bytes| else 0;
    }
  }

  lemma JoinedAround(answers: seq<Answer>, i: nat)
    requires i < |answers|
    ensures Joined(answers) == Joined(answers[..i + 1]) + Joined(answers[i + 1..])
  {
    assert answers == answers[..i + 1] + answers[i + 1..];
    JoinedConcat(answers[..i + 1], answers[i + 1..]);
  }

  /** A piece ends at a NUL of the message exactly when no piece follows it. */
  lemma PieceEnds(answers: seq<Answer>, m: seq<byte>, i: nat)
    requires Joined(answers) == m && NulOnlyAtEnd(m) && i < |answers| && answers[i].Data?
    ensures answers[i].bytes[|answers[i].bytes| - 1] == 0 <==> NoneAfter(answers, i)
  {
    var a, b := Joined(answers[..i + 1]), Joined(answers[i + 1..]);
    JoinedAround(answers, i);
    JoinedStep(answers, i);
    NoDataJoinsEmpty(answers[i + 1..]);
    assert NoData(answers[i + 1..]) <==> NoneAfter(answers, i) by {
      assert forall j :: i < j < |answers| ==> answers[j] == answers[i + 1..][j - (i + 1)];
    }
    LastByte(a, b, m, Joined(answers[..i]), answers[i].bytes);
  }

  lemma LastByte(a: seq<byte>, b: seq<byte>, m: seq<byte>, head: seq<byte>, tail: seq<byte>)
    requires m == a + b && a == head + tail && tail != [] && NulOnlyAtEnd(m)
    ensures tail[|tail| - 1] == 0 <==> b == []
  {
    assert tail[|tail| - 1] == m[|a| - 1];
  }

  // ---------- one call ----------

  /** One call returns the whole of a delivery exactly when the end-of-message test is met at the last
      piece and at no earlier one, whatever the message and the bytes past the pieces. */
  lemma DeliveryReadWholeIff(answers: seq<Answer>, rest: seq<Answer>, m: seq<byte>)
    requires IsDelivery(answers, m) && m != []
    ensures Read(answers + rest) == Message(m) <==>
            forall i :: 0 <= i < |answers| ==> (Stops(answers[i]) <==> i == |answers| - 1)
  {
    var all, n := answers + rest, |answers| - 1;
    var k := StopIndex(all);
    assert forall i :: 0 <= i < |answers| ==> all[i] == answers[i];
    if k <= n {
      assert all[..k + 1] == answers[..k + 1];
      JoinedAround(answers, k);
      NoDataJoinsEmpty(answers[k + 1..]);
      assert Joined(answers[..k + 1]) == m <==> k == n by {
        assert k < n ==> answers[k + 1..][0].Data?;
        assert answers[..n + 1] == answers;
      }
    } else {
      MoreThan(answers, rest, k);
      assert !Stops(answers[n]);
    }
  }

  /** A call that goes on past a delivery does not return it alone. */
  lemma MoreThan(answers: seq<Answer>, rest: seq<Answer>, k: nat)
    requires |answers| <= k == StopIndex(answers + rest)
    ensures Read(answers + rest).Message? ==> |Read(answers + rest).data| > |Joined(answers)|
  {
    if k < |answers + rest| && (answers + rest)[k].Data? {
      LongerPrefix(answers, rest, k - |answers|);
    }
  }

  lemma LongerPrefix(answers: seq<Answer>, rest: seq<Answer>, i: nat)
    requires i < |rest| && rest[i].Data?
    ensures |Joined((answers + rest)[..|answers| + i + 1])| > |Joined(answers)|
  {
    var head := rest[..i + 1];
    assert (answers + rest)[..|answers| + i + 1] == answers + head;
    JoinedConcat(answers, head);
    JoinedStep(rest, i);
  }

  /** A message whose only NUL is its last byte is read whole however the kernel cuts it up, exactly
      when no zero byte happens to follow a piece that is not the last. */
  lemma EverySplitIsReadWhole(answers: seq<Answer>, rest: seq<Answer>, m: seq<byte>)
    requires IsDelivery(answers, m) && NulOnlyAtEnd(m)
    ensures Read(answers + rest) == Message(m) <==> forall i :: 0 <= i < |answers| - 1 ==> answers[i].beyond != 0
  {
    forall i | 0 <= i < |answers|
      ensures Stops(answers[i]) <==> i == |answers| - 1 || answers[i].beyond == 0
    {
      PieceEnds(answers, m, i);
      assert i < |answers| - 1 ==> answers[i + 1].Data?;
    }
    DeliveryReadWholeIff(answers, rest, m);
  }

  /** The message byte by byte. */
  function Singles(m: seq<byte>): (answers: seq<Answer>)
    ensures |answers| == |m| && forall i :: 0 <= i < |m| ==> answers[i] == Data([m[i]], 1)
  {
    seq(|m|, i requires 0 <= i < |m| => Data([m[i]], 1))
  }

  lemma {:induction false} JoinedSingles(m: seq<byte>, k: nat)
    requires k <= |m|
    ensures Joined(Singles(m)[..k]) == m[..k]
  {
    if k > 0 {
      JoinedSingles(m, k - 1);
      assert Singles(m)[..k][..k - 1] == Singles(m)[..k - 1];
    }
  }

  lemma SinglesDeliver(m: seq<byte>)
    ensures IsDelivery(Singles(m), m) && NoStrayZero(Singles(m))
  {
    JoinedSingles(m, |m|);
    assert Singles(m)[..|m|] == Singles(m) && m[..|m|] == m;
  }

  /** With no zero byte past a piece, exactly the messages whose only NUL is their last byte survive
      every way of cutting them up. */
  lemma SplitIndependenceIff(m: seq<byte>)
    ensures NulOnlyAtEnd(m) <==>
            forall answers :: IsDelivery(answers, m) && NoStrayZero(answers) ==> Read(answers) == Message(m)
  {
    if NulOnlyAtEnd(m) {
      forall answers | IsDelivery(answers, m) && NoStrayZero(answers)
        ensures Read(answers) == Message(m)
      {
        EverySplitIsReadWhole(answers, [], m);
        assert answers + [] == answers;
      }
    } else {
      SinglesDeliver(m);
      SinglesCutShort(m);
    }
  }

  /** With arbitrary bytes past the pieces, only a lone NUL survives every delivery. */
  lemma AnyDeliveryIff(m: seq<byte>)
    ensures m == [0] <==> forall answers :: IsDelivery(answers, m) ==> Read(answers) == Message(m)
  {
    if m == [0] {
      forall answers | IsDelivery(answers, m)
        ensures Read(answers) == Message(m)
      {
        LoneNulComesWhole(answers);
        EverySplitIsReadWhole(answers, [], m);
        assert answers + [] == answers;
      }
    } else if |m| > 1 {
      StrayZeroCutsShort(m);
    } else {
      SinglesDeliver(m);
      SinglesCutShort(m);
    }
  }

  lemma LoneNulComesWhole(answers: seq<Answer>)
    requires IsDelivery(answers, [0])
    ensures |answers| == 1
  {
    assert |answers| > 1 ==> answers[1].Data?;
    assert answers != [];
    JoinedAround(answers, 0);
    JoinedStep(answers, 0);
    PieceEnds(answers, [0], 0);
  }

  /** Delivered byte by byte, a message with an inner NUL is cut short, and one without a final NUL is
      not returned at all. */
  lemma SinglesCutShort(m: seq<byte>)
    requires !NulOnlyAtEnd(m)
    ensures Read(Singles(m)) != Message(m)
  {
    if m != [] {
      var answers := Singles(m);
      SinglesDeliver(m);
      DeliveryReadWholeIff(answers, [], m);
      assert answers + [] == answers;
      var p :| 0 <= p < |m| && !(m[p] == 0 <==> p == |m| - 1);
      assert Stops(answers[p]) <==> m[p] == 0;
    }
  }

  /** A zero byte past the first byte received cuts any longer message to that byte, a message with
      no inner NUL included. */
  lemma StrayZeroCutsShort(m: seq<byte>)
    requires |m| > 1
    ensures var answers := [Data([m[0]], 0)] + Singles(m[1..]);
            IsDelivery(answers, m) && Read(answers) == Message(m[..1])
  {
    var first := Data([m[0]], 0);
    SinglesDeliver(m[1..]);
    JoinedConcat([first], Singles(m[1..]));
    JoinedOne(first);
    assert m == [m[0]] + m[1..];
    StopsAtOnce(first, Singles(m[1..]));
  }

  lemma JoinedOne(a: Answer)
    requires a.Data?
    ensures Joined([a]) == a.bytes
  {
    JoinedStep([a], 0);
    assert [a][..1] == [a];
  }

  lemma StopsAtOnce(a: Answer, rest: seq<Answer>)
    requires a.Data? && Stops(a)
    ensures Read([a] + rest) == Message(a.bytes)
  {
    JoinedOne(a);
    assert ([a] + rest)[..1] == [a];
    assert StopIndex([a] + rest) == 0;
  }

  // ---------- one message over several calls ----------

  /** What one call leaves of its answers: it takes up to its deciding answer. */
  function Unread(answers: seq<Answer>): (rest: seq<Answer>)
    requires answers != []
    ensures |rest| < |answers|
  {
    var k := StopIndex(answers);
    if k == |answers| then [] else answers[k + 1..]
  }

  /** What successive calls on one answer stream return. */
  function Calls(answers: seq<Answer>): seq<ReadResult>
    decreases |answers|
  {
    if answers == [] then [] else [Read(answers)] + Calls(Unread(answers))
  }

  /** No drained socket falls between two pieces. */
  ghost predicate Unbroken(answers: seq<Answer>) {
    forall i {:trigger NoneAfter(answers, i)} ::
      0 <= i < |answers| && !answers[i].Data? ==> NoneBefore(answers, i) || NoneAfter(answers, i)
  }

  /** The end-of-message test is met at a piece exactly when no piece follows it. */
  ghost predicate MarkedAtEnd(answers: seq<Answer>) {
    forall i {:trigger NoneAfter(answers, i)} ::
      0 <= i < |answers| && answers[i].Data? ==> (Stops(answers[i]) <==> NoneAfter(answers, i))
  }

  /** No call returns more than the stream holds. */
  lemma {:induction false} CallsAreShort(answers: seq<Answer>, d: seq<byte>)
    requires Message(d) in Calls(answers)
    ensures |d| <= |Joined(answers)|
    decreases |answers|
  {
    TakenAndLeft(answers);
    if Message(d) in Calls(Unread(answers)) {
      CallsAreShort(Unread(answers), d);
    }
  }

  /** What one call returns and what it leaves is no more than the stream holds. */
  lemma TakenAndLeft(answers: seq<Answer>)
    requires answers != []
    ensures |Joined(Unread(answers))| <= |Joined(answers)|
    ensures Read(answers).Message? ==> |Read(answers).data| <= |Joined(answers)|
  {
    var k := StopIndex(answers);
    if k < |answers| {
      JoinedAround(answers, k);
    }
  }

  lemma TailPieces(answers: seq<Answer>, i: nat)
    requires i + 1 < |answers| && !answers[0].Data?
    ensures NoneAfter(answers[1..], i) <==> NoneAfter(answers, i + 1)
    ensures NoneBefore(answers[1..], i) <==> NoneBefore(answers, i + 1)
  {
    var rest := answers[1..];
    assert forall j :: 0 <= j < |rest| ==> rest[j] == answers[j + 1];
    assert forall j :: 1 <= j < |answers| ==> answers[j] == rest[j - 1];
  }

  lemma UnbrokenTail(answers: seq<Answer>)
    requires answers != [] && !answers[0].Data?
    ensures Unbroken(answers) <==> Unbroken(answers[1..])
  {
    var rest := answers[1..];
    forall i | 0 <= i < |rest|
      ensures rest[i] == answers[i + 1] && (NoneAfter(rest, i) <==> NoneAfter(answers, i + 1))
      ensures NoneBefore(rest, i) <==> NoneBefore(answers, i + 1)
    {
      TailPieces(answers, i);
    }
    if Unbroken(rest) {
      forall i | 0 <= i < |answers| && !answers[i].Data?
        ensures NoneBefore(answers, i) || NoneAfter(answers, i)
      {
        if i > 0 {
          assert NoneAfter(rest, i - 1) <==> NoneAfter(answers, i);
        }
      }
    }
  }

  lemma MarkedTail(answers: seq<Answer>)
    requires answers != [] && !answers[0].Data?
    ensures MarkedAtEnd(answers) <==> MarkedAtEnd(answers[1..])
  {
    var rest := answers[1..];
    forall i | 0 <= i < |rest|
      ensures rest[i] == answers[i + 1] && (NoneAfter(rest, i) <==> NoneAfter(answers, i + 1))
    {
      TailPieces(answers, i);
    }
    if MarkedAtEnd(rest) {
      forall i | 0 <= i < |answers| && answers[i].Data?
        ensures Stops(answers[i]) <==> NoneAfter(answers, i)
      {
        assert NoneAfter(rest, i - 1) <==> NoneAfter(answers, i);
      }
    }
  }

  /** A call that stops at the last piece: the pieces were unbroken, ... */
  lemma LastPieceUnbroken(answers: seq<Answer>, k: nat)
    requires k < |answers| && NoneAfter(answers, k)
    requires forall i :: 0 <= i < k ==> !Stops(answers[i])
    ensures Unbroken(answers)
  {
    forall i | 0 <= i < |answers| && !answers[i].Data?
      ensures NoneAfter(answers, i)
    {
      assert Stops(answers[i]);
    }
  }

  /** ... marked at the end only, ... */
  lemma LastPieceMarked(answers: seq<Answer>, k: nat)
    requires k < |answers| && answers[k].Data? && Stops(answers[k]) && NoneAfter(answers, k)
    requires forall i :: 0 <= i < k ==> !Stops(answers[i])
    ensures MarkedAtEnd(answers)
  {
    forall i | 0 <= i < |answers| && answers[i].Data?
      ensures Stops(answers[i]) <==> NoneAfter(answers, i)
    {
      if i < k {
        assert !NoneAfter(answers, i);
      } else {
        assert i == k;
      }
    }
  }

  /** ... and the call returns all of them. */
  lemma LastPieceReadsAll(answers: seq<Answer>, k: nat)
    requires k == StopIndex(answers) < |answers| && answers[k].Data? && NoneAfter(answers, k)
    ensures Read(answers) == Message(Joined(answers))
  {
    AllUpTo(answers, k);
  }

  lemma AllUpTo(answers: seq<Answer>, k: nat)
    requires k < |answers| && NoneAfter(answers, k)
    ensures Joined(answers[..k + 1]) == Joined(answers)
  {
    JoinedAround(answers, k);
    NoDataJoinsEmpty(answers[k + 1..]);
  }

  lemma FirstCall(answers: seq<Answer>)
    requires answers != []
    ensures Read(answers) in Calls(answers)
  {
    assert Read(answers) == Calls(answers)[0];
  }

  /** A call that stops elsewhere was not given unbroken pieces marked at the end only, ... */
  lemma StopElsewhere(answers: seq<Answer>, k: nat)
    requires answers != [] && answers[0].Data? && k <= |answers|
    requires (forall i :: 0 <= i < k ==> !Stops(answers[i])) && (k < |answers| ==> Stops(answers[k]))
    requires k < |answers| && answers[k].Data? ==> !NoneAfter(answers, k)
    ensures !(Unbroken(answers) && MarkedAtEnd(answers))
  {
    if k == |answers| {
      assert !Stops(answers[k - 1]) && NoneAfter(answers, k - 1);
    } else if !answers[k].Data? {
      assert !NoneBefore(answers, k);
      assert !Stops(answers[k - 1]);
      assert NoneAfter(answers, k) <==> NoneAfter(answers, k - 1);
    }
  }

  /** Cut after answer k, both parts of a stream hold less than the whole if a piece starts it and one
      comes after k. */
  lemma Shares(answers: seq<Answer>, k: nat)
    requires k < |answers|
    ensures answers[0].Data? ==> |Joined(answers[k + 1..])| < |Joined(answers)|
    ensures !NoneAfter(answers, k) ==> |Joined(answers[..k + 1])| < |Joined(answers)|
  {
    var head, tail := answers[..k + 1], answers[k + 1..];
    JoinedAround(answers, k);
    NoDataJoinsEmpty(head);
    NoDataJoinsEmpty(tail);
    assert head[0] == answers[0];
    if !NoneAfter(answers, k) {
      var j :| k < j < |answers| && answers[j].Data?;
      assert tail[j - (k + 1)].Data?;
    }
  }

  /** So a call that starts at a piece leaves less than there was, ... */
  lemma LeavesLess(answers: seq<Answer>)
    requires answers != [] && answers[0].Data?
    ensures |Joined(Unread(answers))| < |Joined(answers)|
  {
    var k := StopIndex(answers);
    if k < |answers| {
      Shares(answers, k);
    } else {
      Shares(answers, 0);
    }
  }

  /** ... and returns less if a piece follows the one it stops at. */
  lemma ReadsLess(answers: seq<Answer>, k: nat)
    requires k == StopIndex(answers)
    requires k < |answers| && answers[k].Data? ==> !NoneAfter(answers, k)
    ensures Read(answers).Message? ==> |Read(answers).data| < |Joined(answers)|
  {
    if k < |answers| {
      Shares(answers, k);
    }
  }

  /** So no later call makes up for what one has read without returning it. */
  lemma NothingMadeUp(answers: seq<Answer>, k: nat)
    requires answers != [] && answers[0].Data? && k == StopIndex(answers)
    requires k < |answers| && answers[k].Data? ==> !NoneAfter(answers, k)
    ensures Message(Joined(answers)) !in Calls(answers)
  {
    LeavesLess(answers);
    ReadsLess(answers, k);
    OnlyThese(answers, Joined(answers));
  }

  lemma OnlyThese(answers: seq<Answer>, m: seq<byte>)
    requires answers != [] && |Joined(Unread(answers))| < |m|
    requires Read(answers).Message? ==> |Read(answers).data| < |m|
    ensures Message(m) !in Calls(answers)
  {
    if Message(m) in Calls(Unread(answers)) {
      CallsAreShort(Unread(answers), m);
    }
  }

  /** A drained socket in front changes nothing. */
  lemma BlockInFront(answers: seq<Answer>, m: seq<byte>)
    requires answers != [] && answers[0] == WouldBlock
    ensures Joined(answers) == Joined(answers[1..])
    ensures Message(m) in Calls(answers) <==> Message(m) in Calls(answers[1..])
  {
    JoinedAround(answers, 0);
    assert StopIndex(answers) == 0 && Unread(answers) == answers[1..];
    assert Read(answers) == Pending;
  }

  lemma StartAtPiece(answers: seq<Answer>, k: nat)
    requires IsStream(answers) && answers != [] && answers[0].Data? && k == StopIndex(answers)
    ensures Message(Joined(answers)) in Calls(answers) <==> Unbroken(answers) && MarkedAtEnd(answers)
  {
    if k < |answers| && answers[k].Data? && NoneAfter(answers, k) {
      LastPieceUnbroken(answers, k);
      LastPieceMarked(answers, k);
      LastPieceReadsAll(answers, k);
      FirstCall(answers);
    } else {
      StopElsewhere(answers, k);
      NothingMadeUp(answers, k);
    }
  }

  /** Over any number of pieces and drained sockets, with any bytes past the pieces, some call returns
      everything that was sent exactly when no drained socket falls between two pieces and the
      end-of-message test is met at the last piece and at no earlier one. */
  lemma {:induction false} SomeCallReadsAllIff(answers: seq<Answer>)
    requires IsStream(answers) && Joined(answers) != []
    ensures Message(Joined(answers)) in Calls(answers) <==> Unbroken(answers) && MarkedAtEnd(answers)
    decreases |answers|
  {
    if answers[0].Data? {
      StartAtPiece(answers, StopIndex(answers));
    } else {
      BlockInFront(answers, Joined(answers));
      UnbrokenTail(answers);
      MarkedTail(answers);
      SomeCallReadsAllIff(answers[1..]);
    }
  }

  /** So for a message whose only NUL is its last byte nothing survives a would-block: some call
      returns the message exactly when no drained socket falls between two of its pieces and no zero
      byte happens to follow a piece that is not the last. */
  lemma ReadWholeIffUnbroken(answers: seq<Answer>, m: seq<byte>)
    requires IsStream(answers) && Joined(answers) == m && NulOnlyAtEnd(m)
    ensures Message(m) in Calls(answers) <==>
            && Unbroken(answers)
            && forall i :: 0 <= i < |answers| && answers[i].Data? && answers[i].beyond == 0 ==> NoneAfter(answers, i)
  {
    forall i | 0 <= i < |answers| && answers[i].Data?
      ensures Stops(answers[i]) <==> NoneAfter(answers, i) || answers[i].beyond == 0
    {
      PieceEnds(answers, m, i);
    }
    SomeCallReadsAllIff(answers);
  }
}
