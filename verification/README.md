# A verified model of the command-agent session server

The repository is a single-threaded epoll server. Miner agents connect and register a mac; UX peers
send commands, which the server routes by looking the mac up in the `cmd_agent_session` table and
sending on the stored descriptor. Descriptor numbers are reused, events arrive in batches, and the
events of a batch share one uninitialised `session_t`. The project models that server and the
loop- and arithmetic-heavy inline code of the MySQL headers it is bundled with.

| file | what it holds |
|---|---|
| `Basics.dfy` | bytes, C strings, options |
| `Parse.dfy` | JSON documents; `get_agent_type`, `parse_json_cmd`, `parse_json_agent` |
| `SocketRead.dfy` | `socket_read`, the receive loop |
| `PeerState.dfy` | per-descriptor state, the acknowledgement protocol |
| `SessionTable.dfy` | the session table and its queries, as a class |
| `Machine.dfy` | the server as a step machine, and what is assumed of the kernel |
| `Routing.dfy` | the invariant of every run, and fd reuse inside a batch |
| `Runs.dfy` | the whole-run theorems |
| `Visits.dfy` | a run against the run without the visits on one descriptor |
| `EndToEnd.dfy` | two events of one run: an agent's message and a later command for it |
| `SharedSession.dfy` | the shared, uninitialised session; runs with any session contents |
| `Server.dfy` | the server as a class updating its state in place, proved to follow `Machine` |
| `Bits.dfy` | bitwise and/or, `MY_ALIGN` |
| `ByteOrder.dfy` | the little-endian integer codecs |
| `TrailingSpace.dfy` | both forms of `skip_trailing_space` |
| `Timespec.dfy` | deadlines, their order and their difference |

A connection carries a generation number that tells successive peers on one descriptor apart; the
program has no such number, and none of its decisions in the model depends on it. The history is a
record of what happened, kept for the statements. The answers of recv, send, accept and epoll_wait
are arbitrary inputs, except for the assumptions below.

## Assumptions

- `mac` is a unique key of the table, compared as an exact string; an insert fails exactly on a
  duplicate mac, every other query succeeds, and the table starts empty.
- `accept` returns a descriptor that is not open (`Machine.AcceptIsFresh`).
- `epoll_ctl` and `close` succeed; a failing `epoll_ctl` ends the process (src/main.c:298-327) and no event
  carries one.
- One `epoll_wait` batch names only registered descriptors, none of them twice (`Machine.Possible`).
  Only `Runs.RunsStayReadOnly` and `Runs.NoWriteEventEver` also assume that epoll reports readiness only for the requested
  interest (`Runs.Honest`); every other theorem lets a peer turn up readable or writable at any time.
- The keys of a JSON object are unique; needed only where a statement says `UniqueKeys`.
- After the answers listed in an event the socket is drained, so the next `MSG_DONTWAIT` recv answers
  EAGAIN. The byte after the last one received (src/session.c:40) is arbitrary.
- The tokener is an arbitrary function from the received C string to a document. Iterating over a
  document that is not an object dereferences a null pointer, which ends the process.

## Findings

- The comment of `get_agent_type` says that only the first key is checked. The code looks for the
  first *string-valued* entry and skips others; the model follows the code. The two agree exactly when
  the first entry is a string, no later one is, or the first later text is neither type name (`Parse.FirstKeySufficesIff`).
- The end-of-message test also reads the byte past the received data. If that byte happens to be 0 after
  a piece that is not the last, the message is cut there, an inner NUL or not
  (`SocketRead.StrayZeroCutsShort`). One call returns the whole of what is delivered exactly when the
  test is met at the last piece and at no earlier one (`SocketRead.DeliveryReadWholeIff`). With arbitrary
  bytes past the pieces only a lone NUL is read whole under every delivery (`SocketRead.AnyDeliveryIff`).
- With no zero byte past a piece, the messages read whole under every way of splitting them are exactly
  the NUL-terminated ones with no inner NUL (`SocketRead.SplitIndependenceIff`).
- What has been read before a drained socket is dropped. Some call returns the whole of what was sent
  exactly when no would-block falls between two pieces and the end-of-message test is met at the last
  piece only (`SocketRead.SomeCallReadsAllIff`). For a NUL-terminated message with no inner NUL that is:
  no would-block between two pieces, and no zero byte past a piece that is not the last
  (`SocketRead.ReadWholeIffUnbroken`).
- A peer that has been and gone cannot be noticed in the status or state of any descriptor
  (`Visits.VisitLeavesNoTrace`), but it can in the table: a mac it registered last has no row, although
  an earlier peer that named the same mac may still be connected (`Visits.HeldMacIsLost`;
  `Visits.VisitTraceIff` says exactly when).
- An incomplete message takes the missing fields from whatever the shared session holds; exactly the
  complete ones do not (`SharedSession.CompleteIffIndependent`). On a run, a peer that leaves its mac
  out takes over the mac of the peer before it in the batch (`SharedSession.LeakHappens`, which keeps
  the texts of the earlier message as they were; they have been freed by then).
- After a partial send the acknowledgement starts again from its first byte. It arrives intact exactly
  when every piece sent equals the stretch of `send_data` it stands for, and under every way of taking
  it in pieces exactly when all its bytes are equal (`PeerState.AckIntactIff`, `AckAlwaysIntactIff`).
  This is the disabled path: in the compiled program no peer becomes write-ready
  (`Runs.NoWriteEventEver`), and `send_data` is only assigned in the block src/main.c:131-136.
- On overflow of its sum `MY_ALIGN` returns 0, and it is the least multiple exactly otherwise
  (`Bits.AlignIff`). A deadline is short by 2^64 clock ticks exactly when the tick sum overflows.

## Model

| member | source | states |
|---|---|---|
| Runs.TableRefinesHistory | src/log.c:25-115 | over every run the table has a row for a mac iff the last registration of that mac is by a connection that has not closed since, never an older one, and the row names that connection's fd, which is open |
| Runs.RunsAreSafe | src/main.c:106-142 | over every run each forwarded command was delivered to the connection holding the live registration of its mac at that moment, every close follows the purge of that fd, and no fd assertion fails |
| EndToEnd.AgentReceivesItsCommand | src/main.c:64-142 | for any two events of one run, from the agent's readable event to the UX peer's, through recv and the tokener: if nothing superseded the registration in between, the command reaches exactly that agent's connection with its own fields |
| EndToEnd.AtKeepsInv | src/main.c:253-308 | the invariant holds, and the named peer is open, in every state any event of any run is handled in |
| Runs.CommandGoesToTheHolder | src/main.c:111-119 | a UX command with all fields is forwarded to the live holder of its mac, to nobody if there is none, and to its own sender if addressed to UX_SESSION |
| Runs.UxMessageIsRouted | src/main.c:109-129 | any UX message registers UX_SESSION for its sender and is forwarded, with the four command fields of the session, to the live holder of the session's mac or to nobody |
| Runs.UnknownMessageDoesNothing | src/main.c:93-108 | a message whose first text is neither type name, or that has no text, changes no row, record or session field; the peer stays open and readable |
| Runs.SessionOfMessage | src/main.c:96-104 | a known message sets the session's fd and type besides the fields of its parser, an unknown one leaves the session alone |
| Runs.AgentRegisters | src/main.c:137-139 | an agent message makes its mac the live registration of its sender and touches no other row |
| EndToEnd.RegistrationLasts | src/log.c:33-49 | a registration stays live over all later records with no newer registration of the mac and no close of the connection |
| Runs.RecvOutcomes | src/main.c:74-86 | a read-ready peer is closed iff recv returned 0 before a message end, then loses exactly its rows; the process ends in a recv error iff one came before a message end; otherwise the peer stays readable, and a would-block changes only the interest, to read |
| Runs.FatalEvents | src/main.c:257-287 | EPOLLERR, a failing accept, a descriptor of 16384 or more, a failing recv and a document that is not an object each end the process with nothing else changed |
| Runs.AcceptOutcomes | src/main.c:270-301 | a new peer is watched for reading and starts in INITIAL_ACK with 8 bytes to send, nobody else is touched, and with no connection pending nothing happens |
| Runs.SendOutcomes | src/main.c:329-351 | for a write-ready peer: the new pointers, state and interest for every answer of send; rows, records and other descriptors stay |
| Runs.RunsStayReadOnly | src/main.c:59-61 | with interest honoured, every open peer is watched read-only in every run and never leaves INITIAL_ACK |
| Runs.NoWriteEventEver | src/main.c:289-332 | from the start of the process every batch of a live run is free of write-ready peers |
| Runs.NoTraceOfEarlierPeers | src/main.c:29-34 | two runs over the same events, with any rows, histories, generations, sessions and leftovers on closed fds, agree on every later status, state, sendptr and sendbuf_end |
| Visits.VisitLeavesNoTrace | src/main.c:29-62 | peers are accepted on an fd, served between the events of all others, and gone again: status, state, sendptr and sendbuf_end of every open fd are then, and in every later run, those of the run without the events of that fd, which is a possible run too |
| Visits.VisitTraceIff | src/log.c:33-49 | the row of a mac differs from that of the run without the visits iff a visitor registered the mac last and the other run still has a row, provided no other agent leaves its mac out |
| Visits.HeldMacIsLost | src/log.c:99-115 | a visitor that names a mac held by another peer and leaves takes the row away |
| Runs.LeftoversAreNeverRead | src/main.c:53-57 | with equal rows and history to begin with, all later rows and forwarded commands agree as well |
| Routing.Scan | src/log.c:51-79 | the backward scan of a history finds the live registration of a mac, and finds none iff there is none |
| Routing.BatchMeetsItsConnections | src/main.c:256-353 | event k of a batch finds the very connection registered when the batch was taken, despite closes and reused numbers before it |
| Routing.RunKeepsInv | src/main.c:253-355 | every run keeps the table, the open peers and the history consistent |
| Routing.StepKeepsInv | src/main.c:257-352 | so does every single event, whatever the kernel answers and the session holds |
| Routing.PurgeAndCloseKeepsInv | src/main.c:318-325 | purge then close removes exactly the registrations of that connection |
| SharedSession.CompleteIffIndependent | src/parse.c:61-133 | in the states the run invariant allows, the effect of a message is independent of the old session contents iff the message sets every field its handling reads |
| SharedSession.IncompleteMessageTakesOver | src/main.c:100-104 | a message without a mac takes over the mac of the message before it in the batch, and does not with a session of its own |
| SharedSession.LeakHappens | src/main.c:254-308 | that happens on a run from the start of the process |
| SharedSession.AnyRunIsSafe | src/main.c:173-174 | the table is the history and the run is safe whatever each handler finds in the session |
| SharedSession.SharingIsHarmless | src/main.c:254-308 | a batch of complete messages with one shared uninitialised session ends in the same state as with separate sessions of any contents |
| Server.EpollServer.OnPeerConnected | src/main.c:47-62 | three fields of the fd's state are reset, send_data and every other fd are not touched |
| Server.EpollServer.OnPeerReadySend | src/main.c:179-211 | the in-place write-ready handler does what ReadySend says, to this fd only |
| Server.EpollServer.OnPeerReadyRecv | src/main.c:64-177 | status, table, outgoing sends and session after a read-ready call |
| Server.EpollServer.RouteCommand | src/main.c:109-129 | registers UX_SESSION, looks the mac up, and sends to the stored fd iff there is a row |
| Server.EpollServer.HandleEvent | src/main.c:257-352 | one turn of the batch loop follows the step machine and keeps the invariant |
| Server.EpollServer.HandleBatch | src/main.c:253-354 | a whole batch with one fresh session object follows RunEvents |
| Server.EpollServer.Serve | src/main.c:253-355 | the main loop follows Run, so every run theorem is about it |
| SessionTable.Table.InsertFd | src/log.c:25-49 | insert, else update: the mac has exactly the new row and no other row changes |
| SessionTable.QueryLaws | src/log.c:51-115 | a registration decides the lookup of its mac only; a purge makes exactly that fd's macs unfindable, is idempotent, and never brings an older row back |
| SessionTable.Table.DeleteFd | src/log.c:99-115 | a mac stays in the table iff its row names another fd, and its row is unchanged |
| SocketRead.Receive | src/session.c:3-47 | the loop's return value for each deciding answer, and data that is the concatenation of the chunks read, or 256 zero bytes if none was |
| SocketRead.ClosedIff | src/session.c:18-22 | end of stream is reported iff a recv returned 0 before any end-of-message mark |
| SocketRead.BrokenIff | src/session.c:27-31 | an error is reported iff a recv failed, other than by a would-block, before any end-of-message mark |
| SocketRead.PendingIff | src/session.c:23-26 | a pending message is reported iff the socket was drained before any end-of-message mark |
| SocketRead.DeliveryReadWholeIff | src/session.c:35-43 | for any message, pieces and bytes past them: one call returns the whole iff the end-of-message test is met at the last piece and at no earlier one |
| SocketRead.EverySplitIsReadWhole | src/session.c:35-43 | a message whose only NUL is its last byte is read whole, for every split into chunks of 1 to 256 bytes, iff no zero byte follows a piece that is not the last |
| SocketRead.SplitIndependenceIff | src/session.c:40-43 | the messages read whole under every split with no zero byte past a piece are those whose only NUL is their last byte |
| SocketRead.AnyDeliveryIff | src/session.c:40-43 | the only message read whole under every split with any bytes past the pieces is a lone NUL |
| SocketRead.StrayZeroCutsShort | src/session.c:40-43 | a zero byte past the first byte received cuts any longer message to that byte |
| SocketRead.SomeCallReadsAllIff | src/session.c:23-43 | over successive calls on any stream of pieces and drained sockets, some call returns all that was sent iff no drained socket falls between two pieces and the end-of-message test is met at the last piece only |
| SocketRead.ReadWholeIffUnbroken | src/session.c:23-43 | the same for a message whose only NUL is its last byte: iff no drained socket falls between two pieces and no zero byte follows a piece that is not the last |
| PeerState.ReadySend | src/main.c:179-211 | a write-ready peer is never told to close, and its send_data pointer is left alone |
| PeerState.AckProtocol | src/main.c:47-211 | for every run of partial sends and EAGAINs after a connect: ordered pointers, the accepted count, when R, W and RW are answered, when INITIAL_ACK is left, and strict progress |
| PeerState.AckIntactIff | src/main.c:187-198 | a completed acknowledgement arrives intact iff every piece sent is the stretch of send_data it stands for |
| PeerState.AckAlwaysIntactIff | src/main.c:187-198 | it arrives intact under every way of taking it in pieces iff its bytes are all the same |
| Parse.GetAgentType | src/parse.c:19-59 | the scan with early exit computes AgentTypeOf |
| Parse.AgentTypeOf | src/parse.c:23-49 | the type is decided by the first string-valued entry, and is never the Windows type |
| Parse.AgentTypeIff | src/parse.c:27-36 | the type is UX iff the first text is "ux", agent iff it is "linux-claymore-nvidia", and invalid otherwise |
| Parse.AgentTypeFromFirstText | src/parse.c:23-36 | messages with the same first text have the same type |
| Parse.AgentTypeEdits | src/parse.c:23-49 | inserting a non-string entry anywhere, or changing what follows the first string, leaves the type alone |
| Parse.FirstKeySufficesIff | src/parse.c:15-36 | looking at the first key alone gives the same type iff it is a string, no later entry is, or the first later text is neither type name |
| Parse.FirstKeyDoesNotSuffice | src/parse.c:23-46 | a message whose type is decided by its second key |
| Parse.AgentTypeIsOrderSensitive | src/parse.c:35-36 | a permutation of the entries can change the agent type |
| Parse.ParseJsonCmd | src/parse.c:61-105 | the one-pass loop equals one independent lookup per key |
| Parse.ParseJsonAgent | src/parse.c:107-133 | the in-place pass sets what `AgentFieldsIff` says, and only that |
| Parse.CommandFieldsIff | src/parse.c:64-88 | each field of a command is the last string under its key, or unchanged if there is none; an empty path_install is null; fd and type never change |
| Parse.AgentFieldsIff | src/parse.c:110-131 | an agent's message changes the mac only, to the last string under miner_mac, and nothing if there is none |
| Parse.AtoiReadsDecimals | src/parse.c:71 | the sequence is the decimal number after white space and an optional sign, up to the first other character, and 0 without digits |
| Parse.SequenceArrives | src/parse.c:70-71 | a sequence written as the numeral of n, or with a minus sign, is stored as n, or -n |
| Parse.LastStringIsMembership | src/parse.c:64-88 | with unique keys a field is set to a text iff that entry is in the object |
| Parse.FieldsIgnoreOrder | src/parse.c:61-133 | the fields a message sets are the same for every permutation of its entries |
| TrailingSpace.SkipTrailingSpace | lib/mysql/m_string.h:314-326 | eight bytes at a time: the end of the longest prefix not ending in a space, for every byte string |
| TrailingSpace.SkipTrailingSpaceAligned | lib/mysql/m_string.h:277-307 | the aligned-word form returns the same end for every address, length, word size and byte order, and reads only aligned words inside the string |
| TrailingSpace.EightSpaces | lib/mysql/m_string.h:319-320 | uint8korr of eight bytes is 0x2020202020202020 iff all are spaces |
| TrailingSpace.AlignedSpaces | lib/mysql/m_string.h:301-302 | an aligned word equals SPACE_INT iff all its bytes are spaces, in either byte order |
| ByteOrder.ByteWeights | lib/mysql/my_byteorder.h:45-75 | the weight of every byte in every unsigned load, written out |
| ByteOrder.SignedIsTwosComplement | lib/mysql/my_byteorder.h:31-43 | the signed reading is the number in -m/2 .. m/2 - 1 that differs by a multiple of m |
| ByteOrder.WrittenAt | lib/mysql/my_byteorder.h:77-101 | a store replaces exactly its own bytes |
| ByteOrder.UnsignedLoads | lib/mysql/my_byteorder.h:45-75 | every unsigned load is the low-byte-first value of its bytes |
| ByteOrder.SignedLoads | lib/mysql/my_byteorder.h:31-43 | every signed load is the two's-complement reading of the unsigned one, sint3korr on 24 bits included |
| ByteOrder.BytewiseIsNative | lib/mysql/byte_order_generic_x86.h:22-38 | the bytewise loads, unsigned and signed, return the one native little-endian word the x86 forms read |
| ByteOrder.NativeIffLowBytes | lib/mysql/byte_order_generic_x86.h:40-56 | memory is the native word of a number iff it holds its low bytes, so a native store leaves what a bytewise one does |
| ByteOrder.RoundTrips | lib/mysql/byte_order_generic.h:38-97 | store then load is the identity modulo 256^N and load then store restores the bytes, for widths 2, 3, 4, 5, 6 and 8 |
| ByteOrder.StoreThenLoad | lib/mysql/my_byteorder.h:77-101 | the same for every width, on any buffer that holds the stored digits |
| ByteOrder.Int2store | lib/mysql/byte_order_generic.h:76-81 | writes the two low bytes in place and nothing else, which is the native word |
| ByteOrder.Int3store | lib/mysql/my_byteorder.h:77-82 | writes the three low bytes in place and nothing else |
| ByteOrder.Int4store | lib/mysql/byte_order_generic.h:83-89 | writes the four low bytes in place and nothing else, which is the native word |
| ByteOrder.Int5store | lib/mysql/my_byteorder.h:84-91 | writes the five low bytes in place and nothing else |
| ByteOrder.Int6store | lib/mysql/my_byteorder.h:93-101 | writes the six low bytes in place and nothing else |
| ByteOrder.Int8store | lib/mysql/byte_order_generic.h:91-97 | two four-byte stores of the halves write the eight low bytes in place and nothing else, which is the native word |
| Bits.AlignIff | lib/mysql/my_global.h:450 | MY_ALIGN(A, 2^k) is the least multiple of 2^k that is at least A iff the sum does not overflow, and is 0 iff A is 0 or it does |
| Bits.AlignIsMonotone | lib/mysql/my_global.h:450 | alignment keeps the order of what it can represent |
| Bits.AlignIsIdempotent | lib/mysql/my_global.h:450 | aligning twice changes nothing, overflow or not |
| Timespec.SetTimespecNsec | lib/mysql/my_global.h:699-721 | the value set in place is normalised and is clock plus offset to the nanosecond, less 2^64 ticks on overflow |
| Timespec.DeadlineIsExactIff | lib/mysql/my_global.h:702-709 | a deadline is normalised, and is clock plus offset to the nanosecond iff the tick sum does not overflow |
| Timespec.SecondsAreExactIff | lib/mysql/my_global.h:723-726 | whole-second deadlines are exact iff neither the product nor the tick sum overflows |
| Timespec.CmpTimespec | lib/mysql/my_global.h:735-751 | on normalised values the result is the sign of the difference of total nanoseconds |
| Timespec.CmpIsTotalOrder | lib/mysql/my_global.h:735-751 | on normalised values the comparison is the order of total nanoseconds |
| Timespec.DeadlinesFromOneClock | lib/mysql/my_global.h:753-761 | deadlines set from one clock value differ by the offsets' difference modulo 2^64, and compare like the offsets iff both tick sums overflow or neither does |

## Left out

- Socket, fcntl and getnameinfo calls and the set-up of the listener (src/utils.c, src/main.c:213-251): assumed to succeed; the answers of recv, send, accept and epoll_wait are inputs, and `die` and `perror_die` end the run.
- The MySQL client, SQL text, the 256-byte query buffers and connection failures: only the effect of the queries on the table is modelled.
- `mysql_update_log`, `mysql_delete_mac` and `mysql_select_session`: never called.
- `msg_client_info` and `append_null` (src/session.c:49-119): a forwarded command is its arguments; building the payload, reading the file, and any crash while doing so are not modelled.
- The result of forwarding: `result` is unsigned, so a failed send is not detected (src/main.c:119-126); a forward is recorded when send is called.
- json-c's parser and memory management: a dangling session pointer is covered by arbitrary session contents.
- realloc and buffer lifetime in `socket_read`: the received bytes are a sequence, not a heap block.
- The uncompiled blocks src/main.c:131-136 and src/main.c:144-166.
- Receive: the listed answers are finite; a peer that keeps the loop supplied with data for ever is not modelled.
- Atoi: an out-of-range number is undefined in C; the model keeps the unbounded value.
- VisitTraceIff: an agent message of another peer that leaves its mac out is excluded; it can take over the visitor's mac (`SharedSession.LeakHappens`).
- The floating-point get and store functions and the Windows branches.
