# xtcp per-connection event protocol, in Dafny

The xtcp library is the TCP/UDP stack of XMOS devices. Client tasks talk to a
single stack task. The client interface, `lib_xtcp/api/xtcp.h`, sets the rules
for each connection. The stack reports one event at a time through
`xtcp_event`. Some events oblige the client to make a particular call before
any other interaction with the stack:

- after `XTCP_RECV_DATA`, one of the receive calls;
- after `XTCP_REQUEST_DATA`, `XTCP_SENT_DATA` or `XTCP_RESEND_DATA`, a send.

The send handshake works like this. `xtcp_init_send` arms it, and
`REQUEST_DATA` follows. Each non-empty send is answered by `SENT_DATA` (more
data wanted) or by `RESEND_DATA` (the same bytes again). A send of length zero
(`xtcp_complete_send`) ends the exchange. `TIMED_OUT`, `ABORTED` and `CLOSED`
are the last events on a connection. In ack-receive mode a receive event
closes the receive window until `xtcp_ack_recv`. The appstate set by the
client comes back with every later event.

The project has four files:

- `xtcp_types.dfy` (module `XtcpTypes`): the header's enumerations, the
  `xtcp_connection_t` record, and the 32-bit integer types.
- `protocol.dfy` (module `ConnectionProtocol`): the protocol as a state
  machine on values.
  - `MayOccur` and `AfterEvent` say which events the stack may report next,
    and what each one does.
  - `OpLegal` and `AfterOp` do the same for client calls.
  - `Run` replays a trace of events and calls, and `Records` lists the
    connection records the client sees along the trace.
  - The lemmas state the header's rules over whole traces.
- `recv_buffer.dfy` (module `RecvBuffer`): how `xtcp_recv`, `xtcp_recvi` and
  `xtcp_recv_count` fill the caller's `char data[]`. It is an `array<byte>`
  written in place by a loop.
- `connection.dfy` (module `XtcpConnection`): class `Connection`. It has the
  connection's fields and one method per call of the interface, plus
  `Deliver` for an event being reported. Each method requires that the
  protocol allows the call. Each method's postcondition sets the new state
  equal to `AfterOp` or `AfterEvent` of the old state, and appends the step
  to the ghost `history`. `Valid()` says that replaying `history` from the
  connection's initial state (`Run`) reaches the current state. So the trace
  lemmas apply to the object's history; `HistoryEndsAtTerminal` and
  `HistoryBackPressure` are two of them, stated on the object.

How the model reads the header where the comments leave room:

- No event is reported while an obligation is pending. The header says the
  client must make the required call "before any other interaction with the
  server", and that includes fetching the next event.
- `XTCP_PUSH_DATA` carries no obligation: its comment (lines 110-113) asks
  nothing of the client. It is reported only for TCP, and only while data
  could arrive (window open, not paused).
- `TIMED_OUT` and `ABORTED` occur only on TCP connections, as lines 140-151 say.
  `CLOSED` occurs on both protocols.
- `xtcp_init_send` is legal only when no send exchange is in progress (lines
  298-308 say nothing about calling it twice). A second call while the
  handshake is armed or data is in flight is refused, and so is one while a
  send is owed.
- The calls whose description names UDP are legal only on UDP connections:
  `xtcp_bind_local` ("(UDP)", line 253), `xtcp_bind_remote` (line 266) and
  `xtcp_set_poll_interval` ("Set UDP poll interval", lines 483-486). So
  `POLL` events occur only on UDP connections.
- The converse is not applied. `xtcp_ack_recv_mode` speaks of "the tcp
  window" (line 402), and `xtcp_pause`/`xtcp_unpause` take a "tcp connection
  structure" (lines 540, 552). The model still lets all three be called on a
  UDP connection, with the same effect as on TCP: in ack-receive mode a UDP
  `RECV_DATA` also closes the window until `xtcp_ack_recv`, and pause also
  blocks UDP receive and send events.
- A new connection starts with appstate 0. The header gives no starting value
  (lines 198-200), and no lemma depends on it: `AppStateEchoed` holds for any
  starting appstate.
- The header does not say how the `int port_number` arguments (lines 259-277)
  become the `unsigned int` port fields (lines 202-203). The model applies
  C's conversion rule for assigning an `int` to an `unsigned int`: a
  non-negative value is kept, a negative one gains 2^32 (`ToUnsigned`).
- A send carries at most `mss` bytes (lines 204-205). After `RESEND_DATA` it
  carries the same bytes again, or none (lines 131-138, 443-448).
- The connection object comes into being with its `NEW_CONNECTION` event, so
  that event never occurs on it again. `IFUP`, `IFDOWN` and `ALREADY_HANDLED`
  never occur on a connection either.
- The receive calls take the bytes that came with the pending `RECV_DATA`.
  That event's payload is a parameter of `Deliver` and is recorded in the
  state.

## Model

| member | source | states |
|---|---|---|
| XtcpTypes.ToUnsigned | lib_xtcp/api/xtcp.h:253-277 | an `int` port argument becomes the `unsigned int` field: unchanged when non-negative, plus 2^32 when negative |
| ConnectionProtocol.Initial | lib_xtcp/api/xtcp.h:96-103 | a new connection satisfies the protocol invariant, owes nothing, has no send in progress and an open receive window outside ack-receive mode |
| ConnectionProtocol.MayOccur | lib_xtcp/api/xtcp.h:159-174 | no event the stack reports on a connection is `IFUP`/`IFDOWN` (which have no connection), `ALREADY_HANDLED` (set only by the client) or a second `NEW_CONNECTION` |
| ConnectionProtocol.AfterEvent | lib_xtcp/api/xtcp.h:95-157 | a reported event becomes the connection's last event and keeps its id and appstate; the client then owes a receive exactly after `RECV_DATA` (of its payload), a send exactly after `REQUEST_DATA`, `SENT_DATA` or `RESEND_DATA`, and the connection is terminated exactly after `TIMED_OUT`, `ABORTED` or `CLOSED` |
| ConnectionProtocol.OpLegal | lib_xtcp/api/xtcp.h:105-138 | no call is legal on a terminated connection; while a receive is owed only the receive calls are legal, and only then; while a send is owed only a send is legal, of at most mss bytes, and only then; `xtcp_init_send` only when no send exchange is in progress |
| ConnectionProtocol.AfterOp | lib_xtcp/api/xtcp.h:298-556 | a legal call from an invariant state leaves the client owing nothing; it reports no event, does not terminate the connection, keeps its id, protocol and mss, and changes the appstate only for `xtcp_set_connection_appstate`, to its argument |
| ConnectionProtocol.EventPreservesInvariant | lib_xtcp/api/xtcp.h:95-174 | every event keeps the invariant: at most one obligation, and it belongs to the last reported event; the window is closed only in ack-receive mode; a terminated connection owes nothing |
| ConnectionProtocol.OpPreservesInvariant | lib_xtcp/api/xtcp.h:298-480 | every legal client call keeps the same invariant |
| ConnectionProtocol.NextPreservesInvariant | lib_xtcp/api/xtcp.h:95-174 | any single allowed step, event or call, keeps the invariant |
| ConnectionProtocol.RunPreservesInvariant | lib_xtcp/api/xtcp.h:193-209 | every state reached by a legal trace keeps the invariant, so at most one event is outstanding on a connection at any time |
| ConnectionProtocol.RecvDataObliges | lib_xtcp/api/xtcp.h:105-108 | after `RECV_DATA` a call is legal if and only if it is `xtcp_recv`, `xtcp_recvi`, `xtcp_recv_count` or `xtcp_ignore_recv`; no event can occur meanwhile; each of them clears the pending receive and its bytes |
| ConnectionProtocol.SendEventObliges | lib_xtcp/api/xtcp.h:115-138 | after `REQUEST_DATA`, `SENT_DATA` or `RESEND_DATA` a call is legal if and only if it is a send of at most mss bytes, after `RESEND_DATA` of the last sent bytes or of none; no event can occur meanwhile |
| ConnectionProtocol.InitSendArms | lib_xtcp/api/xtcp.h:298-308 | after `xtcp_init_send` the only send-side event that can occur is `REQUEST_DATA`, and unless the connection is paused or closing it can occur |
| ConnectionProtocol.SendOutcome | lib_xtcp/api/xtcp.h:431-437 | after a zero-length send no send-side event can occur; after a non-empty one only `SENT_DATA` or `RESEND_DATA` can |
| ConnectionProtocol.EventObligations | lib_xtcp/api/xtcp.h:105-157 | the reported record carries the event and the current appstate; `RECV_DATA` obliges a receive of its payload, a send-side event obliges a send; while obliged, or after a terminal event, no event can occur; after a terminal event no call is legal |
| ConnectionProtocol.ResendAsksSameData | lib_xtcp/api/xtcp.h:131-138 | after `RESEND_DATA` a send is legal if and only if it carries exactly the bytes of the last send, or none |
| ConnectionProtocol.TerminatedIsDead | lib_xtcp/api/xtcp.h:140-157 | on a terminated connection no event and no call is allowed |
| ConnectionProtocol.TerminalEventIsLast | lib_xtcp/api/xtcp.h:140-157 | in every legal trace a `TIMED_OUT`, `ABORTED` or `CLOSED` event is the last step |
| ConnectionProtocol.RecordsCarryId | lib_xtcp/api/xtcp.h:193-197 | every connection record the client receives along a trace carries the connection's id |
| ConnectionProtocol.RecordsEndAtTerminal | lib_xtcp/api/xtcp.h:140-157 | among the records the client receives, only the last can report a terminal event |
| ConnectionProtocol.AppStateEchoed | lib_xtcp/api/xtcp.h:197-200 | without a further appstate call, every record received along a trace carries the appstate the connection had at its start |
| ConnectionProtocol.SetAppStateThenEchoed | lib_xtcp/api/xtcp.h:313-326 | after `xtcp_set_connection_appstate(a)`, every later event carries `a` until the appstate is set again |
| ConnectionProtocol.RecvDataThenRecvCall | lib_xtcp/api/xtcp.h:105-108 | in every legal trace the step right after a `RECV_DATA` event is one of the four receive calls |
| ConnectionProtocol.SendEventThenSendCall | lib_xtcp/api/xtcp.h:426-430 | in every legal trace the step right after `REQUEST_DATA`, `SENT_DATA` or `RESEND_DATA` is a send call |
| ConnectionProtocol.FirstSendEvent | lib_xtcp/api/xtcp.h:115-138 | from an armed handshake the first send-side event is `REQUEST_DATA`; with data in flight it is `SENT_DATA` or `RESEND_DATA`, and the sent bytes are still recorded when it comes |
| ConnectionProtocol.InitSendThenRequestData | lib_xtcp/api/xtcp.h:298-302 | in every legal trace that starts with `xtcp_init_send`, the first send-side event is `REQUEST_DATA` |
| ConnectionProtocol.NonEmptySendAnswered | lib_xtcp/api/xtcp.h:123-138 | in every legal trace that starts with a non-empty send, the first send-side event is `SENT_DATA` or `RESEND_DATA`; after `RESEND_DATA` the legal sends are exactly that same data or the finishing empty send |
| ConnectionProtocol.EmptySendEndsExchange | lib_xtcp/api/xtcp.h:431-437 | after a zero-length send, a `SENT_DATA` or `RESEND_DATA` event can only come after a new `xtcp_init_send` |
| ConnectionProtocol.AckRecvModeSticky | lib_xtcp/api/xtcp.h:400-410 | once ack-receive mode is on it stays on for the rest of any legal trace |
| ConnectionProtocol.WindowStaysClosed | lib_xtcp/api/xtcp.h:400-404 | with the window closed in ack-receive mode, any later `RECV_DATA` is preceded by an `xtcp_ack_recv` call |
| ConnectionProtocol.AckRecvBackPressure | lib_xtcp/api/xtcp.h:400-423 | in ack-receive mode, between two `RECV_DATA` events of a trace there is always an `xtcp_ack_recv` call |
| RecvBuffer.Splice | lib_xtcp/api/xtcp.h:368-369 | writing `src` at index i yields a buffer of the same length that holds `src[k - i]` at positions i to i+len-1 and the old element everywhere else |
| RecvBuffer.StoredCount | lib_xtcp/api/xtcp.h:382-386 | a receive capped at `count` stores no more than the available bytes and no more than `count`, and exactly the smaller of the two (none for a negative count) |
| RecvBuffer.WriteAt | lib_xtcp/api/xtcp.h:364-376 | the array loop leaves `data` equal to `Splice` of its old contents |
| RecvBuffer.PullInto | lib_xtcp/api/xtcp.h:364-376 | `xtcp_recvi` puts the received bytes in `data[i..i+n]`, leaves the rest of `data` unchanged and returns n, the number of bytes received |
| RecvBuffer.PullCount | lib_xtcp/api/xtcp.h:378-398 | `xtcp_recv_count` stores the first min(n, count) bytes at `data[0..]`, leaves the rest unchanged and returns n, the number of bytes pulled, which may exceed `count` |
| XtcpConnection.Outgoing | lib_xtcp/api/xtcp.h:467-468 | the bytes sent by `xtcp_sendi` are `len` bytes with `data[i]` first; none when `len` is 0 |
| XtcpConnection.ExtendHistory | lib_xtcp/api/xtcp.h:280-296 | an allowed event or call extends a history that led to the current state into one that leads to the next state, which keeps the invariant |
| XtcpConnection.HistoryEndsAtTerminal | lib_xtcp/api/xtcp.h:140-157 | in a valid connection object's history a terminal event is the last step |
| XtcpConnection.HistoryBackPressure | lib_xtcp/api/xtcp.h:400-423 | in a valid connection object's history in ack-receive mode, an `xtcp_ack_recv` call separates any two `RECV_DATA` events |
| XtcpConnection.Connection.Apply | lib_xtcp/api/xtcp.h:95-157 | the fields an allowed event changes are set as `AfterEvent` says, and the history is left to the caller |
| XtcpConnection.Connection.constructor | lib_xtcp/api/xtcp.h:96-103 | a connection created by its `NEW_CONNECTION` event is in the initial state, with an empty history, and valid |
| XtcpConnection.Connection.Deliver | lib_xtcp/api/xtcp.h:280-296 | reporting an allowed event moves the connection to `AfterEvent` and returns the record with the event and the appstate; the obligation it creates is stated, and after a terminal event nothing more is possible |
| XtcpConnection.Connection.InitSend | lib_xtcp/api/xtcp.h:298-308 | `xtcp_init_send` arms the handshake; the only send-side event that can follow is `REQUEST_DATA` |
| XtcpConnection.Connection.Submit | lib_xtcp/api/xtcp.h:426-441 | a send moves the connection to `AfterOp`; with no bytes no send-side event can follow, otherwise only `SENT_DATA` or `RESEND_DATA` |
| XtcpConnection.Connection.Send | lib_xtcp/api/xtcp.h:426-441 | `xtcp_send(data, len)` sends `data[0..len]`; with `len == 0` no `SENT_DATA` or `RESEND_DATA` can follow |
| XtcpConnection.Connection.SendAt | lib_xtcp/api/xtcp.h:462-480 | `xtcp_sendi(data, i, len)` sends `data[i..i+len]`; with `len == 0` no `SENT_DATA` or `RESEND_DATA` can follow |
| XtcpConnection.Connection.CompleteSend | lib_xtcp/api/xtcp.h:443-460 | `xtcp_complete_send` is `xtcp_send(null, 0)` and has the same effect: the exchange ends |
| XtcpConnection.Connection.Recv | lib_xtcp/api/xtcp.h:345-353 | `xtcp_recv` writes the pending bytes to `data[0..n]`, leaves the rest of `data` alone, returns n and clears the obligation |
| XtcpConnection.Connection.RecvAt | lib_xtcp/api/xtcp.h:364-376 | `xtcp_recvi` writes the pending bytes from `data[i]` on, changes no other element, returns their number and clears the obligation |
| XtcpConnection.Connection.RecvCount | lib_xtcp/api/xtcp.h:378-398 | `xtcp_recv_count` stores at most `count` bytes, returns the full number pulled and keeps none of the excess |
| XtcpConnection.Connection.IgnoreRecv | lib_xtcp/api/xtcp.h:355-361 | `xtcp_ignore_recv` drops the pending bytes and clears the obligation |
| XtcpConnection.Connection.AckRecvMode | lib_xtcp/api/xtcp.h:400-410 | `xtcp_ack_recv_mode` switches ack-receive mode on |
| XtcpConnection.Connection.AckRecv | lib_xtcp/api/xtcp.h:413-423 | `xtcp_ack_recv` reopens the receive window, so a new `RECV_DATA` can occur unless the connection is paused or closing |
| XtcpConnection.Connection.SetAppState | lib_xtcp/api/xtcp.h:313-326 | `xtcp_set_connection_appstate(a)` records `a` for later events |
| XtcpConnection.Connection.SetPollInterval | lib_xtcp/api/xtcp.h:483-494 | `xtcp_set_poll_interval` (UDP) records the interval; `POLL` can then occur exactly when the interval is positive, while the connection is not closing |
| XtcpConnection.Connection.BindLocal | lib_xtcp/api/xtcp.h:253-261 | `xtcp_bind_local` (UDP) sets the local port reported with later events |
| XtcpConnection.Connection.BindRemote | lib_xtcp/api/xtcp.h:263-277 | `xtcp_bind_remote` (UDP only) sets the remote address and port |
| XtcpConnection.Connection.Pause | lib_xtcp/api/xtcp.h:536-544 | after `xtcp_pause` no receive event and no send-side event can occur |
| XtcpConnection.Connection.Unpause | lib_xtcp/api/xtcp.h:547-556 | `xtcp_unpause` clears the pause, so `RECV_DATA` can occur again when the window is open and the connection is not closing |
| XtcpConnection.Connection.Close | lib_xtcp/api/xtcp.h:328-334 | after `xtcp_close` only a terminal event can occur |
| XtcpConnection.Connection.Abort | lib_xtcp/api/xtcp.h:336-342 | after `xtcp_abort` only a terminal event can occur |

## Left out

- The `xtcp()` stack task and its MII, Ethernet, SMI and OTP interfaces (lines 568-619): these are hardware and driver wiring.
- Channel transport, and the `transaction`/select nature of `xtcp_event` (lines 280-296): this is concurrency. Event delivery is modelled as the caller of `Deliver` choosing any event that `MayOccur` allows.
- `xtcp_listen`, `xtcp_unlisten` and `xtcp_connect` (lines 221-250): these act on the stack's table of connections, not on one connection. The model starts a connection at its `NEW_CONNECTION` event. A connect attempt that never produces `NEW_CONNECTION` has no object in this model.
- `xtcp_get_mac_address`, `xtcp_get_ipconfig`, `xtcp_uint_to_ipaddr`, the IPv6 address union and `xtcp_ipconfig_t` (lines 34-75, 212-219, 517-533): these are queries and conversions with no protocol rule. Addresses are IPv4 only.
- `XTCP_IPADDR_CPY` and `XTCP_IPADDR_CMP` (lines 623-630): they are defined in `xtcp_impl.h`, which is not part of this model.
- `xtcp_join_multicast_group` and `xtcp_leave_multicast_group` (lines 496-515): the header states no rule about them beyond one sentence each.
- `xtcp_accept_partial_ack` and the `outstanding` field (lines 206-208, 559-566): the header gives each one sentence and states no rule that an event or call must follow; the call is marked experimental only under IPv6 (line 563).
- `POLL` timing: only the enabling is modelled (on a UDP connection, a positive interval allows `POLL` events). The period in milliseconds is not.
- `XTCP_CLIENT_BUF_SIZE` and `XTCP_MAX_RECEIVE_SIZE` (lines 12-21): the header ties neither to a call. The receive calls instead require the caller's array to hold what they write.
- `xtcp_write_buf` (mentioned at lines 430 and 466): it is not declared in this header.
- The TCP/IP engine (retransmission, windows, segment parsing) and the host-side load-test scripts `test.py` and `send_data.py`.
- Error codes: none of the header's calls reports an error, so an out-of-sequence call is excluded by the method's precondition, not reported.
- XtcpConnection.Connection.Pause: weaker than a full "no network activity". It blocks the events that carry data (receive and send-side), but still allows `POLL` and terminal events.
- XtcpConnection.Connection.Close: the header says only "Close a connection". The model reads this as "only a terminal event can follow", and it does not say which terminal event.
- XtcpConnection.Connection.Abort: same reading as `Close`. It does not promise that the final event is `ABORTED` rather than another terminal event.
