/**
 * The per-connection event protocol of the xtcp client interface, as a
 * state machine on values. A connection alternates between events that the
 * stack reports (`xtcp_event`) and calls that the client makes. Each event
 * can put the client under an obligation (receive the data, or send data)
 * that must be discharged before any other interaction with the stack.
 *
 * `MayOccur`/`AfterEvent` say which events the stack may report next and
 * what they do; `OpLegal`/`AfterOp` say which calls the client may make and
 * what they do. `Run` replays a trace of both, and the lemmas at the end
 * state the rules of lib_xtcp/api/xtcp.h over whole traces.
 */
module ConnectionProtocol {
  import opened XtcpTypes

  /** The event that last asked the client for data. */
  datatype SendKind = Request | Sent | Resend

  /** Where the connection stands in the send handshake. */
  datatype SendPhase =
    | SendIdle            // no send in progress
    | Armed               // xtcp_init_send was called, REQUEST_DATA awaited
    | Requested(kind: SendKind)  // the client must call xtcp_send now
    | InFlight            // data was handed over, SENT_DATA or RESEND_DATA awaited

  /** What the stack holds about one connection. */
  datatype ConnState = ConnState(
    id: int32,
    protocol: Protocol,
    connectionType: ConnectionType,
    remoteAddr: IpAddr,
    remotePort: uint32,
    localPort: uint32,
    mss: uint32,
    lastEvent: EventType,
    appstate: uint32,
    recvPending: bool,        // RECV_DATA reported, not yet received
    received: seq<byte>,      // the bytes of the pending RECV_DATA
    sendPhase: SendPhase,
    lastSent: seq<byte>,      // the bytes of the last non-empty send
    ackRecvMode: bool,
    windowOpen: bool,
    paused: bool,
    pollInterval: int32,
    closing: bool,            // xtcp_close or xtcp_abort was called
    terminated: bool)         // a terminal event was reported

  /** A client call on the connection. */
  datatype Op =
    | InitSend
    | Send(data: seq<byte>)
    | Recv
    | RecvAt(index: int)
    | RecvCount(count: int)
    | IgnoreRecv
    | AckRecvMode
    | AckRecv
    | SetAppState(appstate: uint32)
    | SetPollInterval(ms: int32)
    | BindLocal(port: int32)
    | BindRemote(addr: IpAddr, port: int32)
    | Pause
    | Unpause
    | Close
    | Abort

  /** One step of a trace: an event reported by the stack or a client call. */
  datatype Step = Event(event: EventType, payload: seq<byte>) | Call(op: Op)

  /** The obligation the client is under. */
  datatype Duty = NoDuty | MustRecv | MustSend

  function DutyOf(st: ConnState): Duty {
    if st.recvPending then MustRecv
    else if st.sendPhase.Requested? then MustSend
    else NoDuty
  }

  /** The event that puts the send handshake into the given kind. */
  function RequestingEvent(k: SendKind): EventType {
    match k
    case Request => RequestData
    case Sent => SentData
    case Resend => ResendData
  }

  /** The invariant every reachable state keeps. */
  predicate Invariant(st: ConnState) {
    // at most one obligation, and it belongs to the last reported event
    && !(st.recvPending && st.sendPhase.Requested?)
    && (st.recvPending ==> st.lastEvent == RecvData)
    && (st.sendPhase.Requested? ==> st.lastEvent == RequestingEvent(st.sendPhase.kind))
    && (!st.recvPending ==> st.received == [])
    // the receive window is only ever closed in ack-receive mode
    && (!st.ackRecvMode ==> st.windowOpen)
    // data waiting for an outcome, or to be resent, is at hand and fits
    && ((st.sendPhase == InFlight || st.sendPhase == Requested(Resend)) ==>
          0 < |st.lastSent| <= st.mss)
    // a closed connection owes nothing
    && (st.terminated ==> IsTerminal(st.lastEvent) && DutyOf(st) == NoDuty)
  }

  /** The state on the NEW_CONNECTION event that creates the connection. */
  function Initial(id: int32, protocol: Protocol, connectionType: ConnectionType,
                   remoteAddr: IpAddr, remotePort: uint32, localPort: uint32,
                   mss: uint32): (st: ConnState)
    ensures Invariant(st) && DutyOf(st) == NoDuty && !st.terminated
    ensures st.sendPhase == SendIdle && st.windowOpen && !st.ackRecvMode
  {
    ConnState(id, protocol, connectionType, remoteAddr, remotePort, localPort, mss,
              NewConnection, 0, false, [], SendIdle, [], false, true, false, 0,
              false, false)
  }

  /** The record delivered with an event that led to state `st`. */
  function Record(st: ConnState): ConnectionRecord {
    ConnectionRecord(st.id, st.protocol, st.connectionType, st.lastEvent, st.appstate,
                     st.remoteAddr, st.remotePort, st.localPort, st.mss)
  }

  // ---------------------------------------------------------------- events

  /** The events the stack may report next on this connection. */
  predicate MayOccur(st: ConnState, e: EventType)
    ensures MayOccur(st, e) ==> !IsLinkEvent(e) && e != NewConnection && e != AlreadyHandled
  {
    && !st.terminated
    && DutyOf(st) == NoDuty
    && if IsTerminal(e) then e == Closed || st.protocol == TCP
       else
         && !st.closing
         && match e
            case RecvData => !st.paused && st.windowOpen
            case PushData => st.protocol == TCP && !st.paused && st.windowOpen
            case RequestData => !st.paused && st.sendPhase == Armed
            case SentData => !st.paused && st.sendPhase == InFlight
            case ResendData => !st.paused && st.sendPhase == InFlight
            case Poll => st.pollInterval > 0
            case _ => false
  }

  /** The state after the stack reports `e`: the event is recorded, and it
      puts the client under the obligation it carries, or ends the connection. */
  function AfterEvent(st: ConnState, e: EventType, payload: seq<byte>): (r: ConnState)
    requires MayOccur(st, e)
    ensures r.lastEvent == e && r.id == st.id && r.appstate == st.appstate
    ensures DutyOf(r) == MustRecv <==> e == RecvData
    ensures DutyOf(r) == MustSend <==> IsSendEvent(e)
    ensures r.terminated <==> IsTerminal(e)
    ensures e == RecvData ==> r.received == payload
  {
    var st' := st.(lastEvent := e);
    match e
    case RecvData =>
      st'.(recvPending := true, received := payload,
           windowOpen := st.windowOpen && !st.ackRecvMode)
    case RequestData => st'.(sendPhase := Requested(Request))
    case SentData => st'.(sendPhase := Requested(Sent))
    case ResendData => st'.(sendPhase := Requested(Resend))
    case TimedOut => st'.(terminated := true)
    case Aborted => st'.(terminated := true)
    case Closed => st'.(terminated := true)
    case _ => st'
  }

  // ----------------------------------------------------------------- calls

  predicate IsRecvOp(op: Op) {
    op.Recv? || op.RecvAt? || op.RecvCount? || op.IgnoreRecv?
  }

  /** The calls the client may make next on this connection: exactly the
      receive calls while a receive is owed, exactly a send while a send is
      owed, and neither of those otherwise. */
  predicate OpLegal(st: ConnState, op: Op)
    ensures OpLegal(st, op) ==> !st.terminated
    ensures OpLegal(st, op) && st.recvPending ==> IsRecvOp(op)
    ensures OpLegal(st, op) && DutyOf(st) == MustSend ==> op.Send?
    ensures OpLegal(st, op) && IsRecvOp(op) ==> st.recvPending
    ensures OpLegal(st, op) && op.Send? ==> DutyOf(st) == MustSend && |op.data| <= st.mss
    ensures OpLegal(st, op) && op == InitSend ==> st.sendPhase == SendIdle
  {
    && !st.terminated
    && match op
       case Recv => st.recvPending
       case RecvAt(_) => st.recvPending
       case RecvCount(_) => st.recvPending
       case IgnoreRecv => st.recvPending
       case Send(data) =>
         && DutyOf(st) == MustSend
         && |data| <= st.mss
         && (st.sendPhase.kind == Resend ==> data == [] || data == st.lastSent)
       case InitSend => DutyOf(st) == NoDuty && st.sendPhase == SendIdle
       case BindLocal(_) => DutyOf(st) == NoDuty && st.protocol == UDP
       case BindRemote(_, _) => DutyOf(st) == NoDuty && st.protocol == UDP
       case SetPollInterval(_) => DutyOf(st) == NoDuty && st.protocol == UDP
       case _ => DutyOf(st) == NoDuty
  }

  /** The state after a legal call: the call discharges whatever the client
      owed, reports no event and leaves the connection's identity alone. */
  function AfterOp(st: ConnState, op: Op): (r: ConnState)
    requires OpLegal(st, op)
    ensures Invariant(st) ==> DutyOf(r) == NoDuty
    ensures r.lastEvent == st.lastEvent && !r.terminated
    ensures r.id == st.id && r.protocol == st.protocol && r.mss == st.mss
    ensures r.appstate == if op.SetAppState? then op.appstate else st.appstate
  {
    match op
    case Recv => st.(recvPending := false, received := [])
    case RecvAt(_) => st.(recvPending := false, received := [])
    case RecvCount(_) => st.(recvPending := false, received := [])
    case IgnoreRecv => st.(recvPending := false, received := [])
    case Send(data) =>
      if data == [] then st.(sendPhase := SendIdle, lastSent := [])
      else st.(sendPhase := InFlight, lastSent := data)
    case InitSend => st.(sendPhase := Armed)
    case AckRecvMode => st.(ackRecvMode := true)
    case AckRecv => st.(windowOpen := true)
    case SetAppState(a) => st.(appstate := a)
    case SetPollInterval(ms) => st.(pollInterval := ms)
    case BindLocal(p) => st.(localPort := ToUnsigned(p))
    case BindRemote(addr, p) => st.(remoteAddr := addr, remotePort := ToUnsigned(p))
    case Pause => st.(paused := true)
    case Unpause => st.(paused := false)
    case Close => st.(closing := true)
    case Abort => st.(closing := true)
  }

  // ---------------------------------------------------------------- traces

  function Next(st: ConnState, s: Step): Option<ConnState> {
    match s
    case Event(e, p) => if MayOccur(st, e) then Some(AfterEvent(st, e, p)) else None
    case Call(op) => if OpLegal(st, op) then Some(AfterOp(st, op)) else None
  }

  /** The state after the trace, or None if some step of it is not allowed. */
  function Run(st: ConnState, t: seq<Step>): Option<ConnState>
    decreases |t|
  {
    if t == [] then Some(st)
    else match Next(st, t[0])
      case None => None
      case Some(s) => Run(s, t[1..])
  }

  predicate Legal(st: ConnState, t: seq<Step>) {
    Run(st, t).Some?
  }

  /** The connection records the client receives along a legal trace. */
  function Records(st: ConnState, t: seq<Step>): seq<ConnectionRecord>
    requires Legal(st, t)
    decreases |t|
  {
    if t == [] then []
    else
      var s := Next(st, t[0]).value;
      (if t[0].Event? then [Record(s)] else []) + Records(s, t[1..])
  }

  predicate IsSendEventStep(s: Step) {
    s.Event? && IsSendEvent(s.event)
  }

  predicate IsSetAppStateStep(s: Step) {
    s.Call? && s.op.SetAppState?
  }

  // ---------------------------------------------------------- step lemmas

  lemma EventPreservesInvariant(st: ConnState, e: EventType, payload: seq<byte>)
    requires Invariant(st) && MayOccur(st, e)
    ensures Invariant(AfterEvent(st, e, payload))
  {
    match e
    case RecvData =>
    case RequestData =>
    case SentData =>
    case ResendData =>
    case _ =>
  }

  lemma OpPreservesInvariant(st: ConnState, op: Op)
    requires Invariant(st) && OpLegal(st, op)
    ensures Invariant(AfterOp(st, op))
  {
    match op
    case Send(data) =>
    case InitSend =>
    case AckRecv =>
    case AckRecvMode =>
    case _ =>
  }

  lemma NextPreservesInvariant(st: ConnState, s: Step)
    requires Invariant(st) && Next(st, s).Some?
    ensures Invariant(Next(st, s).value)
  {
    match s
    case Event(e, p) => EventPreservesInvariant(st, e, p);
    case Call(op) => OpPreservesInvariant(st, op);
  }

  /** Every state reached from an invariant state keeps the invariant. */
  lemma {:induction false} RunPreservesInvariant(st: ConnState, t: seq<Step>)
    requires Invariant(st) && Legal(st, t)
    ensures Invariant(Run(st, t).value)
    decreases |t|
  {
    if t != [] {
      NextPreservesInvariant(st, t[0]);
      RunPreservesInvariant(Next(st, t[0]).value, t[1..]);
    }
  }

  /** After RECV_DATA the client must receive or ignore the data before
      anything else, no event occurs meanwhile, and receiving clears it. */
  lemma RecvDataObliges(st: ConnState, payload: seq<byte>)
    requires MayOccur(st, RecvData)
    ensures var s := AfterEvent(st, RecvData, payload);
      && (forall op :: OpLegal(s, op) <==> IsRecvOp(op))
      && (forall e :: !MayOccur(s, e))
      && (forall op :: IsRecvOp(op) ==>
            DutyOf(AfterOp(s, op)) == NoDuty && AfterOp(s, op).received == [])
  {
  }

  /** After REQUEST_DATA, SENT_DATA or RESEND_DATA the client's only legal
      call is a send of at most mss bytes, and after RESEND_DATA only of the
      same bytes again or of nothing. */
  lemma SendEventObliges(st: ConnState, e: EventType, payload: seq<byte>)
    requires MayOccur(st, e) && IsSendEvent(e)
    ensures var s := AfterEvent(st, e, payload);
      && (forall op :: OpLegal(s, op) <==>
            && op.Send?
            && |op.data| <= st.mss
            && (e == ResendData ==> op.data == [] || op.data == st.lastSent))
      && (forall e' :: !MayOccur(s, e'))
  {
  }

  /** xtcp_init_send arms the handshake: the only send-side event it allows
      next is REQUEST_DATA. */
  lemma InitSendArms(st: ConnState)
    requires OpLegal(st, InitSend)
    ensures forall e :: MayOccur(AfterOp(st, InitSend), e) && IsSendEvent(e) ==> e == RequestData
    ensures !AfterOp(st, InitSend).closing ==> (MayOccur(AfterOp(st, InitSend), RequestData) <==> !st.paused)
  {
  }

  /** A send of length zero ends the exchange; a longer one awaits either
      SENT_DATA or RESEND_DATA. */
  lemma SendOutcome(st: ConnState, data: seq<byte>)
    requires OpLegal(st, Send(data))
    ensures data == [] ==> forall e :: IsSendEvent(e) ==> !MayOccur(AfterOp(st, Send(data)), e)
    ensures data != [] ==>
      forall e :: IsSendEvent(e) && MayOccur(AfterOp(st, Send(data)), e) ==>
        e == SentData || e == ResendData
  {
  }

  /** What each event leaves the client to do next. */
  lemma EventObligations(st: ConnState, e: EventType, payload: seq<byte>)
    requires MayOccur(st, e)
    ensures var s := AfterEvent(st, e, payload);
      && Record(s).event == e && Record(s).appstate == st.appstate
      && (e == RecvData ==> DutyOf(s) == MustRecv && s.received == payload)
      && (IsSendEvent(e) ==> DutyOf(s) == MustSend)
      && (DutyOf(s) != NoDuty || IsTerminal(e) ==> forall e' :: !MayOccur(s, e'))
      && (IsTerminal(e) ==> forall op :: !OpLegal(s, op))
  {
  }

  /** Nothing at all can happen on a terminated connection. */
  lemma TerminatedIsDead(st: ConnState, s: Step)
    requires st.terminated
    ensures Next(st, s) == None
  {
  }

  // --------------------------------------------------------- trace lemmas

  lemma {:induction false} RunSplit(st: ConnState, t: seq<Step>, k: nat)
    requires k <= |t|
    ensures Run(st, t) == if Run(st, t[..k]).Some? then Run(Run(st, t[..k]).value, t[k..]) else None
    decreases k
  {
    if k == 0 {
      assert t[..0] == [] && t[0..] == t;
    } else {
      assert t[..k][0] == t[0] && t[..k][1..] == t[1..][..k - 1];
      match Next(st, t[0])
      case None =>
      case Some(s) =>
        RunSplit(s, t[1..], k - 1);
        assert t[1..][k - 1..] == t[k..];
    }
  }

  /** Step k of a legal trace is allowed in the state the prefix reaches. */
  lemma StepAt(st: ConnState, t: seq<Step>, k: nat)
    requires Legal(st, t) && k < |t|
    ensures Legal(st, t[..k])
    ensures Next(Run(st, t[..k]).value, t[k]).Some?
    ensures Legal(Next(Run(st, t[..k]).value, t[k]).value, t[k + 1..])
  {
    RunSplit(st, t, k);
    assert t[k..][0] == t[k] && t[k..][1..] == t[k + 1..];
  }

  lemma PrependCall(st: ConnState, op: Op, t: seq<Step>)
    requires Legal(st, [Call(op)] + t)
    ensures OpLegal(st, op) && Legal(AfterOp(st, op), t)
    ensures Run(st, [Call(op)] + t) == Run(AfterOp(st, op), t)
  {
    assert ([Call(op)] + t)[0] == Call(op) && ([Call(op)] + t)[1..] == t;
  }

  /** A legal trace extended by one step runs to that step's successor. */
  lemma RunSnoc(st: ConnState, t: seq<Step>, s: Step)
    requires Legal(st, t)
    ensures Run(st, t + [s]) == Next(Run(st, t).value, s)
  {
    RunSplit(st, t + [s], |t|);
    assert (t + [s])[..|t|] == t && (t + [s])[|t|..] == [s];
  }

  /** A terminal event is the last step of any legal trace it occurs in. */
  lemma TerminalEventIsLast(st: ConnState, t: seq<Step>, k: nat)
    requires Legal(st, t) && k < |t|
    requires t[k].Event? && IsTerminal(t[k].event)
    ensures k == |t| - 1
  {
    StepAt(st, t, k);
    var s := Next(Run(st, t[..k]).value, t[k]).value;
    assert s.terminated;
    if k + 1 < |t| {
      assert t[k + 1..][0] == t[k + 1];
      TerminatedIsDead(s, t[k + 1]);
    }
  }

  /** The events the client observes on one connection all carry its id. */
  lemma {:induction false} RecordsCarryId(st: ConnState, t: seq<Step>)
    requires Legal(st, t)
    ensures forall r :: r in Records(st, t) ==> r.id == st.id
    decreases |t|
  {
    if t != [] {
      var s := Next(st, t[0]).value;
      assert s.id == st.id;
      RecordsCarryId(s, t[1..]);
    }
  }

  /** No record but the last reports a terminal event. */
  predicate TerminalOnlyLast(rs: seq<ConnectionRecord>) {
    forall k :: 0 <= k < |rs| - 1 ==> !IsTerminal(rs[k].event)
  }

  lemma ConsTerminalOnlyLast(r: ConnectionRecord, rs: seq<ConnectionRecord>)
    requires TerminalOnlyLast(rs)
    requires IsTerminal(r.event) ==> rs == []
    ensures TerminalOnlyLast([r] + rs)
  {
    var rs' := [r] + rs;
    forall k | 0 <= k < |rs'| - 1
      ensures !IsTerminal(rs'[k].event)
    {
      if k > 0 {
        assert rs'[k] == rs[k - 1];
      }
    }
  }

  /** Of the events the client observes on one connection, a terminal one
      can only be the last. */
  lemma {:induction false} RecordsEndAtTerminal(st: ConnState, t: seq<Step>)
    requires Legal(st, t)
    ensures TerminalOnlyLast(Records(st, t))
    decreases |t|
  {
    if t != [] {
      var s := Next(st, t[0]).value;
      var tail := Records(s, t[1..]);
      RecordsEndAtTerminal(s, t[1..]);
      if t[0].Event? {
        assert Records(st, t) == [Record(s)] + tail;
        assert Record(s).event == t[0].event;
        if IsTerminal(t[0].event) {
          assert s.terminated;
          if t[1..] != [] {
            TerminatedIsDead(s, t[1..][0]);
          }
        }
        ConsTerminalOnlyLast(Record(s), tail);
      } else {
        assert Records(st, t) == tail;
      }
    }
  }

  /** Without a further xtcp_set_connection_appstate, every event carries
      the appstate the connection had at the start. */
  lemma {:induction false} AppStateEchoed(st: ConnState, t: seq<Step>)
    requires Legal(st, t)
    requires forall k :: 0 <= k < |t| ==> !IsSetAppStateStep(t[k])
    ensures forall r :: r in Records(st, t) ==> r.appstate == st.appstate
    decreases |t|
  {
    if t != [] {
      var s := Next(st, t[0]).value;
      assert !IsSetAppStateStep(t[0]);
      assert forall k :: 0 <= k < |t[1..]| ==> t[1..][k] == t[k + 1];
      AppStateEchoed(s, t[1..]);
    }
  }

  /** After xtcp_set_connection_appstate(a), every later event carries a
      until the appstate is set again. */
  lemma SetAppStateThenEchoed(st: ConnState, a: uint32, t: seq<Step>)
    requires Legal(st, [Call(SetAppState(a))] + t)
    requires forall k :: 0 <= k < |t| ==> !IsSetAppStateStep(t[k])
    ensures OpLegal(st, SetAppState(a))
    ensures forall r :: r in Records(AfterOp(st, SetAppState(a)), t) ==> r.appstate == a
  {
    PrependCall(st, SetAppState(a), t);
    AppStateEchoed(AfterOp(st, SetAppState(a)), t);
  }

  /** A RECV_DATA event is immediately followed by one of the receive calls. */
  lemma RecvDataThenRecvCall(st: ConnState, t: seq<Step>, k: nat)
    requires Legal(st, t) && k + 1 < |t|
    requires t[k].Event? && t[k].event == RecvData
    ensures t[k + 1].Call? && IsRecvOp(t[k + 1].op)
  {
    StepAt(st, t, k);
    var s := Next(Run(st, t[..k]).value, t[k]).value;
    assert t[k + 1..][0] == t[k + 1];
    assert Next(s, t[k + 1]).Some?;
  }

  /** A send-side event is immediately followed by a send call. */
  lemma SendEventThenSendCall(st: ConnState, t: seq<Step>, k: nat)
    requires Legal(st, t) && k + 1 < |t|
    requires IsSendEventStep(t[k])
    ensures t[k + 1].Call? && t[k + 1].op.Send?
  {
    StepAt(st, t, k);
    var s := Next(Run(st, t[..k]).value, t[k]).value;
    assert t[k + 1..][0] == t[k + 1];
    assert Next(s, t[k + 1]).Some?;
  }

  lemma StepKeepsSendPhase(st: ConnState, s: Step)
    requires st.sendPhase == Armed || st.sendPhase == InFlight
    requires Next(st, s).Some? && !IsSendEventStep(s)
    ensures Next(st, s).value.sendPhase == st.sendPhase
    ensures Next(st, s).value.lastSent == st.lastSent
    ensures Next(st, s).value.mss == st.mss
  {
    match s
    case Event(e, p) =>
    case Call(op) =>
  }

  /** While armed or in flight, steps other than send-side events leave the
      send phase and the last sent bytes alone. */
  lemma {:induction false} SendPhaseHolds(st: ConnState, t: seq<Step>)
    requires st.sendPhase == Armed || st.sendPhase == InFlight
    requires Legal(st, t)
    requires forall m :: 0 <= m < |t| ==> !IsSendEventStep(t[m])
    ensures Run(st, t).value.sendPhase == st.sendPhase
    ensures Run(st, t).value.lastSent == st.lastSent
    ensures Run(st, t).value.mss == st.mss
    decreases |t|
  {
    if t != [] {
      var s := Next(st, t[0]).value;
      assert !IsSendEventStep(t[0]);
      StepKeepsSendPhase(st, t[0]);
      assert forall m :: 0 <= m < |t[1..]| ==> t[1..][m] == t[m + 1];
      SendPhaseHolds(s, t[1..]);
    }
  }

  /** The first send-side event after arming is REQUEST_DATA; the first one
      after data went out is SENT_DATA or RESEND_DATA, and it finds the sent
      bytes still recorded. */
  lemma FirstSendEvent(st: ConnState, t: seq<Step>, j: nat)
    requires st.sendPhase == Armed || st.sendPhase == InFlight
    requires Legal(st, t) && j < |t| && IsSendEventStep(t[j])
    requires forall m :: 0 <= m < j ==> !IsSendEventStep(t[m])
    ensures Legal(st, t[..j])
    ensures Run(st, t[..j]).value.lastSent == st.lastSent
    ensures Run(st, t[..j]).value.mss == st.mss
    ensures st.sendPhase == Armed ==> t[j].event == RequestData
    ensures st.sendPhase == InFlight ==> t[j].event == SentData || t[j].event == ResendData
  {
    StepAt(st, t, j);
    assert forall m :: 0 <= m < |t[..j]| ==> t[..j][m] == t[m];
    SendPhaseHolds(st, t[..j]);
  }

  /** xtcp_init_send is answered by REQUEST_DATA before any other send-side
      event. */
  lemma InitSendThenRequestData(st: ConnState, t: seq<Step>, j: nat)
    requires Legal(st, [Call(InitSend)] + t)
    requires j < |t| && IsSendEventStep(t[j])
    requires forall m :: 0 <= m < j ==> !IsSendEventStep(t[m])
    ensures t[j].event == RequestData
  {
    PrependCall(st, InitSend, t);
    FirstSendEvent(AfterOp(st, InitSend), t, j);
  }

  /** A non-empty send is answered by SENT_DATA or RESEND_DATA, and after
      RESEND_DATA the client may only send the same bytes again or finish. */
  lemma NonEmptySendAnswered(st: ConnState, data: seq<byte>, t: seq<Step>, j: nat)
    requires data != []
    requires Legal(st, [Call(Send(data))] + t)
    requires j < |t| && IsSendEventStep(t[j])
    requires forall m :: 0 <= m < j ==> !IsSendEventStep(t[m])
    ensures t[j].event == SentData || t[j].event == ResendData
    ensures OpLegal(st, Send(data)) && Legal(AfterOp(st, Send(data)), t[..j])
    ensures var before := Run(AfterOp(st, Send(data)), t[..j]).value;
      t[j].event == ResendData ==>
        && MayOccur(before, ResendData)
        && forall d :: OpLegal(AfterEvent(before, ResendData, t[j].payload), Send(d)) <==>
             d == [] || d == data
  {
    PrependCall(st, Send(data), t);
    var s0 := AfterOp(st, Send(data));
    FirstSendEvent(s0, t, j);
    StepAt(s0, t, j);
    if t[j].event == ResendData {
      ResendAsksSameData(Run(s0, t[..j]).value, t[j].payload);
    }
  }

  /** RESEND_DATA asks for exactly the bytes of the last send again, or for
      the zero-length send that finishes. */
  lemma ResendAsksSameData(st: ConnState, payload: seq<byte>)
    requires MayOccur(st, ResendData) && |st.lastSent| <= st.mss
    ensures forall d :: OpLegal(AfterEvent(st, ResendData, payload), Send(d)) <==>
      d == [] || d == st.lastSent
  {
  }

  /** Outside a send exchange, SENT_DATA and RESEND_DATA can only come after
      a new xtcp_init_send. */
  lemma {:induction false} IdleUntilInitSend(st: ConnState, t: seq<Step>, j: nat)
    requires st.sendPhase == SendIdle
    requires Legal(st, t) && j < |t|
    requires t[j].Event? && (t[j].event == SentData || t[j].event == ResendData)
    ensures exists m :: 0 <= m < j && t[m] == Call(InitSend)
    decreases j
  {
    if j > 0 && t[0] != Call(InitSend) {
      var s := Next(st, t[0]).value;
      assert s.sendPhase == SendIdle;
      IdleUntilInitSend(s, t[1..], j - 1);
      var m :| 0 <= m < j - 1 && t[1..][m] == Call(InitSend);
      assert t[m + 1] == Call(InitSend);
    }
  }

  /** A send of length zero ends the exchange: no SENT_DATA or RESEND_DATA
      follows unless the client starts a new one with xtcp_init_send. */
  lemma EmptySendEndsExchange(st: ConnState, t: seq<Step>, j: nat)
    requires Legal(st, [Call(Send([]))] + t)
    requires j < |t| && t[j].Event? && (t[j].event == SentData || t[j].event == ResendData)
    ensures exists m :: 0 <= m < j && t[m] == Call(InitSend)
  {
    PrependCall(st, Send([]), t);
    IdleUntilInitSend(AfterOp(st, Send([])), t, j);
  }

  /** Once ack-receive mode is on it stays on. */
  lemma {:induction false} AckRecvModeSticky(st: ConnState, t: seq<Step>)
    requires st.ackRecvMode && Legal(st, t)
    ensures Run(st, t).value.ackRecvMode
    decreases |t|
  {
    if t != [] {
      AckRecvModeSticky(Next(st, t[0]).value, t[1..]);
    }
  }

  /** With the window closed in ack-receive mode, no RECV_DATA occurs until
      xtcp_ack_recv is called. */
  lemma {:induction false} WindowStaysClosed(st: ConnState, t: seq<Step>, j: nat)
    requires st.ackRecvMode && !st.windowOpen
    requires Legal(st, t) && j < |t| && t[j].Event? && t[j].event == RecvData
    ensures exists m :: 0 <= m < j && t[m] == Call(AckRecv)
    decreases j
  {
    if j > 0 && t[0] != Call(AckRecv) {
      var s := Next(st, t[0]).value;
      assert s.ackRecvMode && !s.windowOpen;
      WindowStaysClosed(s, t[1..], j - 1);
      var m :| 0 <= m < j - 1 && t[1..][m] == Call(AckRecv);
      assert t[m + 1] == Call(AckRecv);
    }
  }

  /** In ack-receive mode, after a RECV_DATA event no further RECV_DATA
      event occurs until the client calls xtcp_ack_recv. */
  lemma AckRecvBackPressure(st: ConnState, t: seq<Step>, k: nat, j: nat)
    requires Legal(st, t) && k < j < |t|
    requires Legal(st, t[..k]) && Run(st, t[..k]).value.ackRecvMode
    requires t[k].Event? && t[k].event == RecvData
    requires t[j].Event? && t[j].event == RecvData
    ensures exists m :: k < m < j && t[m] == Call(AckRecv)
  {
    StepAt(st, t, k);
    var s := Next(Run(st, t[..k]).value, t[k]).value;
    assert s.ackRecvMode && !s.windowOpen;
    var rest := t[k + 1..];
    assert rest[j - k - 1] == t[j];
    WindowStaysClosed(s, rest, j - k - 1);
    var m :| 0 <= m < j - k - 1 && rest[m] == Call(AckRecv);
    assert t[k + 1 + m] == Call(AckRecv);
  }
}
