/**
 * A connection as the xtcp stack keeps it, with one method per call of the
 * client interface (lib_xtcp/api/xtcp.h) and one, `Deliver`, for the stack
 * reporting an event through `xtcp_event`. Every method may be called only
 * when the protocol allows it (`OpLegal`, `MayOccur`) and changes the
 * connection exactly as `AfterOp` or `AfterEvent` says. The ghost `history`
 * records every step, and `Valid()` ties it to the state through `Run`, so
 * the trace lemmas of ConnectionProtocol apply to the object's history.
 */
module XtcpConnection {
  import opened XtcpTypes
  import opened ConnectionProtocol
  import RecvBuffer

  /** The bytes `data[i..i + len]` of a nullable send buffer; none when len is 0. */
  function Outgoing(data: array?<byte>, i: int, len: int): (r: seq<byte>)
    requires 0 <= len
    requires len > 0 ==> data != null && 0 <= i && i + len <= data.Length
    reads data
    ensures |r| == len
    ensures forall k :: 0 <= k < len ==> r[k] == data[i + k]
  {
    if len == 0 then [] else data[i..i + len]
  }

  /** One more allowed step extends a history that led to `before`, and the
      state it leads to keeps the invariant. */
  lemma ExtendHistory(origin: ConnState, h: seq<Step>, before: ConnState, s: Step)
    requires Run(origin, h) == Some(before) && Invariant(before) && Next(before, s).Some?
    ensures Run(origin, h + [s]) == Next(before, s)
    ensures Invariant(Next(before, s).value)
  {
    RunSnoc(origin, h, s);
    NextPreservesInvariant(before, s);
  }

  class Connection {
    const id: int32
    const protocol: Protocol
    const connectionType: ConnectionType
    var remoteAddr: IpAddr
    var remotePort: uint32
    var localPort: uint32
    const mss: uint32
    var lastEvent: EventType
    var appstate: uint32
    var recvPending: bool
    var received: seq<byte>
    var sendPhase: SendPhase
    var lastSent: seq<byte>
    var ackRecvMode: bool
    var windowOpen: bool
    var paused: bool
    var pollInterval: int32
    var closing: bool
    var terminated: bool

    /** The state at the connection's NEW_CONNECTION event, and every step
        taken on the connection since. */
    ghost const origin: ConnState
    ghost var history: seq<Step>

    /** The abstract value of the connection. */
    function State(): ConnState
      reads this
    {
      ConnState(id, protocol, connectionType, remoteAddr, remotePort, localPort, mss,
                lastEvent, appstate, recvPending, received, sendPhase, lastSent,
                ackRecvMode, windowOpen, paused, pollInterval, closing, terminated)
    }

    /** The connection is where its history of events and calls leads, and
        so keeps the protocol invariant. */
    ghost predicate Valid()
      reads this
    {
      Invariant(State()) && Run(origin, history) == Some(State())
    }

    /** The connection comes into being with its NEW_CONNECTION event. */
    constructor (id: int32, protocol: Protocol, connectionType: ConnectionType,
                 remoteAddr: IpAddr, remotePort: uint32, localPort: uint32, mss: uint32)
      ensures Valid()
      ensures State() == Initial(id, protocol, connectionType, remoteAddr, remotePort,
                                 localPort, mss)
      ensures origin == State() && history == []
    {
      this.id, this.protocol, this.connectionType := id, protocol, connectionType;
      this.remoteAddr, this.remotePort, this.localPort := remoteAddr, remotePort, localPort;
      this.mss := mss;
      lastEvent, appstate := NewConnection, 0;
      recvPending, received := false, [];
      sendPhase, lastSent := SendIdle, [];
      ackRecvMode, windowOpen := false, true;
      paused, pollInterval := false, 0;
      closing, terminated := false, false;
      origin := Initial(id, protocol, connectionType, remoteAddr, remotePort, localPort, mss);
      history := [];
    }

    /** The stack reports event `e` on this connection (`xtcp_event`); for
        RECV_DATA, `payload` is what arrived. */
    method Deliver(e: EventType, payload: seq<byte>) returns (conn: ConnectionRecord)
      requires Valid() && MayOccur(State(), e)
      modifies this
      ensures Valid()
      ensures State() == AfterEvent(old(State()), e, payload)
      ensures history == old(history) + [Event(e, payload)]
      ensures conn == Record(State()) && conn.event == e && conn.appstate == old(appstate)
      ensures e == RecvData ==> DutyOf(State()) == MustRecv && received == payload
      ensures IsSendEvent(e) ==> DutyOf(State()) == MustSend
      ensures DutyOf(State()) != NoDuty || IsTerminal(e) ==> forall e' :: !MayOccur(State(), e')
      ensures IsTerminal(e) ==> forall op :: !OpLegal(State(), op)
    {
      ghost var before := State();
      Apply(e, payload);
      history := history + [Event(e, payload)];
      ExtendHistory(origin, old(history), before, Event(e, payload));
      EventObligations(before, e, payload);
      conn := Record(State());
    }

    /** The fields that event `e` changes. */
    method Apply(e: EventType, payload: seq<byte>)
      requires MayOccur(State(), e)
      modifies this
      ensures State() == AfterEvent(old(State()), e, payload)
      ensures history == old(history)
    {
      lastEvent := e;
      match e {
        case RecvData =>
          recvPending, received := true, payload;
          windowOpen := windowOpen && !ackRecvMode;
        case RequestData => sendPhase := Requested(Request);
        case SentData => sendPhase := Requested(Sent);
        case ResendData => sendPhase := Requested(Resend);
        case TimedOut => terminated := true;
        case Aborted => terminated := true;
        case Closed => terminated := true;
        case _ =>
      }
    }

    /** `xtcp_init_send`: REQUEST_DATA is the next send-side event. */
    method InitSend()
      requires Valid() && OpLegal(State(), Op.InitSend)
      modifies this
      ensures Valid()
      ensures State() == AfterOp(old(State()), Op.InitSend)
      ensures history == old(history) + [Call(Op.InitSend)]
      ensures forall e :: IsSendEvent(e) && MayOccur(State(), e) ==> e == RequestData
    {
      ghost var before := State();
      sendPhase := Armed;
      history := history + [Call(Op.InitSend)];
      RunSnoc(origin, old(history), Call(Op.InitSend));
      OpPreservesInvariant(before, Op.InitSend);
      InitSendArms(before);
    }

    /** The part of `xtcp_send` and `xtcp_sendi` after the bytes are taken
        from the buffer. */
    method Submit(bytes: seq<byte>)
      requires Valid() && OpLegal(State(), Op.Send(bytes))
      modifies this
      ensures Valid()
      ensures State() == AfterOp(old(State()), Op.Send(bytes))
      ensures history == old(history) + [Call(Op.Send(bytes))]
      ensures bytes == [] ==> forall e :: IsSendEvent(e) ==> !MayOccur(State(), e)
      ensures bytes != [] ==>
        forall e :: IsSendEvent(e) && MayOccur(State(), e) ==> e == SentData || e == ResendData
    {
      ghost var before := State();
      if bytes == [] {
        sendPhase, lastSent := SendIdle, [];
      } else {
        sendPhase, lastSent := InFlight, bytes;
      }
      history := history + [Call(Op.Send(bytes))];
      RunSnoc(origin, old(history), Call(Op.Send(bytes)));
      OpPreservesInvariant(before, Op.Send(bytes));
      SendOutcome(before, bytes);
    }

    /** `xtcp_send(data, len)`: hands `data[0..len]` to the stack; with len 0
        it ends the exchange and no SENT_DATA follows. */
    method Send(data: array?<byte>, len: int32)
      requires 0 <= len && (len > 0 ==> data != null && len as int <= data.Length)
      requires Valid() && OpLegal(State(), Op.Send(Outgoing(data, 0, len)))
      modifies this
      ensures Valid()
      ensures State() == AfterOp(old(State()), Op.Send(old(Outgoing(data, 0, len))))
      ensures history == old(history) + [Call(Op.Send(old(Outgoing(data, 0, len))))]
      ensures len == 0 ==> forall e :: IsSendEvent(e) ==> !MayOccur(State(), e)
      ensures len > 0 ==>
        forall e :: IsSendEvent(e) && MayOccur(State(), e) ==> e == SentData || e == ResendData
    {
      Submit(Outgoing(data, 0, len));
    }

    /** `xtcp_sendi(data, i, len)`: hands `data[i..i + len]` to the stack. */
    method SendAt(data: array?<byte>, i: int32, len: int32)
      requires 0 <= len && (len > 0 ==> data != null && 0 <= i && i as int + len as int <= data.Length)
      requires Valid() && OpLegal(State(), Op.Send(Outgoing(data, i, len)))
      modifies this
      ensures Valid()
      ensures State() == AfterOp(old(State()), Op.Send(old(Outgoing(data, i, len))))
      ensures history == old(history) + [Call(Op.Send(old(Outgoing(data, i, len))))]
      ensures len == 0 ==> forall e :: IsSendEvent(e) ==> !MayOccur(State(), e)
      ensures len > 0 ==>
        forall e :: IsSendEvent(e) && MayOccur(State(), e) ==> e == SentData || e == ResendData
    {
      Submit(Outgoing(data, i, len));
    }

    /** `xtcp_complete_send`: exactly `xtcp_send(null, 0)`. */
    method CompleteSend()
      requires Valid() && OpLegal(State(), Op.Send([]))
      modifies this
      ensures Valid()
      ensures State() == AfterOp(old(State()), Op.Send([]))
      ensures history == old(history) + [Call(Op.Send([]))]
      ensures forall e :: IsSendEvent(e) ==> !MayOccur(State(), e)
    {
      Send(null, 0);
    }

    /** `xtcp_recv(data)`: the pending bytes land at `data[0..]`. */
    method Recv(data: array<byte>) returns (n: nat)
      requires Valid() && OpLegal(State(), Op.Recv) && |received| <= data.Length
      modifies this, data
      ensures Valid()
      ensures State() == AfterOp(old(State()), Op.Recv)
      ensures history == old(history) + [Call(Op.Recv)]
      ensures n == |old(received)| && data[..n] == old(received)
      ensures data[n..] == old(data[n..])
      ensures DutyOf(State()) == NoDuty
    {
      ghost var before := State();
      n := RecvBuffer.PullInto(data, 0, received);
      recvPending, received := false, [];
      history := history + [Call(Op.Recv)];
      RunSnoc(origin, old(history), Call(Op.Recv));
      OpPreservesInvariant(before, Op.Recv);
    }

    /** `xtcp_recvi(data, i)`: the pending bytes land at `data[i..]`; every
        other element of `data` is unchanged. */
    method RecvAt(data: array<byte>, i: int32) returns (n: nat)
      requires Valid() && OpLegal(State(), Op.RecvAt(i))
      requires 0 <= i && i as int + |received| <= data.Length
      modifies this, data
      ensures Valid()
      ensures State() == AfterOp(old(State()), Op.RecvAt(i))
      ensures history == old(history) + [Call(Op.RecvAt(i))]
      ensures n == |old(received)|
      ensures data[..] == RecvBuffer.Splice(old(data[..]), i as nat, old(received))
      ensures DutyOf(State()) == NoDuty
    {
      ghost var before := State();
      n := RecvBuffer.PullInto(data, i as nat, received);
      recvPending, received := false, [];
      history := history + [Call(Op.RecvAt(i))];
      RunSnoc(origin, old(history), Call(Op.RecvAt(i)));
      OpPreservesInvariant(before, Op.RecvAt(i));
    }

    /** `xtcp_recv_count(data, count)`: stores at most `count` of the pending
        bytes, drops the rest for good, and answers how many were pulled. */
    method RecvCount(data: array<byte>, count: int32) returns (n: nat)
      requires Valid() && OpLegal(State(), Op.RecvCount(count))
      requires RecvBuffer.StoredCount(|received|, count as int) <= data.Length
      modifies this, data
      ensures Valid()
      ensures State() == AfterOp(old(State()), Op.RecvCount(count))
      ensures history == old(history) + [Call(Op.RecvCount(count))]
      ensures n == |old(received)|
      ensures data[..] ==
        RecvBuffer.Splice(old(data[..]), 0, old(received)[..RecvBuffer.StoredCount(n, count as int)])
      ensures received == [] && DutyOf(State()) == NoDuty
    {
      ghost var before := State();
      n := RecvBuffer.PullCount(data, received, count as int);
      recvPending, received := false, [];
      history := history + [Call(Op.RecvCount(count))];
      RunSnoc(origin, old(history), Call(Op.RecvCount(count)));
      OpPreservesInvariant(before, Op.RecvCount(count));
    }

    /** `xtcp_ignore_recv`: the pending bytes are dropped. */
    method IgnoreRecv()
      requires Valid() && OpLegal(State(), Op.IgnoreRecv)
      modifies this
      ensures Valid()
      ensures State() == AfterOp(old(State()), Op.IgnoreRecv)
      ensures history == old(history) + [Call(Op.IgnoreRecv)]
      ensures DutyOf(State()) == NoDuty
    {
      ghost var before := State();
      recvPending, received := false, [];
      history := history + [Call(Op.IgnoreRecv)];
      RunSnoc(origin, old(history), Call(Op.IgnoreRecv));
      OpPreservesInvariant(before, Op.IgnoreRecv);
    }

    /** `xtcp_ack_recv_mode`: from now on a receive event closes the window. */
    method AckRecvMode()
      requires Valid() && OpLegal(State(), Op.AckRecvMode)
      modifies this
      ensures Valid()
      ensures State() == AfterOp(old(State()), Op.AckRecvMode)
      ensures history == old(history) + [Call(Op.AckRecvMode)]
    {
      ghost var before := State();
      ackRecvMode := true;
      history := history + [Call(Op.AckRecvMode)];
      RunSnoc(origin, old(history), Call(Op.AckRecvMode));
      OpPreservesInvariant(before, Op.AckRecvMode);
    }

    /** `xtcp_ack_recv`: acknowledges the last receive and reopens the window. */
    method AckRecv()
      requires Valid() && OpLegal(State(), Op.AckRecv)
      modifies this
      ensures Valid()
      ensures State() == AfterOp(old(State()), Op.AckRecv)
      ensures history == old(history) + [Call(Op.AckRecv)]
      ensures windowOpen
      ensures !paused && !closing ==> MayOccur(State(), RecvData)
    {
      ghost var before := State();
      windowOpen := true;
      history := history + [Call(Op.AckRecv)];
      RunSnoc(origin, old(history), Call(Op.AckRecv));
      OpPreservesInvariant(before, Op.AckRecv);
    }

    /** `xtcp_set_connection_appstate`: later events carry `a`. */
    method SetAppState(a: uint32)
      requires Valid() && OpLegal(State(), Op.SetAppState(a))
      modifies this
      ensures Valid()
      ensures State() == AfterOp(old(State()), Op.SetAppState(a))
      ensures history == old(history) + [Call(Op.SetAppState(a))]
      ensures appstate == a
    {
      ghost var before := State();
      appstate := a;
      history := history + [Call(Op.SetAppState(a))];
      RunSnoc(origin, old(history), Call(Op.SetAppState(a)));
      OpPreservesInvariant(before, Op.SetAppState(a));
    }

    /** `xtcp_set_poll_interval` (UDP): while the connection is not closing,
        POLL can occur exactly when the interval is positive. */
    method SetPollInterval(ms: int32)
      requires Valid() && OpLegal(State(), Op.SetPollInterval(ms))
      modifies this
      ensures Valid()
      ensures State() == AfterOp(old(State()), Op.SetPollInterval(ms))
      ensures history == old(history) + [Call(Op.SetPollInterval(ms))]
      ensures !closing ==> (MayOccur(State(), Poll) <==> ms > 0)
    {
      ghost var before := State();
      pollInterval := ms;
      history := history + [Call(Op.SetPollInterval(ms))];
      RunSnoc(origin, old(history), Call(Op.SetPollInterval(ms)));
      OpPreservesInvariant(before, Op.SetPollInterval(ms));
    }

    /** `xtcp_bind_local` (UDP): later events report the new local port. */
    method BindLocal(port: int32)
      requires Valid() && OpLegal(State(), Op.BindLocal(port))
      modifies this
      ensures Valid()
      ensures State() == AfterOp(old(State()), Op.BindLocal(port))
      ensures history == old(history) + [Call(Op.BindLocal(port))]
      ensures localPort == ToUnsigned(port)
    {
      ghost var before := State();
      localPort := ToUnsigned(port);
      history := history + [Call(Op.BindLocal(port))];
      RunSnoc(origin, old(history), Call(Op.BindLocal(port)));
      OpPreservesInvariant(before, Op.BindLocal(port));
    }

    /** `xtcp_bind_remote` (UDP only): later packets go to `addr`:`port`. */
    method BindRemote(addr: IpAddr, port: int32)
      requires Valid() && OpLegal(State(), Op.BindRemote(addr, port))
      modifies this
      ensures Valid()
      ensures State() == AfterOp(old(State()), Op.BindRemote(addr, port))
      ensures history == old(history) + [Call(Op.BindRemote(addr, port))]
      ensures remoteAddr == addr && remotePort == ToUnsigned(port)
    {
      ghost var before := State();
      remoteAddr, remotePort := addr, ToUnsigned(port);
      history := history + [Call(Op.BindRemote(addr, port))];
      RunSnoc(origin, old(history), Call(Op.BindRemote(addr, port)));
      OpPreservesInvariant(before, Op.BindRemote(addr, port));
    }

    /** `xtcp_pause`: no data is read or written on the network. */
    method Pause()
      requires Valid() && OpLegal(State(), Op.Pause)
      modifies this
      ensures Valid()
      ensures State() == AfterOp(old(State()), Op.Pause)
      ensures history == old(history) + [Call(Op.Pause)]
      ensures !MayOccur(State(), RecvData) && forall e :: IsSendEvent(e) ==> !MayOccur(State(), e)
    {
      ghost var before := State();
      paused := true;
      history := history + [Call(Op.Pause)];
      RunSnoc(origin, old(history), Call(Op.Pause));
      OpPreservesInvariant(before, Op.Pause);
    }

    /** `xtcp_unpause`: activity resumes. */
    method Unpause()
      requires Valid() && OpLegal(State(), Op.Unpause)
      modifies this
      ensures Valid()
      ensures State() == AfterOp(old(State()), Op.Unpause)
      ensures history == old(history) + [Call(Op.Unpause)]
      ensures !paused && (windowOpen && !closing ==> MayOccur(State(), RecvData))
    {
      ghost var before := State();
      paused := false;
      history := history + [Call(Op.Unpause)];
      RunSnoc(origin, old(history), Call(Op.Unpause));
      OpPreservesInvariant(before, Op.Unpause);
    }

    /** `xtcp_close`: only a terminal event can follow. */
    method Close()
      requires Valid() && OpLegal(State(), Op.Close)
      modifies this
      ensures Valid()
      ensures State() == AfterOp(old(State()), Op.Close)
      ensures history == old(history) + [Call(Op.Close)]
      ensures forall e :: MayOccur(State(), e) ==> IsTerminal(e)
    {
      ghost var before := State();
      closing := true;
      history := history + [Call(Op.Close)];
      RunSnoc(origin, old(history), Call(Op.Close));
      OpPreservesInvariant(before, Op.Close);
    }

    /** `xtcp_abort`: only a terminal event can follow. */
    method Abort()
      requires Valid() && OpLegal(State(), Op.Abort)
      modifies this
      ensures Valid()
      ensures State() == AfterOp(old(State()), Op.Abort)
      ensures history == old(history) + [Call(Op.Abort)]
      ensures forall e :: MayOccur(State(), e) ==> IsTerminal(e)
    {
      ghost var before := State();
      closing := true;
      history := history + [Call(Op.Abort)];
      RunSnoc(origin, old(history), Call(Op.Abort));
      OpPreservesInvariant(before, Op.Abort);
    }
  }

  /** On a connection object, a terminal event is the last step taken. */
  lemma HistoryEndsAtTerminal(c: Connection, k: nat)
    requires c.Valid() && k < |c.history|
    requires c.history[k].Event? && IsTerminal(c.history[k].event)
    ensures k == |c.history| - 1
  {
    TerminalEventIsLast(c.origin, c.history, k);
  }

  /** On a connection object in ack-receive mode, an `xtcp_ack_recv` call
      separates any two RECV_DATA events. */
  lemma HistoryBackPressure(c: Connection, k: nat, j: nat)
    requires c.Valid() && k < j < |c.history|
    requires Legal(c.origin, c.history[..k]) && Run(c.origin, c.history[..k]).value.ackRecvMode
    requires c.history[k].Event? && c.history[k].event == RecvData
    requires c.history[j].Event? && c.history[j].event == RecvData
    ensures exists m :: k < m < j && c.history[m] == Call(AckRecv)
  {
    AckRecvBackPressure(c.origin, c.history, k, j);
  }

  /** A client that arms a send, answers REQUEST_DATA with two bytes and
      SENT_DATA with the zero-length send that finishes. */
  method SendScenario(remote: IpAddr)
  {
    var c := new Connection(1, TCP, ServerConnection, remote, 4000, 7, 1460);
    c.InitSend();
    assert !MayOccur(c.State(), SentData);
    var ev := c.Deliver(RequestData, []);
    assert ev.event == RequestData && DutyOf(c.State()) == MustSend;
    var buf := new byte[2];
    buf[0], buf[1] := 1, 2;
    c.Send(buf, 2);
    ev := c.Deliver(SentData, []);
    c.CompleteSend();
    assert c.sendPhase == SendIdle;
    assert !MayOccur(c.State(), SentData) && !MayOccur(c.State(), ResendData);
  }

  /** RECV_DATA with ten bytes answered by `xtcp_recv_count(data, 4)`: the
      call reports 10, four bytes are stored and the other six are gone. */
  method RecvCountScenario(remote: IpAddr)
  {
    var c := new Connection(2, TCP, ClientConnection, remote, 80, 5000, 1460);
    var bytes: seq<byte> := [0, 1, 2, 3, 4, 5, 6, 7, 8, 9];
    var ev := c.Deliver(RecvData, bytes);
    assert DutyOf(c.State()) == MustRecv;
    var buf := new byte[4];
    var n := c.RecvCount(buf, 4);
    assert n == 10;
    assert buf[..] == [0, 1, 2, 3];
    assert c.received == [] && DutyOf(c.State()) == NoDuty;
    assert c.history == [Event(RecvData, bytes), Call(Op.RecvCount(4))];
  }
}
