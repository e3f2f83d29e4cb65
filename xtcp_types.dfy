/**
 * Types of the client-facing xtcp interface: protocols, connection roles,
 * the event kinds the stack reports, and the connection record that every
 * event delivery fills in (lib_xtcp/api/xtcp.h).
 */
module XtcpTypes {

  /** A byte of a client's data buffer (the header's `char data[]`). */
  newtype byte = x: int | 0 <= x < 0x100

  /** The C types `unsigned int` and `int` of the target, 32 bits wide. */
  type uint32 = x: int | 0 <= x < 0x1_0000_0000
  type int32 = x: int | -0x8000_0000 <= x < 0x8000_0000

  /** An IPv4 address, `unsigned char[4]`. */
  type IpAddr = s: seq<byte> | |s| == 4 witness [0, 0, 0, 0]

  datatype Option<T> = None | Some(value: T)

  datatype Protocol = TCP | UDP

  datatype ConnectionType = ClientConnection | ServerConnection

  datatype EventType =
    | NewConnection
    | RecvData
    | PushData
    | RequestData
    | SentData
    | ResendData
    | TimedOut
    | Aborted
    | Closed
    | Poll
    | IfUp
    | IfDown
    | AlreadyHandled

  /** The events that represent the closing of a connection. */
  predicate IsTerminal(e: EventType) {
    e == TimedOut || e == Aborted || e == Closed
  }

  /** The events that ask the client for data to send. */
  predicate IsSendEvent(e: EventType) {
    e == RequestData || e == SentData || e == ResendData
  }

  /** Link events: they have no associated connection. */
  predicate IsLinkEvent(e: EventType) {
    e == IfUp || e == IfDown
  }

  /** The record `xtcp_connection_t` that an event delivery instantiates. */
  datatype ConnectionRecord = ConnectionRecord(
    id: int32,
    protocol: Protocol,
    connectionType: ConnectionType,
    event: EventType,
    appstate: uint32,
    remoteAddr: IpAddr,
    remotePort: uint32,
    localPort: uint32,
    mss: uint32)

  /** The conversion of a C `int` argument to an `unsigned int` field. */
  function ToUnsigned(x: int32): (r: uint32)
    ensures x >= 0 ==> r == x
    ensures x < 0 ==> r == x + 0x1_0000_0000
  {
    x as int % 0x1_0000_0000
  }
}
