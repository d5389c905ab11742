/** The broadcast socket: at most one client at a time. */
module Broadcast {
  import opened Bytes

  datatype SocketState = Idle | Bound | Listening | Connected

  datatype AcceptResult = Accepted | NoneWaiting | AcceptFailed

  /** What recv() yields. A datagram of no bytes is how a closed connection shows.
   *  `stray` is what lies in memory behind a datagram of a single byte. */
  datatype RecvResult = Datagram(bytes: Packet, stray: byte) | WouldBlock | RecvError

  /** How send() ends: on a connection that the client has closed it may raise SIGPIPE, which the program
   *  does not handle and which ends it. */
  datatype SendResult = Delivered | SendFailed | BrokenPipe

  /** Size of the buffer that recv() fills; what does not fit in it is cut off. */
  const RECV_SIZE := 256

  /** The part of a datagram that recv() hands over. */
  function CutOff(bytes: Packet): Packet {
    if |bytes| > RECV_SIZE then bytes[..RECV_SIZE] else bytes
  }

  class BcastMessenger {
    var connFd: int
    var state: SocketState
    /** Everything that clients were sent. */
    var outbox: seq<Packet>

    /** A messenger whose setup has succeeded. */
    constructor ()
      ensures !IsConnected() && state == Listening && outbox == []
    {
      connFd, state, outbox := -1, Listening, [];
    }

    predicate IsConnected()
      reads this
    {
      state == Connected && connFd >= 0
    }

    /** Takes a waiting client, if any, on descriptor `fd`; `threw` is the exception of the source. */
    method AcceptConnection(accepted: AcceptResult, fd: nat) returns (threw: bool)
      modifies this`connFd, this`state
      ensures threw <==> accepted == AcceptFailed
      ensures accepted == Accepted ==> IsConnected() && connFd == fd
      ensures accepted != Accepted ==> !IsConnected() && state == old(state)
    {
      connFd := if accepted == Accepted then fd else -1;
      if connFd < 0 {
        if accepted == NoneWaiting {
          return false;
        }
        return true;
      }
      state := Connected;
      return false;
    }

    /** The next message of the client, cut to the size of the buffer; empty if there is none. */
    method RecvMessage(received: RecvResult) returns (result: Packet)
      modifies this`connFd, this`state
      ensures !old(IsConnected()) || !received.Datagram? ==> result == []
      ensures old(IsConnected()) && received.Datagram? && |received.bytes| <= 256 ==> result == received.bytes
      ensures old(IsConnected()) && received.Datagram? && |received.bytes| > 256 ==> result == received.bytes[..256]
      ensures IsConnected() <==>
              old(IsConnected()) && (received.WouldBlock? || (received.Datagram? && received.bytes != []))
    {
      result := [];
      if !IsConnected() {
        return;
      }
      var buf := if received.Datagram? then CutOff(received.bytes) else [];
      var len := if received.Datagram? then |buf| else -1;
      if len <= 0 {
        if len == 0 || (len < 0 && received != WouldBlock) {
          connFd := -1;
          state := Listening;
        }
        return;
      }
      result := result + buf;
    }

    /** Hands a message to the client; `killed` says that the attempt ended the program. */
    method SendMessage(data: Packet, sending: SendResult) returns (killed: bool)
      modifies this`outbox
      ensures killed <==> IsConnected() && sending == BrokenPipe
      ensures outbox == old(outbox) + if IsConnected() && sending == Delivered then [data] else []
    {
      if !IsConnected() {
        return false;
      }
      if sending == Delivered {
        outbox := outbox + [data];
      }
      return sending == BrokenPipe;
    }
  }
}
