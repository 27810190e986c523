/**
 * The two request handlers built on the reply builder, reduced to what they
 * decide to do with the network: a stream or datagram responder either
 * closes the connection or writes the reply; a handler bound to a
 * caller-owned datagram socket either sends the packed reply to the peer
 * or sends nothing.
 */
module Handlers {
  import opened Wrappers
  import opened Message
  import opened Addresses
  import opened Collaborators
  import opened Reply

  /** What a responder-writer handler does with the connection. */
  datatype WriterAction = Close | WriteMsg(reply: Msg)

  /** What a raw-socket handler does with its socket. */
  datatype SocketAction = SendNothing | WriteTo(payload: seq<uint8>, dest: Addr)

  /**
   * The handler of the TCP and UDP listeners: no reply closes the
   * connection at once (an early abort for TCP); a reply is written back.
   * A failed write is only logged.
   */
  method DNSHandler(remote: Addr, request: Msg, cfg: Config, lib: Library)
    returns (action: WriterAction, events: seq<Event>)
    ensures action == Close <==> ReplyFor(remote, request, cfg, lib) == None
    ensures action.WriteMsg? ==> ReplyFor(remote, request, cfg, lib) == Some(action.reply)
    ensures events == EventsFor(remote, request, cfg, lib)
  {
    var reply;
    reply, events := CreateDNSReplyFromRequest(remote, request, cfg, lib);
    if reply == None {
      return Close, events;
    }
    return WriteMsg(reply.value), events;
  }

  /**
   * The handler for a datagram socket the caller owns: no reply sends
   * nothing; a reply is packed with `pack` and sent to the peer, and a
   * packing failure sends nothing. A failed send is only logged.
   */
  method UDPConnDNSHandler(remote: Addr, request: Msg, cfg: Config, lib: Library,
                           pack: Msg -> Result<seq<uint8>, string>)
    returns (action: SocketAction, events: seq<Event>)
    ensures action.WriteTo? <==>
      ReplyFor(remote, request, cfg, lib).Some? && pack(ReplyFor(remote, request, cfg, lib).value).Success?
    ensures action.WriteTo? ==>
      action.payload == pack(ReplyFor(remote, request, cfg, lib).value).value && action.dest == remote
    ensures events == EventsFor(remote, request, cfg, lib)
  {
    var reply;
    reply, events := CreateDNSReplyFromRequest(remote, request, cfg, lib);
    if reply == None {
      return SendNothing, events;
    }
    var packed := pack(reply.value);
    if packed.Failure? {
      return SendNothing, events;
    }
    return WriteTo(packed.value, remote), events;
  }
}
