/** Peer addresses and the IP conversions the reply builder performs on them. */
module Addresses {
  import opened Wrappers
  import opened Message

  /**
   * The dynamic type behind a `net.Addr`: a TCP or UDP endpoint carries an
   * IP; any other address shape is known only by its Go type name.
   */
  datatype Addr =
    | TCPAddr(ip: IP, port: int, zone: string)
    | UDPAddr(ip: IP, port: int, zone: string)
    | OtherAddr(typeName: string)

  datatype AddrError = CannotExtractIP(typeName: string)

  /** The peer IP of a TCP or UDP address; every other address shape is an error. */
  function ToIP(addr: Addr): (r: Result<IP, AddrError>)
    ensures r.Success? <==> (addr.TCPAddr? || addr.UDPAddr?)
    ensures r.Success? ==> r.value == addr.ip
    ensures addr.OtherAddr? ==> r == Failure(CannotExtractIP(addr.typeName))
  {
    match addr
    case TCPAddr(ip, _, _) => Success(ip)
    case UDPAddr(ip, _, _) => Success(ip)
    case OtherAddr(t) => Failure(CannotExtractIP(t))
  }

  /** True when `ip` is a 16-byte IPv4-mapped IPv6 address (::ffff:a.b.c.d). */
  predicate IsV4InV6(ip: IP) {
    |ip| == 16 && (forall k :: 0 <= k < 10 ==> ip[k] == 0) && ip[10] == 0xff && ip[11] == 0xff
  }

  /**
   * The 4-byte form of an address, as Go's `net.IP.To4`; a nil address is
   * `None`, and so is the result for any address with no IPv4 form.
   */
  function To4(ip: Option<IP>): (r: Option<IP>)
    ensures r.Some? ==> |r.value| == 4 && ip.Some?
    ensures r.Some? <==> ip.Some? && (|ip.value| == 4 || IsV4InV6(ip.value))
    ensures r.Some? ==> r.value == ip.value[|ip.value| - 4..]
  {
    match ip
    case None => None
    case Some(b) =>
      if |b| == 4 then Some(b)
      else if IsV4InV6(b) then Some(b[12..16])
      else None
  }
}
