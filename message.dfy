/**
 * The slice of the DNS wire-message library that the reply builder uses:
 * questions, resource records with their headers, the message itself, the
 * type and class codes it mentions, and the "reply skeleton" operation.
 */
module Message {

  type uint8 = x: int | 0 <= x < 0x100
  type uint16 = x: int | 0 <= x < 0x1_0000
  type uint32 = x: int | 0 <= x < 0x1_0000_0000

  /** An IP address as its bytes (4 for IPv4, 16 for IPv6 or IPv4-in-IPv6). */
  type IP = seq<uint8>

  // Record type and class codes of the DNS standard (RFC 1035, RFC 3596).
  const TypeA: uint16 := 1
  const TypeAAAA: uint16 := 28
  const TypeNIMLOC: uint16 := 32
  const TypeANY: uint16 := 255
  const ClassINET: uint16 := 1

  /** Question type 32 is NIMLOC in DNS; this responder reads it as a NetBIOS query. */
  const TypeNetBios: uint16 := TypeNIMLOC

  const OpcodeQuery: nat := 0
  const RcodeSuccess: nat := 0

  datatype Question = Question(name: string, qtype: uint16, qclass: uint16)

  datatype RRHeader = RRHeader(name: string, rrtype: uint16, rrclass: uint16, ttl: uint32)

  /** The three answer record shapes the responder produces. */
  datatype RR =
    | A(hdr: RRHeader, a: IP)
    | AAAA(hdr: RRHeader, aaaa: IP)
    | NIMLOC(hdr: RRHeader, locator: string)

  /** A parsed DNS message, restricted to the fields the responder reads or writes. */
  datatype Msg = Msg(
    id: uint16,
    response: bool,
    opcode: nat,
    recursionDesired: bool,
    checkingDisabled: bool,
    rcode: nat,
    question: seq<Question>,
    answer: seq<RR>)

  /**
   * The reply skeleton the library builds from a request into a fresh
   * message: same id, the response bit set, opcode copied, RD and CD copied
   * for standard queries, success rcode, the first question echoed and no
   * answers.
   */
  function SetReply(request: Msg): (r: Msg)
    ensures r.answer == []
    ensures r.response && r.id == request.id && r.rcode == RcodeSuccess
    ensures |r.question| == if request.question == [] then 0 else 1
    ensures r.question <= request.question
    ensures r.checkingDisabled ==> request.checkingDisabled
  {
    var query := request.opcode == OpcodeQuery;
    Msg(
      id := request.id,
      response := true,
      opcode := request.opcode,
      recursionDesired := query && request.recursionDesired,
      checkingDisabled := query && request.checkingDisabled,
      rcode := RcodeSuccess,
      question := if |request.question| > 0 then request.question[..1] else [],
      answer := [])
  }
}
