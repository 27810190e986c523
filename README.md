# Relay responder: DNS reply construction

This project models the DNS side of a name-resolution relay responder in
Dafny. The responder answers queries for A, AAAA, ANY and NetBIOS-style
(type 32, NIMLOC) names with the address of a configured relay gateway.
Every question of a request goes through these steps:

- its name is normalised (or NetBIOS-decoded);
- it is put to an admission policy;
- when admitted, it is answered according to its type.

A request whose questions earn no answer gets no reply at all. The
responder-writer handler (serving both the UDP and the TCP listener) then
closes the connection, and the raw-socket handler sends nothing.

Layout, one module per file:

- `wrappers.dfy` (`Wrappers`): Option and Result datatypes standing for
  Go's nil values and (value, error) pairs.
- `message.dfy` (`Message`): the DNS message as a value: questions, the
  three record kinds the responder emits, the header bits it touches, and
  the reply skeleton the DNS library builds from a request (`SetReply`).
- `addresses.dfy` (`Addresses`): transport addresses, the peer-IP
  extraction, and the IPv4 form of an address (`To4`).
- `collaborators.dfy` (`Collaborators`): the configuration (relay
  addresses, TTL, admission policy) and the library functions whose bodies
  are not part of this model: the NetBIOS name codec and the type-name
  table. Both are passed in as function values.
- `names.dfy` (`Names`): name normalisation and the query-kind label.
- `folds.dfy` (`Folds`): generic flat-map, filter and count over sequences,
  with their lemmas.
- `reply.dfy` (`Reply`): the reply builder. Its specification is
  `ReplyFor`/`EventsFor`, a fold of a per-question outcome over the
  questions. Its implementation is `CreateDNSReplyFromRequest`, a loop
  that updates the reply under construction question by question and is
  proved equal to that specification.
- `handlers.dfy` (`Handlers`): what the two request handlers do with the
  reply.
- `properties.dfy` (`ReplyProperties`): what the reply builder guarantees.

The `logger.IgnoreDNS` and `logger.Query` calls are observable outcomes.
They are modelled as a returned sequence of `Event`s: `Ignored` marks a
question the policy rejected, and `Queried` marks an admitted question
whose type switch did not skip to the next question. That includes an ANY
question that got no record because no relay is set. The other log lines are not modelled.

With no IPv4 relay configured, an admitted NetBIOS question still gets a
locator record (dns.go:85-94): the locator is encoded from the IPv4 form of
an absent address. So with neither relay set, such a question still earns a
reply. `ReplyProperties.NoRelayAnswersOnlyNetBios` states this.

## Model

| member | source | states |
|---|---|---|
| Addresses.ToIP | dns.go:112-121 | a TCP or UDP address yields its IP; any other address kind is the "cannot extract IP" error naming its type |
| Addresses.To4 | dns.go:93 | the IPv4 form of an address: a 4-byte address as is, the last four bytes of an IPv4-mapped 16-byte address, none otherwise (including an absent address) |
| Message.SetReply | dns.go:29-30 | the reply skeleton keeps the request id, sets the response bit and success rcode, has no answers, and echoes at most the first question |
| Names.TrimSpace | dns.go:138 | the trimmed name is no longer than the input, starts and ends with a non-space rune, and is empty exactly when the input is all white space |
| Names.TrimSpaceIsSlice | dns.go:138 | the trimmed name is a contiguous slice of the input with only white space cut on either side |
| Names.TrimSuffixDot | dns.go:138 | removes exactly one trailing dot when there is one, otherwise leaves the name unchanged |
| Names.NormalizedName | dns.go:137-139 | a normalised name is the space-trimmed name with at most one trailing dot removed; it never starts with white space and is no longer than the input |
| Names.NormalizedNameFromQuery | dns.go:123-135 | a NetBIOS question is named by its decoded hostname; any other by its normalised name, or by its name as asked when normalisation leaves nothing; a non-empty name never yields an empty one |
| Names.QueryType | dns.go:141-151 | a NetBIOS question is labelled by its decoded suffix, any other by the type's name |
| Names.NormalizeStripsTrailingDot | dns.go:137-139 | "host.local." normalises to "host.local" |
| Names.NormalizeStripsOneDot | dns.go:137-139 | "host.." normalises to "host.": only one dot is removed |
| Names.NormalizeTrimsSpaceFirst | dns.go:137-139 | " host. \t" normalises to "host": the dot is removed after trimming |
| Names.RootNameFallsBack | dns.go:128-132 | a non-NetBIOS question for "." is named "." because normalisation leaves nothing |
| Reply.Respond | dns.go:48-100 | the type switch gives at most two records, clears the question section exactly for NetBIOS, and goes on to report the question exactly when it gave a record or the question is ANY |
| Reply.AnswerQuestion | dns.go:40-102 | a rejected question gives no records and one "ignored" event with its normalised name and kind; clearing happens exactly for an admitted NetBIOS question; an admitted question is reported as queried exactly when it got a record or is an ANY question, and otherwise reports nothing |
| Reply.ReplyFor | dns.go:28-110 | no reply when the peer has no IP or no question earns an answer; otherwise the library's reply skeleton with nothing changed but its answers (exactly the answers of the questions, in order), and its question section and CheckingDisabled, which are dropped exactly when an admitted NetBIOS question was seen |
| Reply.EventsFor | dns.go:32-37 | no events are reported when the peer address yields no IP |
| Reply.ClearsStep | dns.go:85-87 | after one more question the question section is cleared exactly when it already was or that question is an admitted NetBIOS question |
| Reply.ReplyStep | dns.go:39-103 | processing one more question applies its outcome to the reply built so far and appends its events |
| Reply.RespondInto | dns.go:48-100 | the switch, applied to the reply under construction, appends the question's records and clears the question section and CheckingDisabled for NetBIOS |
| Reply.AnswerInto | dns.go:40-102 | one pass of the loop leaves the reply with the question's outcome applied and returns the question's event |
| Reply.CreateDNSReplyFromRequest | dns.go:28-110 | the loop's reply and events are exactly those of ReplyFor and EventsFor |
| Handlers.DNSHandler | dns.go:154-168 | the connection is closed exactly when there is no reply; otherwise that reply is written |
| Handlers.UDPConnDNSHandler | dns.go:173-194 | a packet is sent exactly when there is a reply and it packs, and it goes to the requesting peer carrying the packed reply |
| ReplyProperties.RespondByKind | dns.go:48-94 | an admitted question gets one A record exactly when it is A or ANY and an IPv4 relay is set; one AAAA exactly when it is AAAA or ANY and an IPv6 relay is set; one locator exactly when it is NetBIOS; nothing else; A before AAAA; each record echoes the name, with class INET and the configured TTL |
| ReplyProperties.SingleRelayByKind | dns.go:49-70 | the same, for A and AAAA questions |
| ReplyProperties.AnyByKind | dns.go:71-84 | the same, for ANY questions, with either relay, both, or neither |
| ReplyProperties.AnyAtMostOneByKind | dns.go:71-84 | an ANY question with at most one relay set gets one record of that relay's family, or none |
| ReplyProperties.AnyIPv4OnlyByKind | dns.go:71-84 | the type switch answers an ANY question with only the IPv4 relay set with exactly one A record, for the relay, which meets the per-kind facts |
| ReplyProperties.AnyIPv6OnlyByKind | dns.go:71-84 | the type switch answers an ANY question with only the IPv6 relay set with exactly one AAAA record, for the relay, which meets the per-kind facts |
| ReplyProperties.PairByKind | dns.go:71-84 | the type switch answers an ANY question with both relays set with exactly the A record and then the AAAA record, which meet the per-kind facts |
| ReplyProperties.QuestionAnswers | dns.go:40-100 | the per-kind counts above hold for any question, with nothing at all for a rejected one |
| ReplyProperties.AnswersAppend | dns.go:39-103 | answers and events of a request split in two are those of the first part followed by those of the second |
| ReplyProperties.AnswersOnlyGrow | dns.go:56-88 | records appended for earlier questions are never removed or changed by later ones |
| ReplyProperties.AnswersBound | dns.go:48-102 | a request gets at most two records and at most one event per question |
| ReplyProperties.RejectedQuestionsContributeNothing | dns.go:42-46 | dropping the questions the policy rejects leaves the answers unchanged |
| ReplyProperties.OneIgnoredEventPerRejectedQuestion | dns.go:42-46 | the number of "ignored" events equals the number of rejected questions |
| ReplyProperties.EveryAnswerServesAnAdmittedQuestion | dns.go:39-103 | every answer record properly answers some admitted question of the request |
| ReplyProperties.NoRelayAnswersOnlyNetBios | dns.go:85-107 | with no relay configured every answer is a locator, and there are answers exactly when an admitted NetBIOS question is present |
| ReplyProperties.NoRelayOnlyLocators | dns.go:48-94 | with no relay set, every answer is a locator properly answering some admitted question |
| ReplyProperties.NetBiosQuestionAnswered | dns.go:85-94 | a request holding an admitted NetBIOS question always has answers |
| ReplyProperties.AllRejectedNoReply | dns.go:42-107 | a request whose every question is rejected gets no reply and one "ignored" event per question |
| ReplyProperties.SingleQuestion | dns.go:39-103 | a one-question request's answers are that question's own |
| ReplyProperties.GatewayScenario | dns.go:28-110 | an A question for "gateway.internal." with IPv4 relay 10.0.2.2 and TTL 60 gets exactly one A record for that name, TTL 60, address 10.0.2.2 |
| ReplyProperties.NetBiosScenario | dns.go:85-94 | an admitted NetBIOS question gets a reply with one locator for the relay, no question section, and CheckingDisabled cleared |

## Left out

- The serving loop (dns.go:196-262): the TCP, UDP and raw-socket runners, the failure-propagating group and cancellation. Concurrency and I/O are not part of this model.
- Handlers.DNSHandler: the write itself and the logging of a failed write are I/O. The method returns the decision (close or write) instead of performing it.
- Handlers.UDPConnDNSHandler: packing is a function parameter standing for the library's wire encoder. Only its failure (send nothing) and its result (the payload) are modelled. A failed send is only logged and is left out.
- Log text: error, Debug and Info lines are not modelled. That includes the message at dns.go:51, which talks about AAAA and IPv6 where it means A and IPv4. Only the "ignored" and "queried" reports are kept, as events.
- The TTL is a whole number of seconds (`ttlSeconds: uint32`). The source's conversion of a duration through floating-point seconds to uint32 is not modelled.
- The NetBIOS name codec (hostname and suffix decoding, locator encoding), the admission policy and the type-name table are function values in `Library` and `Config`. Their bodies are not part of this model.
- Message.SetReply follows the DNS library's documented behaviour for a fresh message. The library itself is not part of this model.
- Names.TrimSpace works on strings as sequences of runes. Invalid UTF-8 bytes are not modelled.
- The reply is a value updated in place in the loop, not a pointer. Go's distinction between a nil and an empty question or answer slice is not modelled.
- The `shouldRespondToNameResolutionQuery` policy takes the name and the peer, as in the code. The kind is not passed to it.
