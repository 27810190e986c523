/** What the reply builder guarantees, proved about its specification. */
module ReplyProperties {
  import opened Wrappers
  import opened Message
  import opened Addresses
  import opened Collaborators
  import opened Names
  import opened Folds
  import opened Reply

  /**
   * Record `rr` is a proper answer to question `q`: it echoes the name as
   * asked, has class INET and the configured TTL, and is an A record with the
   * IPv4 relay (for A or ANY), an AAAA record with the IPv6 relay (for AAAA
   * or ANY), or a locator for the IPv4 relay (for a NetBIOS question).
   */
  ghost predicate Serves(rr: RR, q: Question, cfg: Config, lib: Library) {
    && rr.hdr.name == q.name && rr.hdr.rrclass == ClassINET && rr.hdr.ttl == cfg.ttlSeconds
    && match rr
       case A(h, a) => h.rrtype == TypeA && (q.qtype == TypeA || q.qtype == TypeANY) && cfg.relayIPv4 == Some(a)
       case AAAA(h, a) => h.rrtype == TypeAAAA && (q.qtype == TypeAAAA || q.qtype == TypeANY) && cfg.relayIPv6 == Some(a)
       case NIMLOC(h, loc) =>
         h.rrtype == TypeNIMLOC && q.qtype == TypeNetBios && loc == lib.encodeNetBIOSLocator(To4(cfg.relayIPv4))
  }

  function Count(b: bool): nat { if b then 1 else 0 }

  predicate IsA(rr: RR) { rr.A? }
  predicate IsAAAA(rr: RR) { rr.AAAA? }
  predicate IsLocator(rr: RR) { rr.NIMLOC? }

  /** The record-kind facts about a list of answers to question `q`, admitted or not. */
  ghost predicate AnswersByKind(answers: seq<RR>, q: Question, cfg: Config, lib: Library, admitted: bool) {
    && (forall rr :: rr in answers ==> Serves(rr, q, cfg, lib))
    && CountWhere(answers, IsA) == Count(admitted && (q.qtype == TypeA || q.qtype == TypeANY) && cfg.relayIPv4.Some?)
    && CountWhere(answers, IsAAAA) == Count(admitted && (q.qtype == TypeAAAA || q.qtype == TypeANY) && cfg.relayIPv6.Some?)
    && CountWhere(answers, IsLocator) == Count(admitted && q.qtype == TypeNetBios)
    && |answers| == CountWhere(answers, IsA) + CountWhere(answers, IsAAAA) + CountWhere(answers, IsLocator)
    && (forall i, j :: 0 <= i < j < |answers| ==> answers[i].A? && answers[j].AAAA?)
  }

  /**
   * The type switch, by record kind: one A record exactly when an A or ANY
   * question meets a configured IPv4 relay, one AAAA record exactly when an
   * AAAA or ANY question meets a configured IPv6 relay, one locator exactly
   * for a NetBIOS question (relay configured or not), nothing else, A before
   * AAAA, and each record a proper answer to the question.
   */
  lemma RespondByKind(q: Question, cfg: Config, lib: Library)
    ensures AnswersByKind(Respond(q, cfg, lib).answers, q, cfg, lib, true)
  {
    if q.qtype == TypeA || q.qtype == TypeAAAA {
      SingleRelayByKind(q, cfg, lib);
    } else if q.qtype == TypeANY {
      AnyByKind(q, cfg, lib);
    } else if q.qtype == TypeNetBios {
      OneRecord(LocatorRecord(q, cfg, lib));
    } else {
      assert Respond(q, cfg, lib).answers == [];
    }
  }

  lemma SingleRelayByKind(q: Question, cfg: Config, lib: Library)
    requires q.qtype == TypeA || q.qtype == TypeAAAA
    ensures AnswersByKind(Respond(q, cfg, lib).answers, q, cfg, lib, true)
  {
    var s := Respond(q, cfg, lib);
    if q.qtype == TypeA && cfg.relayIPv4.Some? {
      OneRecord(ARecord(q, cfg.relayIPv4.value, cfg));
    } else if q.qtype == TypeAAAA && cfg.relayIPv6.Some? {
      OneRecord(AAAARecord(q, cfg.relayIPv6.value, cfg));
    } else {
      assert s.answers == [];
    }
  }

  lemma AnyByKind(q: Question, cfg: Config, lib: Library)
    requires q.qtype == TypeANY
    ensures AnswersByKind(Respond(q, cfg, lib).answers, q, cfg, lib, true)
  {
    if cfg.relayIPv4.Some? && cfg.relayIPv6.Some? {
      PairByKind(q, cfg, lib);
    } else {
      AnyAtMostOneByKind(q, cfg, lib);
    }
  }

  lemma AnyAtMostOneByKind(q: Question, cfg: Config, lib: Library)
    requires q.qtype == TypeANY && !(cfg.relayIPv4.Some? && cfg.relayIPv6.Some?)
    ensures AnswersByKind(Respond(q, cfg, lib).answers, q, cfg, lib, true)
  {
    if cfg.relayIPv4.Some? {
      AnyIPv4OnlyByKind(q, cfg, lib);
    } else if cfg.relayIPv6.Some? {
      AnyIPv6OnlyByKind(q, cfg, lib);
    } else {
      assert Respond(q, cfg, lib).answers == [];
    }
  }

  /** An ANY question with only the IPv4 relay set gets exactly its A record. */
  lemma AnyIPv4OnlyByKind(q: Question, cfg: Config, lib: Library)
    requires q.qtype == TypeANY && cfg.relayIPv4.Some? && cfg.relayIPv6.None?
    ensures Respond(q, cfg, lib).answers == [ARecord(q, cfg.relayIPv4.value, cfg)]
    ensures AnswersByKind(Respond(q, cfg, lib).answers, q, cfg, lib, true)
  {
    assert Respond(q, cfg, lib).answers == [ARecord(q, cfg.relayIPv4.value, cfg)];
    OneRecord(ARecord(q, cfg.relayIPv4.value, cfg));
  }

  /** An ANY question with only the IPv6 relay set gets exactly its AAAA record. */
  lemma AnyIPv6OnlyByKind(q: Question, cfg: Config, lib: Library)
    requires q.qtype == TypeANY && cfg.relayIPv4.None? && cfg.relayIPv6.Some?
    ensures Respond(q, cfg, lib).answers == [AAAARecord(q, cfg.relayIPv6.value, cfg)]
    ensures AnswersByKind(Respond(q, cfg, lib).answers, q, cfg, lib, true)
  {
    assert Respond(q, cfg, lib).answers == [AAAARecord(q, cfg.relayIPv6.value, cfg)];
    OneRecord(AAAARecord(q, cfg.relayIPv6.value, cfg));
  }

  /**
   * The answers to one question, by record kind: as the type switch gives
   * them when the question is admitted, and none when it is not.
   */
  lemma QuestionAnswers(q: Question, peer: IP, cfg: Config, lib: Library)
    ensures AnswersByKind(AnswerQuestion(q, peer, cfg, lib).answers, q, cfg, lib, Admitted(q, peer, cfg, lib))
  {
    var o := AnswerQuestion(q, peer, cfg, lib);
    if Admitted(q, peer, cfg, lib) {
      RespondByKind(q, cfg, lib);
      assert o.answers == Respond(q, cfg, lib).answers;
    } else {
      assert o.answers == [];
    }
  }

  /** An ANY question with both relays set gets exactly its A record and then its AAAA record. */
  lemma PairByKind(q: Question, cfg: Config, lib: Library)
    requires q.qtype == TypeANY && cfg.relayIPv4.Some? && cfg.relayIPv6.Some?
    ensures Respond(q, cfg, lib).answers
         == [ARecord(q, cfg.relayIPv4.value, cfg), AAAARecord(q, cfg.relayIPv6.value, cfg)]
    ensures AnswersByKind(Respond(q, cfg, lib).answers, q, cfg, lib, true)
  {
    var a, b := ARecord(q, cfg.relayIPv4.value, cfg), AAAARecord(q, cfg.relayIPv6.value, cfg);
    assert Respond(q, cfg, lib).answers == [a, b];
    assert [a, b][..1] == [a];
    OneRecord(a);
    assert CountWhere([a, b], IsAAAA) == 1;
  }

  lemma OneRecord(rr: RR)
    ensures CountWhere([rr], IsA) == Count(rr.A?)
    ensures CountWhere([rr], IsAAAA) == Count(rr.AAAA?)
    ensures CountWhere([rr], IsLocator) == Count(rr.NIMLOC?)
  {
    assert [rr][..0] == [];
  }

  /**
   * Answers keep question order: the answers to a request split in two are
   * the answers to its first part followed by those to its second part.
   */
  lemma AnswersAppend(a: seq<Question>, b: seq<Question>, peer: IP, cfg: Config, lib: Library)
    ensures Answers(a + b, peer, cfg, lib) == Answers(a, peer, cfg, lib) + Answers(b, peer, cfg, lib)
    ensures Events(a + b, peer, cfg, lib) == Events(a, peer, cfg, lib) + Events(b, peer, cfg, lib)
  {
    FlatMapAppend(a, b, AnswersOf(peer, cfg, lib));
    FlatMapAppend(a, b, EventsOf(peer, cfg, lib));
  }

  /**
   * Records already appended are never removed or changed: the answers to
   * the first `i` questions are a prefix of the answers to the first `j`.
   */
  lemma AnswersOnlyGrow(qs: seq<Question>, i: nat, j: nat, peer: IP, cfg: Config, lib: Library)
    requires i <= j <= |qs|
    ensures Answers(qs[..i], peer, cfg, lib) <= Answers(qs[..j], peer, cfg, lib)
    ensures Events(qs[..i], peer, cfg, lib) <= Events(qs[..j], peer, cfg, lib)
  {
    assert qs[..j] == qs[..i] + qs[i..j];
    AnswersAppend(qs[..i], qs[i..j], peer, cfg, lib);
  }

  /** Each question contributes at most two records. */
  lemma AnswersBound(qs: seq<Question>, peer: IP, cfg: Config, lib: Library)
    ensures |Answers(qs, peer, cfg, lib)| <= 2 * |qs|
    ensures |Events(qs, peer, cfg, lib)| <= |qs|
  {
    FlatMapLength(qs, AnswersOf(peer, cfg, lib), 2);
    FlatMapLength(qs, EventsOf(peer, cfg, lib), 1);
  }

  function AdmittedBy(peer: IP, cfg: Config, lib: Library): Question -> bool {
    q => Admitted(q, peer, cfg, lib)
  }

  /** The questions of `qs` the policy admits, in order. */
  function AdmittedQuestions(qs: seq<Question>, peer: IP, cfg: Config, lib: Library): seq<Question> {
    Filter(qs, AdmittedBy(peer, cfg, lib))
  }

  /** A question the policy rejects contributes no answers: dropping it changes nothing. */
  lemma RejectedQuestionsContributeNothing(qs: seq<Question>, peer: IP, cfg: Config, lib: Library)
    ensures Answers(qs, peer, cfg, lib) == Answers(AdmittedQuestions(qs, peer, cfg, lib), peer, cfg, lib)
  {
    FlatMapFilter(qs, AnswersOf(peer, cfg, lib), AdmittedBy(peer, cfg, lib));
  }

  predicate IsIgnored(e: Event) { e.Ignored? }

  function RejectedBy(peer: IP, cfg: Config, lib: Library): Question -> bool {
    q => !Admitted(q, peer, cfg, lib)
  }

  /** The number of "ignored" events in `es`. */
  function CountIgnored(es: seq<Event>): nat {
    CountWhere(es, IsIgnored)
  }

  /**
   * Every rejected question is reported as ignored exactly once, and no
   * admitted question is: the "ignored" events number the rejected questions.
   */
  lemma OneIgnoredEventPerRejectedQuestion(qs: seq<Question>, peer: IP, cfg: Config, lib: Library)
    ensures CountIgnored(Events(qs, peer, cfg, lib)) == |Filter(qs, RejectedBy(peer, cfg, lib))|
  {
    forall q | q in qs
      ensures CountWhere(EventsOf(peer, cfg, lib)(q), IsIgnored) == if RejectedBy(peer, cfg, lib)(q) then 1 else 0
    {
    }
    CountFlatMap(qs, EventsOf(peer, cfg, lib), IsIgnored, RejectedBy(peer, cfg, lib));
  }

  /** Every answer record is a proper answer to some admitted question of the request. */
  lemma EveryAnswerServesAnAdmittedQuestion(qs: seq<Question>, peer: IP, cfg: Config, lib: Library)
    ensures forall rr :: rr in Answers(qs, peer, cfg, lib) ==>
      exists q :: q in qs && Admitted(q, peer, cfg, lib) && Serves(rr, q, cfg, lib)
  {
    forall rr | rr in Answers(qs, peer, cfg, lib)
      ensures exists q :: q in qs && Admitted(q, peer, cfg, lib) && Serves(rr, q, cfg, lib)
    {
      FlatMapMember(qs, AnswersOf(peer, cfg, lib), rr);
      var q :| q in qs && rr in AnswerQuestion(q, peer, cfg, lib).answers;
      QuestionAnswers(q, peer, cfg, lib);
    }
  }

  /**
   * With no relay address configured only NetBIOS questions are answered
   * (with a locator for the absent address): the request gets answers
   * exactly when it holds an admitted NetBIOS question.
   */
  lemma NoRelayAnswersOnlyNetBios(qs: seq<Question>, peer: IP, cfg: Config, lib: Library)
    requires cfg.relayIPv4.None? && cfg.relayIPv6.None?
    ensures forall rr :: rr in Answers(qs, peer, cfg, lib) ==> rr.NIMLOC?
    ensures Answers(qs, peer, cfg, lib) == [] <==> !ClearsQuestion(qs, peer, cfg, lib)
  {
    NoRelayOnlyLocators(qs, peer, cfg, lib);
    if ClearsQuestion(qs, peer, cfg, lib) {
      NetBiosQuestionAnswered(qs, peer, cfg, lib);
    }
    if Answers(qs, peer, cfg, lib) != [] {
      var rr := Answers(qs, peer, cfg, lib)[0];
      assert rr in Answers(qs, peer, cfg, lib);
      var q :| q in qs && Admitted(q, peer, cfg, lib) && Serves(rr, q, cfg, lib);
      assert q.qtype == TypeNetBios;
    }
  }

  /** With no relay configured, every answer is a locator, for an admitted question. */
  lemma NoRelayOnlyLocators(qs: seq<Question>, peer: IP, cfg: Config, lib: Library)
    requires cfg.relayIPv4.None? && cfg.relayIPv6.None?
    ensures forall rr :: rr in Answers(qs, peer, cfg, lib) ==>
      rr.NIMLOC? && exists q :: q in qs && Admitted(q, peer, cfg, lib) && Serves(rr, q, cfg, lib)
  {
    EveryAnswerServesAnAdmittedQuestion(qs, peer, cfg, lib);
  }

  /** An admitted NetBIOS question always earns a record, so the request has answers. */
  lemma NetBiosQuestionAnswered(qs: seq<Question>, peer: IP, cfg: Config, lib: Library)
    requires ClearsQuestion(qs, peer, cfg, lib)
    ensures Answers(qs, peer, cfg, lib) != []
  {
    var q :| q in qs && q.qtype == TypeNetBios && Admitted(q, peer, cfg, lib);
    var rr := LocatorRecord(q, cfg, lib);
    assert AnswersOf(peer, cfg, lib)(q) == [rr];
    FlatMapContains(qs, AnswersOf(peer, cfg, lib), q, rr);
  }

  /** A request whose every question the policy rejects gets no reply, and one "ignored" event per question. */
  lemma AllRejectedNoReply(remote: Addr, request: Msg, cfg: Config, lib: Library)
    requires ToIP(remote).Success?
    requires forall q :: q in request.question ==> !Admitted(q, ToIP(remote).value, cfg, lib)
    ensures ReplyFor(remote, request, cfg, lib) == None
    ensures CountIgnored(EventsFor(remote, request, cfg, lib)) == |request.question|
  {
    var peer, qs := ToIP(remote).value, request.question;
    assert forall i :: 0 <= i < |qs| ==> qs[i] in qs;
    FilterAll(qs, RejectedBy(peer, cfg, lib));
    FilterNone(qs, AdmittedBy(peer, cfg, lib));
    OneIgnoredEventPerRejectedQuestion(qs, peer, cfg, lib);
    RejectedQuestionsContributeNothing(qs, peer, cfg, lib);
    assert EventsFor(remote, request, cfg, lib) == Events(qs, peer, cfg, lib);
  }

  /** A single question's answers are those of its own outcome. */
  lemma SingleQuestion(q: Question, peer: IP, cfg: Config, lib: Library)
    ensures Answers([q], peer, cfg, lib) == AnswerQuestion(q, peer, cfg, lib).answers
  {
    assert [q][..0] == [];
    assert Answers([q], peer, cfg, lib) == FlatMap([q][..0], AnswersOf(peer, cfg, lib)) + AnswersOf(peer, cfg, lib)(q);
  }

  /** An A question for "gateway.internal." with an IPv4 relay and an always-yes policy. */
  lemma GatewayScenario(lib: Library)
    ensures
      var relay: IP := [10, 0, 2, 2];
      var cfg := Config(Some(relay), None, 60, (name: string, peer: IP) => true);
      var q := Question("gateway.internal.", TypeA, ClassINET);
      var request := Msg(7, false, OpcodeQuery, true, false, 0, [q], []);
      var remote := UDPAddr([192, 0, 2, 5], 5353, "");
      ReplyFor(remote, request, cfg, lib)
        == Some(Msg(7, true, OpcodeQuery, true, false, RcodeSuccess, [q],
                    [A(RRHeader("gateway.internal.", TypeA, ClassINET, 60), relay)]))
  {
    var relay: IP := [10, 0, 2, 2];
    var cfg := Config(Some(relay), None, 60, (name: string, peer: IP) => true);
    var q := Question("gateway.internal.", TypeA, ClassINET);
    var request := Msg(7, false, OpcodeQuery, true, false, 0, [q], []);
    var peer: IP := [192, 0, 2, 5];
    assert AnswerQuestion(q, peer, cfg, lib).answers == [ARecord(q, relay, cfg)];
    SingleQuestion(q, peer, cfg, lib);
    assert !ClearsQuestion([q], peer, cfg, lib);
    assert SetReply(request) == Msg(7, true, OpcodeQuery, true, false, RcodeSuccess, [q], []);
  }

  /**
   * An admitted NetBIOS question answered with an IPv4 relay: one locator
   * record, no echoed question, CheckingDisabled cleared.
   */
  lemma NetBiosScenario(lib: Library, name: string)
    ensures
      var relay: IP := [10, 0, 2, 2];
      var cfg := Config(Some(relay), None, 60, (n: string, peer: IP) => true);
      var q := Question(name, TypeNetBios, ClassINET);
      var request := Msg(9, false, OpcodeQuery, false, true, 0, [q], []);
      var reply := ReplyFor(UDPAddr([192, 0, 2, 5], 137, ""), request, cfg, lib);
      && reply.Some?
      && reply.value.question == []
      && !reply.value.checkingDisabled
      && reply.value.answer == [NIMLOC(RRHeader(name, TypeNIMLOC, ClassINET, 60), lib.encodeNetBIOSLocator(Some(relay)))]
  {
    var relay: IP := [10, 0, 2, 2];
    var cfg := Config(Some(relay), None, 60, (n: string, peer: IP) => true);
    var q := Question(name, TypeNetBios, ClassINET);
    var peer: IP := [192, 0, 2, 5];
    assert To4(Some(relay)) == Some(relay);
    assert Admitted(q, peer, cfg, lib);
    assert AnswerQuestion(q, peer, cfg, lib).answers == [LocatorRecord(q, cfg, lib)];
    SingleQuestion(q, peer, cfg, lib);
    assert q in [q];
    assert ClearsQuestion([q], peer, cfg, lib);
  }
}
