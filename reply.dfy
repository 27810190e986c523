/**
 * Building the reply to a DNS request: every question is normalised, put to
 * the admission policy and, when admitted, answered with the configured
 * relay addresses; a request that earns no answer gets no reply at all.
 */
module Reply {
  import opened Wrappers
  import opened Message
  import opened Addresses
  import opened Collaborators
  import opened Names
  import opened Folds

  /** The two observability events the builder reports per question. */
  datatype Event =
    | Ignored(name: string, kind: string, peer: IP)
    | Queried(name: string, kind: string, peer: IP)

  /**
   * What one question contributes: the records appended to the answer
   * section, whether it clears the echoed question section and the
   * CheckingDisabled flag, and the event reported for it.
   */
  datatype Outcome = Outcome(answers: seq<RR>, clearsQuestion: bool, events: seq<Event>)

  /** Whether the policy admits question `q` from `peer`. */
  predicate Admitted(q: Question, peer: IP, cfg: Config, lib: Library) {
    cfg.shouldRespond(NormalizedNameFromQuery(q, lib), peer)
  }

  /** The A record naming the IPv4 relay, in answer to `q`. */
  function ARecord(q: Question, relay: IP, cfg: Config): RR {
    A(RRHeader(q.name, TypeA, ClassINET, cfg.ttlSeconds), relay)
  }

  /** The AAAA record naming the IPv6 relay, in answer to `q`. */
  function AAAARecord(q: Question, relay: IP, cfg: Config): RR {
    AAAA(RRHeader(q.name, TypeAAAA, ClassINET, cfg.ttlSeconds), relay)
  }

  /** The NIMLOC record carrying the NetBIOS locator of the IPv4 relay, in answer to `q`. */
  function LocatorRecord(q: Question, cfg: Config, lib: Library): RR {
    NIMLOC(RRHeader(q.name, TypeNIMLOC, ClassINET, cfg.ttlSeconds), lib.encodeNetBIOSLocator(To4(cfg.relayIPv4)))
  }

  /**
   * What the type switch does with an admitted question: the records it
   * appends, whether it clears the question section and CheckingDisabled,
   * and whether it goes on to report the question (`false` where the
   * builder skips to the next question).
   */
  datatype Response = Response(answers: seq<RR>, clearsQuestion: bool, handled: bool)

  /** The type switch of the builder, for an admitted question. */
  function Respond(q: Question, cfg: Config, lib: Library): (s: Response)
    ensures |s.answers| <= 2
    ensures s.clearsQuestion <==> q.qtype == TypeNetBios
    ensures s.handled <==> s.answers != [] || q.qtype == TypeANY
  {
    if q.qtype == TypeA then
      if cfg.relayIPv4.None? then Response([], false, false)
      else Response([ARecord(q, cfg.relayIPv4.value, cfg)], false, true)
    else if q.qtype == TypeAAAA then
      if cfg.relayIPv6.None? then Response([], false, false)
      else Response([AAAARecord(q, cfg.relayIPv6.value, cfg)], false, true)
    else if q.qtype == TypeANY then
      var v4 := if cfg.relayIPv4.Some? then [ARecord(q, cfg.relayIPv4.value, cfg)] else [];
      var v6 := if cfg.relayIPv6.Some? then [AAAARecord(q, cfg.relayIPv6.value, cfg)] else [];
      Response(v4 + v6, false, true)
    else if q.qtype == TypeNetBios then
      Response([LocatorRecord(q, cfg, lib)], true, true)
    else
      Response([], false, false)
  }

  /** The per-question step of the builder: admission, the type switch, the event. */
  function AnswerQuestion(q: Question, peer: IP, cfg: Config, lib: Library): (o: Outcome)
    ensures |o.answers| <= 2 && |o.events| <= 1
    ensures !Admitted(q, peer, cfg, lib) ==>
      o.answers == [] && !o.clearsQuestion
      && o.events == [Ignored(NormalizedNameFromQuery(q, lib), QueryType(q, lib), peer)]
    ensures o.clearsQuestion <==> Admitted(q, peer, cfg, lib) && q.qtype == TypeNetBios
    ensures Admitted(q, peer, cfg, lib) ==>
      o.events == if o.answers != [] || q.qtype == TypeANY
                  then [Queried(NormalizedNameFromQuery(q, lib), QueryType(q, lib), peer)]
                  else []
  {
    var name := NormalizedNameFromQuery(q, lib);
    var kind := QueryType(q, lib);
    if !cfg.shouldRespond(name, peer) then
      Outcome([], false, [Ignored(name, kind, peer)])
    else
      var s := Respond(q, cfg, lib);
      Outcome(s.answers, s.clearsQuestion, if s.handled then [Queried(name, kind, peer)] else [])
  }

  function AnswersOf(peer: IP, cfg: Config, lib: Library): Question -> seq<RR> {
    q => AnswerQuestion(q, peer, cfg, lib).answers
  }

  function EventsOf(peer: IP, cfg: Config, lib: Library): Question -> seq<Event> {
    q => AnswerQuestion(q, peer, cfg, lib).events
  }

  /** The answer records of questions `qs`, question by question, in order. */
  function Answers(qs: seq<Question>, peer: IP, cfg: Config, lib: Library): seq<RR> {
    FlatMap(qs, AnswersOf(peer, cfg, lib))
  }

  /** The events reported for questions `qs`, in order. */
  function Events(qs: seq<Question>, peer: IP, cfg: Config, lib: Library): seq<Event> {
    FlatMap(qs, EventsOf(peer, cfg, lib))
  }

  /** Whether one of `qs` is an admitted NetBIOS question, which clears the question section. */
  predicate ClearsQuestion(qs: seq<Question>, peer: IP, cfg: Config, lib: Library) {
    exists q :: q in qs && q.qtype == TypeNetBios && Admitted(q, peer, cfg, lib)
  }

  /**
   * The reply skeleton after all of `qs` have been processed; the skeleton
   * has no answers of its own, so its answers are those of `qs`.
   */
  function ReplyAfter(skeleton: Msg, qs: seq<Question>, peer: IP, cfg: Config, lib: Library): Msg {
    var cleared := ClearsQuestion(qs, peer, cfg, lib);
    skeleton.(
      question := if cleared then [] else skeleton.question,
      checkingDisabled := skeleton.checkingDisabled && !cleared,
      answer := Answers(qs, peer, cfg, lib))
  }

  /**
   * The reply to `request` from `remote`: none when the peer has no IP or
   * no question earns an answer; otherwise the library's reply skeleton
   * carrying every answer, with the echoed question and the CheckingDisabled
   * flag dropped when a NetBIOS question was admitted.
   */
  function ReplyFor(remote: Addr, request: Msg, cfg: Config, lib: Library): (r: Option<Msg>)
    ensures ToIP(remote).Failure? ==> r == None
    ensures ToIP(remote).Success? ==>
      (r == None <==> Answers(request.question, ToIP(remote).value, cfg, lib) == [])
    ensures r.Some? ==>
      r.value.(question := SetReply(request).question,
               checkingDisabled := SetReply(request).checkingDisabled,
               answer := []) == SetReply(request)
    ensures r.Some? ==>
      var peer := ToIP(remote).value;
      var skeleton := SetReply(request);
      && r.value.answer == Answers(request.question, peer, cfg, lib) != []
      && r.value.id == request.id && r.value.response
      && (ClearsQuestion(request.question, peer, cfg, lib) ==> r.value.question == [] && !r.value.checkingDisabled)
      && (!ClearsQuestion(request.question, peer, cfg, lib) ==>
            r.value.question == skeleton.question && r.value.checkingDisabled == skeleton.checkingDisabled)
  {
    match ToIP(remote)
    case Failure(_) => None
    case Success(peer) =>
      var reply := ReplyAfter(SetReply(request), request.question, peer, cfg, lib);
      if reply.answer == [] then None else Some(reply)
  }

  /** The events reported while building the reply; none when the peer has no IP. */
  function EventsFor(remote: Addr, request: Msg, cfg: Config, lib: Library): (es: seq<Event>)
    ensures ToIP(remote).Failure? ==> es == []
  {
    match ToIP(remote)
    case Failure(_) => []
    case Success(peer) => Events(request.question, peer, cfg, lib)
  }

  /** A reply with one more question's outcome applied. */
  function Apply(m: Msg, o: Outcome): Msg {
    m.(
      question := if o.clearsQuestion then [] else m.question,
      checkingDisabled := m.checkingDisabled && !o.clearsQuestion,
      answer := m.answer + o.answers)
  }

  /** Processing one more question applies its outcome to the reply and appends its events. */
  lemma ReplyStep(skeleton: Msg, qs: seq<Question>, i: nat, peer: IP, cfg: Config, lib: Library)
    requires i < |qs|
    ensures ReplyAfter(skeleton, qs[..i + 1], peer, cfg, lib)
         == Apply(ReplyAfter(skeleton, qs[..i], peer, cfg, lib), AnswerQuestion(qs[i], peer, cfg, lib))
    ensures Events(qs[..i + 1], peer, cfg, lib) == Events(qs[..i], peer, cfg, lib) + AnswerQuestion(qs[i], peer, cfg, lib).events
  {
    FlatMapStep(qs, i, AnswersOf(peer, cfg, lib));
    FlatMapStep(qs, i, EventsOf(peer, cfg, lib));
    ClearsStep(qs, i, peer, cfg, lib);
  }

  /** One more question clears the question section exactly when it is an admitted NetBIOS question or one before it was. */
  lemma ClearsStep(qs: seq<Question>, i: nat, peer: IP, cfg: Config, lib: Library)
    requires i < |qs|
    ensures ClearsQuestion(qs[..i + 1], peer, cfg, lib)
         == (ClearsQuestion(qs[..i], peer, cfg, lib) || AnswerQuestion(qs[i], peer, cfg, lib).clearsQuestion)
  {
    assert qs[..i + 1] == qs[..i] + [qs[i]];
  }

  /**
   * The type switch applied to the reply under construction; `handled` is
   * false where the builder skips to the next question.
   */
  method RespondInto(r: Msg, q: Question, cfg: Config, lib: Library)
    returns (next: Msg, handled: bool)
    ensures next == r.(question := if Respond(q, cfg, lib).clearsQuestion then [] else r.question,
                       checkingDisabled := r.checkingDisabled && !Respond(q, cfg, lib).clearsQuestion,
                       answer := r.answer + Respond(q, cfg, lib).answers)
    ensures handled == Respond(q, cfg, lib).handled
  {
    next := r;
    if q.qtype == TypeA {
      if cfg.relayIPv4 == None {
        return next, false;
      }
      next := next.(answer := next.answer + [A(RRHeader(q.name, TypeA, ClassINET, cfg.ttlSeconds), cfg.relayIPv4.value)]);
    } else if q.qtype == TypeAAAA {
      if cfg.relayIPv6 == None {
        return next, false;
      }
      next := next.(answer := next.answer + [AAAA(RRHeader(q.name, TypeAAAA, ClassINET, cfg.ttlSeconds), cfg.relayIPv6.value)]);
    } else if q.qtype == TypeANY {
      if cfg.relayIPv4 != None {
        next := next.(answer := next.answer + [A(RRHeader(q.name, TypeA, ClassINET, cfg.ttlSeconds), cfg.relayIPv4.value)]);
      }
      if cfg.relayIPv6 != None {
        next := next.(answer := next.answer + [AAAA(RRHeader(q.name, TypeAAAA, ClassINET, cfg.ttlSeconds), cfg.relayIPv6.value)]);
      }
      assert next.answer == r.answer + Respond(q, cfg, lib).answers;
    } else if q.qtype == TypeNetBios {
      next := next.(checkingDisabled := false);
      next := next.(question := []);
      next := next.(answer := next.answer + [NIMLOC(RRHeader(q.name, TypeNIMLOC, ClassINET, cfg.ttlSeconds),
                                                   lib.encodeNetBIOSLocator(To4(cfg.relayIPv4)))]);
    } else {
      return next, false;
    }
    handled := true;
  }

  /**
   * One pass of the builder's loop: the reply after question `q` and the
   * event reported for it. An early `return` here is a `continue` of the loop.
   */
  method AnswerInto(r: Msg, q: Question, peer: IP, cfg: Config, lib: Library)
    returns (next: Msg, events: seq<Event>)
    ensures next == Apply(r, AnswerQuestion(q, peer, cfg, lib))
    ensures events == AnswerQuestion(q, peer, cfg, lib).events
  {
    var name := NormalizedNameFromQuery(q, lib);
    if !cfg.shouldRespond(name, peer) {
      return r, [Ignored(name, QueryType(q, lib), peer)];
    }
    var handled;
    next, handled := RespondInto(r, q, cfg, lib);
    if !handled {
      return next, [];
    }
    events := [Queried(name, QueryType(q, lib), peer)];
  }

  /**
   * The builder: the reply (or none) and the events it reports are exactly
   * those of the specification above.
   */
  method CreateDNSReplyFromRequest(remote: Addr, request: Msg, cfg: Config, lib: Library)
    returns (reply: Option<Msg>, events: seq<Event>)
    ensures reply == ReplyFor(remote, request, cfg, lib)
    ensures events == EventsFor(remote, request, cfg, lib)
  {
    var r := SetReply(request);
    var peerOrError := ToIP(remote);
    if peerOrError.Failure? {
      return None, [];
    }
    var peer := peerOrError.value;
    var qs := request.question;
    ghost var skeleton := r;
    events := [];
    for i := 0 to |qs|
      invariant r == ReplyAfter(skeleton, qs[..i], peer, cfg, lib)
      invariant events == Events(qs[..i], peer, cfg, lib)
    {
      ReplyStep(skeleton, qs, i, peer, cfg, lib);
      var reported;
      r, reported := AnswerInto(r, qs[i], peer, cfg, lib);
      events := events + reported;
    }
    assert qs[..|qs|] == qs;
    if |r.answer| == 0 {
      return None, events;
    }
    return Some(r), events;
  }
}
