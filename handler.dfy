/**
 * The plugin's per-request decision: which requests it passes on to the next
 * handler, and how it answers a name whose TXT records announce a SCION
 * address.
 */
module Handler {
  import opened Wrappers
  import opened NetIp
  import opened ScionAddr
  import opened Dns
  import opened Codec
  import opened Resolver

  /** The plugin's configuration: the first byte of every address it hands out. */
  datatype Scitra = Scitra(prefix: bv8)

  /** The configured default: the first byte of fc00::/8. */
  const DefaultPrefix: bv8 := 0xfc

  /** What the plugin does with one request. */
  datatype Outcome =
    | Delegate                 // the request goes, unchanged, to the next handler
    | Fail(err: HandlerError)  // the error is returned and nothing is written
    | Respond(reply: Msg)      // the reply is written and a success code returned

  /** `m` answers `req`: same id, a response, success, the request's first question. */
  predicate IsReplyTo(m: Msg, req: Msg) {
    && m.response
    && m.id == req.id
    && m.rcode == RcodeSuccess
    && m.question == (if |req.question| > 0 then [req.question[0]] else [])
  }

  /** A success reply without records. */
  function EmptyResponse(req: Msg): (m: Msg)
    ensures IsReplyTo(m, req) && !m.authoritative && m.answer == []
  {
    SetReply(req)
  }

  /** An authoritative reply whose one record gives `ip` as the AAAA address of the question's name. */
  function AnswerResponse(req: Msg, ip: Bytes16): (m: Msg)
    ensures IsReplyTo(m, req) && m.authoritative
    ensures m.answer == [AAAA(RRHeader(QName(req), TypeAAAA, QClass(req)), ip)]
  {
    SetReply(req).(authoritative := true,
                   answer := SetReply(req).answer + [AAAA(RRHeader(QName(req), TypeAAAA, QClass(req)), ip)])
  }

  /** A request with one question, of type A or AAAA: the only kind the plugin looks up. */
  predicate AddressQuestion(req: Msg) {
    |req.question| == 1 && (req.question[0].qtype == TypeA || req.question[0].qtype == TypeAAAA)
  }

  /**
   * The decision for `req`. Requests that do not hold exactly one A or AAAA
   * question are passed on; otherwise the name's SCION address is looked up,
   * a lookup error is returned, and a name without an address, or with one
   * that cannot be encoded, is passed on. An A question for a SCION host is
   * answered with an empty reply, an AAAA question with the encoded address.
   */
  function Decide(s: Scitra, req: Msg, next: Msg -> Result<Captured, HandlerError>, parse: string -> Option<Addr>)
    : (o: Outcome)
    ensures o.Fail? ==> AddressQuestion(req) && next(TxtQuery(req.question[0].name)).Failure?
  {
    if |req.question| != 1 then Delegate
    else
      var qtype := req.question[0].qtype;
      if qtype != TypeA && qtype != TypeAAAA then Delegate
      else match Lookup(req.question[0].name, next, parse)
        case Failure(e) => Fail(e)
        case Success(None) => Delegate
        case Success(Some(a)) =>
          match Encode(s.prefix, a)
          case Failure(_) => Delegate
          case Success(ip) =>
            if qtype == TypeA then Respond(EmptyResponse(req)) else Respond(AnswerResponse(req, ip))
  }

  /** The handler as it runs: the lookup, then the encoding, then the reply or the delegation. */
  method ServeDNS(s: Scitra, req: Msg, next: Msg -> Result<Captured, HandlerError>, parse: string -> Option<Addr>)
    returns (o: Outcome)
    ensures o == Decide(s, req, next, parse)
  {
    if |req.question| != 1 {
      return Delegate;
    }
    var qtype := req.question[0].qtype;
    var name := req.question[0].name;
    var hasScion := false;
    var mapped: Bytes16 := [0, 0, 0, 0, 0, 0, 0, 0, 0, 0, 0, 0, 0, 0, 0, 0];
    if qtype == TypeA || qtype == TypeAAAA {
      var found := QueryScionAddress(name, next, parse);
      if found.Failure? {
        return Fail(found.error);
      }
      if found.value.Some? {
        hasScion := true;
        var enc := Scion2Ip(s.prefix, found.value.value);
        if enc.Failure? {
          hasScion := false;
        } else {
          mapped := enc.value;
        }
      }
    }
    if !hasScion {
      return Delegate;
    } else if qtype == TypeA {
      return Respond(EmptyResponse(req));
    }
    return Respond(AnswerResponse(req, mapped));
  }

  /** Anything but a single A or AAAA question is passed on, without a lookup. */
  lemma OtherRequestsDelegated(s: Scitra, req: Msg, next: Msg -> Result<Captured, HandlerError>,
                               parse: string -> Option<Addr>)
    requires !AddressQuestion(req)
    ensures Decide(s, req, next, parse) == Delegate
  {
  }

  /**
   * The next handler is consulted only for a single A or AAAA question: two
   * next handlers decide alike on any other request.
   */
  lemma NextNotConsulted(s: Scitra, req: Msg, next1: Msg -> Result<Captured, HandlerError>,
                         next2: Msg -> Result<Captured, HandlerError>, parse: string -> Option<Addr>)
    requires !AddressQuestion(req)
    ensures Decide(s, req, next1, parse) == Decide(s, req, next2, parse)
  {
  }

  /** A lookup error is returned as it is, and an error is returned only for one. */
  lemma ErrorsPropagate(s: Scitra, req: Msg, next: Msg -> Result<Captured, HandlerError>,
                        parse: string -> Option<Addr>)
    requires AddressQuestion(req)
    ensures var sub := next(TxtQuery(req.question[0].name));
      (Decide(s, req, next, parse).Fail? <==> sub.Failure?) &&
      (sub.Failure? ==> Decide(s, req, next, parse) == Fail(sub.error))
  {
  }

  /** A name without a SCION address, or with one that cannot be encoded, is passed on. */
  lemma UnmappableDelegated(s: Scitra, req: Msg, next: Msg -> Result<Captured, HandlerError>,
                            parse: string -> Option<Addr>)
    requires AddressQuestion(req)
    requires var found := Lookup(req.question[0].name, next, parse);
      found.Success? && (found.value.None? || !Encodable(found.value.value.ia))
    ensures Decide(s, req, next, parse) == Delegate
  {
  }

  /**
   * The plugin answers exactly when the request holds a single A or AAAA
   * question and the lookup finds an address that can be encoded.
   */
  lemma RespondsIff(s: Scitra, req: Msg, next: Msg -> Result<Captured, HandlerError>,
                    parse: string -> Option<Addr>)
    ensures Decide(s, req, next, parse).Respond? <==>
      && AddressQuestion(req)
      && Lookup(req.question[0].name, next, parse).Success?
      && Lookup(req.question[0].name, next, parse).value.Some?
      && Encodable(Lookup(req.question[0].name, next, parse).value.value.ia)
  {
  }

  /** An A question for a SCION host gets a success reply with no records. */
  lemma AQuestionSuppressed(s: Scitra, req: Msg, next: Msg -> Result<Captured, HandlerError>,
                            parse: string -> Option<Addr>)
    requires |req.question| == 1 && req.question[0].qtype == TypeA
    requires Decide(s, req, next, parse).Respond?
    ensures var m := Decide(s, req, next, parse).reply;
      m.answer == [] && !m.authoritative && m.response && m.rcode == RcodeSuccess &&
      m.id == req.id && m.question == req.question
  {
  }

  /**
   * An AAAA question for a SCION host gets one authoritative AAAA record for
   * the question's name and class. Its address starts with the configured
   * prefix, carries a field that reads back as the host's ISD-AS pair, has
   * zeros in bytes 5 to 7, and ends with the host suffix.
   */
  lemma AAAAQuestionAnswered(s: Scitra, req: Msg, next: Msg -> Result<Captured, HandlerError>,
                             parse: string -> Option<Addr>)
    requires |req.question| == 1 && req.question[0].qtype == TypeAAAA
    requires Decide(s, req, next, parse).Respond?
    ensures var q := req.question[0];
      var m := Decide(s, req, next, parse).reply;
      var a := Lookup(q.name, next, parse).value.value;
      && m.authoritative && m.response && m.rcode == RcodeSuccess && m.id == req.id
      && m.question == req.question
      && |m.answer| == 1 && m.answer[0].AAAA?
      && m.answer[0].hdr == RRHeader(q.name, TypeAAAA, q.qclass)
      && m.answer[0].aaaa[0] == s.prefix
      && UnpackIA(Uint32BE(m.answer[0].aaaa[1..5])) == a.ia
      && m.answer[0].aaaa[5..8] == [0, 0, 0]
      && m.answer[0].aaaa[8..] == HostSuffix(a.host.ip)
  {
    var a := Lookup(req.question[0].name, next, parse).value.value;
    EncodeLayout(s.prefix, a);
  }
}
