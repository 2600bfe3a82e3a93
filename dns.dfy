/**
 * The part of a DNS message the handler reads and writes: the header fields
 * a reply copies, the question section and the answer section.
 */
module Dns {
  import opened NetIp

  const TypeA: bv16 := 1
  const TypeTXT: bv16 := 16
  const TypeAAAA: bv16 := 28
  const ClassINET: bv16 := 1
  const RcodeSuccess: int := 0

  datatype Question = Question(name: string, qtype: bv16, qclass: bv16)

  datatype RRHeader = RRHeader(name: string, rrtype: bv16, rrclass: bv16)

  /** Resource records, told apart by their variant rather than by a type test. */
  datatype RR =
    | TXT(hdr: RRHeader, txt: seq<string>)
    | AAAA(hdr: RRHeader, aaaa: Bytes16)
    | OtherRR(hdr: RRHeader)

  datatype Msg = Msg(
    id: bv16,
    response: bool,
    authoritative: bool,
    rcode: int,
    question: seq<Question>,
    answer: seq<RR>)

  /** A query with one question and nothing else set. */
  function NewQuery(id: bv16, q: Question): (m: Msg)
    ensures !m.response && m.question == [q] && m.answer == []
  {
    Msg(id, false, false, RcodeSuccess, [q], [])
  }

  /**
   * The reply frame for `req`: same id, marked as a response with a success
   * code, carrying the request's first question and no answers.
   */
  function SetReply(req: Msg): (m: Msg)
    ensures m.id == req.id && m.response && !m.authoritative
    ensures m.rcode == RcodeSuccess && m.answer == []
    ensures |req.question| > 0 ==> m.question == [req.question[0]]
    ensures |req.question| == 0 ==> m.question == []
  {
    Msg(req.id, true, false, RcodeSuccess,
        if |req.question| > 0 then [req.question[0]] else [], [])
  }

  /** The name of the request's question, or the root zone for a request without one. */
  function QName(req: Msg): (n: string)
    ensures |req.question| > 0 ==> n == req.question[0].name
  {
    if |req.question| == 0 then "." else req.question[0].name
  }

  /** The class of the request's question, or 0 for a request without one. */
  function QClass(req: Msg): (c: bv16)
    ensures |req.question| > 0 ==> c == req.question[0].qclass
  {
    if |req.question| == 0 then 0 else req.question[0].qclass
  }
}
