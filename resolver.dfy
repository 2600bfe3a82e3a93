/**
 * The lookup of a name's SCION address: a TXT query handed to the next
 * handler, and a scan of its answer for the first `scion=<address>` string
 * whose address has an IP host.
 */
module Resolver {
  import opened Wrappers
  import opened ScionAddr
  import opened Dns

  /** The transaction id of the TXT sub-query. */
  const TxtQueryId: bv16 := 1337

  /** The attribute key the scan looks for. */
  const ScionKey: string := "scion"

  /** An error the next handler returned; its content is not interpreted. */
  datatype HandlerError = HandlerError(message: string)

  /** What the next handler produced for the sub-query: its return code and the message it wrote. */
  datatype Captured = Captured(rcode: int, msg: Msg)

  /** The TXT, class IN sub-query for `name`. */
  function TxtQuery(name: string): (q: Msg)
    ensures q.id == TxtQueryId && !q.response && q.answer == []
    ensures |q.question| == 1 && q.question[0].name == name
    ensures q.question[0].qtype == TypeTXT && q.question[0].qclass == ClassINET
  {
    NewQuery(TxtQueryId, Question(name, TypeTXT, ClassINET))
  }

  /**
   * Splitting at the first separator into at most two parts: the text before
   * it and the text after it, or None when `s` has no separator.
   */
  function SplitFirst(s: string, sep: char): (r: Option<(string, string)>)
    ensures r.None? <==> sep !in s
    ensures r.Some? ==> s == r.value.0 + [sep] + r.value.1 && sep !in r.value.0
  {
    if |s| == 0 then None
    else if s[0] == sep then Some(([], s[1..]))
    else match SplitFirst(s[1..], sep)
      case None => None
      case Some(kv) => Some(([s[0]] + kv.0, kv.1))
  }

  /** A split at a separator that does not occur before it is the split SplitFirst finds. */
  lemma {:induction false} SplitFirstUnique(k: string, sep: char, v: string)
    requires sep !in k
    ensures SplitFirst(k + [sep] + v, sep) == Some((k, v))
  {
    var s := k + [sep] + v;
    if k == [] {
      assert s[0] == sep && s[1..] == v;
    } else {
      assert s[0] == k[0] != sep;
      assert s[1..] == k[1..] + [sep] + v;
      SplitFirstUnique(k[1..], sep, v);
      assert [s[0]] + k[1..] == k;
    }
  }

  /** The text that opens an address attribute: the key and the separator. */
  const Attr: string := ScionKey + "="

  /**
   * The address announced by one TXT string: the string is `scion=` followed
   * by text the parser accepts, and the parsed address has an IP host.
   */
  function Candidate(s: string, parse: string -> Option<Addr>): (r: Option<Addr>)
    ensures r.Some? <==>
      |s| >= |Attr| && s[..|Attr|] == Attr &&
      parse(s[|Attr|..]).Some? && parse(s[|Attr|..]).value.host.HostIP?
    ensures r.Some? ==> r == parse(s[|Attr|..])
  {
    AttrSplit(s);
    match SplitFirst(s, '=')
    case None => None
    case Some(kv) =>
      if kv.0 == ScionKey then
        match parse(kv.1)
        case Some(a) => if a.host.HostIP? then Some(a) else None
        case None => None
      else None
  }

  /** A string splits at its first `=` into the key `scion` exactly when it starts with `scion=`. */
  lemma AttrSplit(s: string)
    ensures var r := SplitFirst(s, '=');
      (r.Some? && r.value.0 == ScionKey <==> |s| >= |Attr| && s[..|Attr|] == Attr) &&
      (r.Some? && r.value.0 == ScionKey ==> r.value.1 == s[|Attr|..])
  {
    if |s| >= |Attr| && s[..|Attr|] == Attr {
      assert s == ScionKey + ['='] + s[|Attr|..];
      SplitFirstUnique(ScionKey, '=', s[|Attr|..]);
    }
    var r := SplitFirst(s, '=');
    if r.Some? && r.value.0 == ScionKey {
      assert s[..|Attr|] == Attr;
    }
  }

  /** The strings of the TXT records among `rrs`, record by record, in order; other records add nothing. */
  function TxtStrings(rrs: seq<RR>): (ss: seq<string>)
  {
    if rrs == [] then [] else RecordStrings(rrs[0]) + TxtStrings(rrs[1..])
  }

  function RecordStrings(rr: RR): seq<string> {
    if rr.TXT? then rr.txt else []
  }

  /** The strings of two answer sections together are the strings of each, in order. */
  lemma {:induction false} TxtStringsAppend(a: seq<RR>, b: seq<RR>)
    ensures TxtStrings(a + b) == TxtStrings(a) + TxtStrings(b)
  {
    if a == [] {
      assert a + b == b;
    } else {
      assert (a + b)[0] == a[0];
      assert (a + b)[1..] == a[1..] + b;
      TxtStringsAppend(a[1..], b);
    }
  }

  /** A string is scanned exactly when some TXT record of the answer holds it. */
  lemma {:induction false} TxtStringsMembers(rrs: seq<RR>, s: string)
    ensures s in TxtStrings(rrs) <==> exists i :: 0 <= i < |rrs| && rrs[i].TXT? && s in rrs[i].txt
  {
    if rrs != [] {
      TxtStringsMembers(rrs[1..], s);
      if s in TxtStrings(rrs[1..]) {
        var i :| 0 <= i < |rrs[1..]| && rrs[1..][i].TXT? && s in rrs[1..][i].txt;
        assert rrs[i + 1] == rrs[1..][i];
      }
      if exists i :: 0 <= i < |rrs| && rrs[i].TXT? && s in rrs[i].txt {
        var i :| 0 <= i < |rrs| && rrs[i].TXT? && s in rrs[i].txt;
        if i > 0 {
          assert rrs[1..][i - 1] == rrs[i];
        }
      }
    }
  }

  /** The first string of `ss` that announces an address, and that address. */
  function FirstMatch(ss: seq<string>, parse: string -> Option<Addr>): (r: Option<Addr>)
    ensures r.Some? ==> r.value.host.HostIP?
  {
    if ss == [] then None
    else match Candidate(ss[0], parse)
      case Some(a) => Some(a)
      case None => FirstMatch(ss[1..], parse)
  }

  /** The scan finds nothing exactly when no string is a candidate, and otherwise the first candidate. */
  lemma {:induction false} FirstMatchIsFirst(ss: seq<string>, parse: string -> Option<Addr>)
    ensures FirstMatch(ss, parse).None? <==> forall i :: 0 <= i < |ss| ==> Candidate(ss[i], parse).None?
    ensures FirstMatch(ss, parse).Some? ==>
      exists i :: 0 <= i < |ss| && Candidate(ss[i], parse) == FirstMatch(ss, parse) &&
        forall j :: 0 <= j < i ==> Candidate(ss[j], parse).None?
  {
    if ss != [] {
      FirstMatchIsFirst(ss[1..], parse);
      if Candidate(ss[0], parse).None? {
        assert forall i :: 1 <= i < |ss| ==> ss[i] == ss[1..][i - 1];
        if FirstMatch(ss, parse).Some? {
          var i :| 0 <= i < |ss[1..]| && Candidate(ss[1..][i], parse) == FirstMatch(ss[1..], parse) &&
            forall j :: 0 <= j < i ==> Candidate(ss[1..][j], parse).None?;
          assert Candidate(ss[i + 1], parse) == FirstMatch(ss, parse);
          forall j | 0 <= j < i + 1
            ensures Candidate(ss[j], parse).None?
          {
            if j > 0 { assert ss[j] == ss[1..][j - 1]; }
          }
        }
      }
    }
  }

  /** Scanning two runs of strings: the first run's match if it has one, else the second's. */
  lemma {:induction false} FirstMatchAppend(a: seq<string>, b: seq<string>, parse: string -> Option<Addr>)
    ensures FirstMatch(a + b, parse) ==
      if FirstMatch(a, parse).Some? then FirstMatch(a, parse) else FirstMatch(b, parse)
  {
    if a == [] {
      assert a + b == b;
    } else {
      assert (a + b)[0] == a[0];
      assert (a + b)[1..] == a[1..] + b;
      FirstMatchAppend(a[1..], b, parse);
    }
  }

  /**
   * The result of the lookup: the next handler's error, nothing when its
   * return code is not success, and otherwise the first candidate among the
   * TXT strings of its answer, records first, strings second.
   */
  function Lookup(name: string, next: Msg -> Result<Captured, HandlerError>, parse: string -> Option<Addr>)
    : (r: Result<Option<Addr>, HandlerError>)
    ensures r.Failure? <==> next(TxtQuery(name)).Failure?
    ensures r.Failure? ==> r.error == next(TxtQuery(name)).error
    ensures r.Success? && r.value.Some? ==>
      next(TxtQuery(name)).value.rcode == RcodeSuccess && r.value.value.host.HostIP?
  {
    match next(TxtQuery(name))
    case Failure(e) => Failure(e)
    case Success(c) =>
      if c.rcode == RcodeSuccess then Success(FirstMatch(TxtStrings(c.msg.answer), parse))
      else Success(None)
  }

  /** No Attr-prefixed string with an IP-host address in any TXT record gives not-found. */
  lemma {:induction false} NotFoundIffNoCandidate(rrs: seq<RR>, parse: string -> Option<Addr>)
    ensures FirstMatch(TxtStrings(rrs), parse).None? <==>
      forall i, j :: 0 <= i < |rrs| && rrs[i].TXT? && 0 <= j < |rrs[i].txt| ==>
        Candidate(rrs[i].txt[j], parse).None?
  {
    var ss := TxtStrings(rrs);
    FirstMatchIsFirst(ss, parse);
    forall i, j | 0 <= i < |rrs| && rrs[i].TXT? && 0 <= j < |rrs[i].txt|
      ensures rrs[i].txt[j] in ss
    {
      TxtStringsMembers(rrs, rrs[i].txt[j]);
    }
    forall k | 0 <= k < |ss|
      ensures exists i, j :: 0 <= i < |rrs| && rrs[i].TXT? && 0 <= j < |rrs[i].txt| && rrs[i].txt[j] == ss[k]
    {
      TxtStringsMembers(rrs, ss[k]);
    }
  }

  /** No string of any TXT record among `rrs` announces an address. */
  predicate NoCandidateIn(rrs: seq<RR>, parse: string -> Option<Addr>) {
    forall i, j :: 0 <= i < |rrs| && rrs[i].TXT? && 0 <= j < |rrs[i].txt| ==>
      Candidate(rrs[i].txt[j], parse).None?
  }

  /**
   * String j of record i announces `a`, and no string before it does: none in
   * an earlier record and none earlier in record i.
   */
  predicate FirstFoundAt(rrs: seq<RR>, i: int, j: int, a: Addr, parse: string -> Option<Addr>) {
    && 0 <= i < |rrs| && rrs[i].TXT? && 0 <= j < |rrs[i].txt|
    && Candidate(rrs[i].txt[j], parse) == Some(a)
    && NoCandidateIn(rrs[..i], parse)
    && forall k :: 0 <= k < j ==> Candidate(rrs[i].txt[k], parse).None?
  }

  /** The scan over an answer section stops at the first candidate, records first, strings second. */
  lemma {:induction false} ScanFindsFirst(rrs: seq<RR>, parse: string -> Option<Addr>)
    requires FirstMatch(TxtStrings(rrs), parse).Some?
    ensures exists i, j :: FirstFoundAt(rrs, i, j, FirstMatch(TxtStrings(rrs), parse).value, parse)
  {
    var head, rest := RecordStrings(rrs[0]), TxtStrings(rrs[1..]);
    FirstMatchAppend(head, rest, parse);
    FirstMatchIsFirst(head, parse);
    var a := FirstMatch(TxtStrings(rrs), parse).value;
    if FirstMatch(head, parse).Some? {
      var j :| 0 <= j < |head| && Candidate(head[j], parse) == FirstMatch(head, parse) &&
        forall k :: 0 <= k < j ==> Candidate(head[k], parse).None?;
      assert FirstFoundAt(rrs, 0, j, a, parse);
    } else {
      ScanFindsFirst(rrs[1..], parse);
      var i, j :| FirstFoundAt(rrs[1..], i, j, a, parse);
      assert rrs[i + 1] == rrs[1..][i];
      var before := rrs[..i + 1];
      forall i', j' | 0 <= i' < |before| && before[i'].TXT? && 0 <= j' < |before[i'].txt|
        ensures Candidate(before[i'].txt[j'], parse).None?
      {
        if i' > 0 {
          assert before[i'] == rrs[1..][..i][i' - 1];
        }
      }
      assert FirstFoundAt(rrs, i + 1, j, a, parse);
    }
  }

  /**
   * What the lookup finds when the next handler answers with a success code:
   * nothing exactly when no TXT string is a candidate, and otherwise the
   * candidate at some string j of some record i with no candidate before it.
   */
  lemma LookupFindsFirst(name: string, next: Msg -> Result<Captured, HandlerError>, parse: string -> Option<Addr>)
    requires next(TxtQuery(name)).Success? && next(TxtQuery(name)).value.rcode == RcodeSuccess
    ensures var rrs := next(TxtQuery(name)).value.msg.answer;
      var r := Lookup(name, next, parse);
      && r.Success?
      && (r.value.None? <==> NoCandidateIn(rrs, parse))
      && (r.value.Some? ==> exists i, j :: FirstFoundAt(rrs, i, j, r.value.value, parse))
  {
    var rrs := next(TxtQuery(name)).value.msg.answer;
    NotFoundIffNoCandidate(rrs, parse);
    if FirstMatch(TxtStrings(rrs), parse).Some? {
      ScanFindsFirst(rrs, parse);
    }
  }

  /**
   * The inner walk over one TXT record's strings: the first string that
   * splits at `=` into the key `scion` and text that parses to an address
   * with an IP host.
   */
  method ScanStrings(txt: seq<string>, parse: string -> Option<Addr>) returns (found: Option<Addr>)
    ensures found == FirstMatch(txt, parse)
  {
    var j := 0;
    while j < |txt|
      invariant 0 <= j <= |txt|
      invariant FirstMatch(txt, parse) == FirstMatch(txt[j..], parse)
    {
      assert txt[j..][0] == txt[j] && txt[j..][1..] == txt[j + 1..];
      var parts := SplitFirst(txt[j], '=');
      if parts.Some? && parts.value.0 == ScionKey {
        var a := parse(parts.value.1);
        if a.Some? && a.value.host.HostIP? {
          return a;
        }
      }
      j := j + 1;
    }
    return None;
  }

  /**
   * The lookup as the handler runs it: send the sub-query, stop on an error,
   * and on a success code walk the answer records in order, scanning the
   * strings of each TXT record and returning the first address found.
   */
  method QueryScionAddress(name: string, next: Msg -> Result<Captured, HandlerError>, parse: string -> Option<Addr>)
    returns (r: Result<Option<Addr>, HandlerError>)
    ensures r == Lookup(name, next, parse)
  {
    var res := next(TxtQuery(name));
    if res.Failure? {
      return Failure(res.error);
    }
    if res.value.rcode != RcodeSuccess {
      return Success(None);
    }
    var answers := res.value.msg.answer;
    var i := 0;
    while i < |answers|
      invariant 0 <= i <= |answers|
      invariant FirstMatch(TxtStrings(answers), parse) == FirstMatch(TxtStrings(answers[i..]), parse)
    {
      assert answers[i..][0] == answers[i] && answers[i..][1..] == answers[i + 1..];
      FirstMatchAppend(RecordStrings(answers[i]), TxtStrings(answers[i + 1..]), parse);
      if answers[i].TXT? {
        var found := ScanStrings(answers[i].txt, parse);
        if found.Some? {
          return Success(found);
        }
      }
      i := i + 1;
    }
    return Success(None);
  }
}
