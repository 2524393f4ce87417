/**
 * ResponseParser of responseparser.go: a dns.ResponseWriter wrapper that,
 * before forwarding a response, hands every address of its A and AAAA
 * answers (section 3.4.1 of RFC 1035, section 2.2 of RFC 3596) with the
 * record's TTL to the allow-list manager.
 */
module DnsAnswers {
  import opened Wrappers
  import opened Bytes
  import opened NetIP
  import opened AllowListManager

  /**
   * An answer record, as far as the parser looks at it: an A record, an AAAA
   * record (each with the TTL of its header and the address field as Go
   * holds it), or a record of any other type.
   */
  datatype Answer = A(ttl: Uint32, a: Address) | AAAA(ttl: Uint32, aaaa: Address) | Other

  /** A response; only its answer section matters here. */
  datatype Msg = Msg(answer: seq<Answer>)

  /** One AddRoute call: the address handed over and the TTL. */
  datatype Route = Route(ip: Address, ttl: Uint32)

  /** The calls one answer record causes: To4 of an A record, To16 of an AAAA record, none otherwise. */
  function RoutesOf(answer: Answer): seq<Route>
  {
    match answer
    case A(ttl, a) => [Route(To4(a), ttl)]
    case AAAA(ttl, aaaa) => [Route(To16(aaaa), ttl)]
    case Other => []
  }

  /** The calls of a whole answer section, in answer order. */
  function Routes(answers: seq<Answer>): seq<Route>
    decreases |answers|
  {
    if answers == [] then []
    else Routes(answers[..|answers| - 1]) + RoutesOf(answers[|answers| - 1])
  }

  /** Extraction distributes over concatenation of answer sections. */
  lemma {:induction false} RoutesAppend(a: seq<Answer>, b: seq<Answer>)
    ensures Routes(a + b) == Routes(a) + Routes(b)
    decreases |b|
  {
    if b == [] {
      assert a + b == a;
    } else {
      var n := |b| - 1;
      assert (a + b)[..|a + b| - 1] == a + b[..n];
      RoutesAppend(a, b[..n]);
    }
  }

  predicate IsAddressRecord(answer: Answer)
  {
    answer.A? || answer.AAAA?
  }

  /** The A and AAAA records of an answer section, in order. */
  function AddressRecords(answers: seq<Answer>): seq<Answer>
    decreases |answers|
  {
    if answers == [] then []
    else
      var last := answers[|answers| - 1];
      AddressRecords(answers[..|answers| - 1]) + if IsAddressRecord(last) then [last] else []
  }

  /** The call one A or AAAA record causes. */
  function RouteFor(answer: Answer): Route
    requires IsAddressRecord(answer)
  {
    if answer.A? then Route(To4(answer.a), answer.ttl) else Route(To16(answer.aaaa), answer.ttl)
  }

  /**
   * One call per A or AAAA record and none for any other record, in answer
   * order: the extraction is the filter of the address records followed by
   * RouteFor on each.
   */
  lemma {:induction false} RoutesAreAddressRecords(answers: seq<Answer>)
    ensures |Routes(answers)| == |AddressRecords(answers)|
    ensures forall i :: 0 <= i < |Routes(answers)| ==>
      IsAddressRecord(AddressRecords(answers)[i]) && Routes(answers)[i] == RouteFor(AddressRecords(answers)[i])
    decreases |answers|
  {
    if answers != [] {
      var prefix := answers[..|answers| - 1];
      RoutesAreAddressRecords(prefix);
      var n := |Routes(prefix)|;
      forall i | 0 <= i < |Routes(answers)|
        ensures IsAddressRecord(AddressRecords(answers)[i]) && Routes(answers)[i] == RouteFor(AddressRecords(answers)[i])
      {
        if i < n {
          assert Routes(answers)[i] == Routes(prefix)[i];
          assert AddressRecords(answers)[i] == AddressRecords(prefix)[i];
        }
      }
    }
  }

  /** An answer section without A or AAAA records causes no call, whatever else it holds. */
  lemma {:induction false} NoAddressRecordsNoRoutes(answers: seq<Answer>)
    requires forall i :: 0 <= i < |answers| ==> !IsAddressRecord(answers[i])
    ensures Routes(answers) == []
    decreases |answers|
  {
    if answers != [] {
      NoAddressRecordsNoRoutes(answers[..|answers| - 1]);
    }
  }

  /**
   * An A record yields a 4-byte address or nil, an AAAA record a 16-byte
   * address or nil, each with the record's TTL unchanged.
   */
  lemma RouteForShape(answer: Answer)
    requires IsAddressRecord(answer)
    ensures RouteFor(answer).ttl == answer.ttl
    ensures answer.A? ==> |RouteFor(answer).ip| == IPv4Len || RouteFor(answer).ip == []
    ensures answer.AAAA? ==> |RouteFor(answer).ip| == IPv6Len || RouteFor(answer).ip == []
    ensures answer.AAAA? && |answer.aaaa| == IPv6Len ==> RouteFor(answer).ip == answer.aaaa
  {
  }

  /**
   * A mixed answer: an A record holding 192.168.1.1 in the 16-byte form
   * net.ParseIP gives, a record of another type, and an AAAA record. The A
   * record is handed over as 4 bytes, the other record is skipped.
   */
  lemma ExampleMixedAnswers(v6: Address)
    requires |v6| == IPv6Len
    ensures var mapped := V4InV6Prefix + [192, 168, 1, 1];
      Routes([A(300, mapped), Other, AAAA(600, v6)]) == [Route([192, 168, 1, 1], 300), Route(v6, 600)]
  {
    var mapped := V4InV6Prefix + [192, 168, 1, 1];
    var answers := [A(300, mapped), Other, AAAA(600, v6)];
    assert mapped[..12] == V4InV6Prefix;
    assert To4(mapped) == [192, 168, 1, 1];
    assert [A(300, mapped)][..0] == [];
    assert Routes([A(300, mapped)]) == [Route([192, 168, 1, 1], 300)];
    assert answers[..2] == [A(300, mapped), Other] && answers[..2][..1] == [A(300, mapped)];
    assert Routes(answers[..2]) == [Route([192, 168, 1, 1], 300)];
    assert To16(v6) == v6;
  }

  /** The channel entries AddRoute sends for `routes`, all stamped at `now`. */
  function Entries(routes: seq<Route>, now: int): (r: seq<AllowRoute>)
    ensures |r| == |routes|
    ensures forall i :: 0 <= i < |routes| ==> r[i] == AllowRoute(routes[i].ip, ExpiryOf(now, routes[i].ttl))
  {
    seq(|routes|, i requires 0 <= i < |routes| => AllowRoute(routes[i].ip, ExpiryOf(now, routes[i].ttl)))
  }

  lemma EntriesAppend(a: seq<Route>, b: seq<Route>, now: int)
    ensures Entries(a + b, now) == Entries(a, now) + Entries(b, now)
  {
  }

  /** The entries of one more answer are those of its own calls. */
  lemma RoutesStep(answers: seq<Answer>, i: nat, now: int)
    requires i < |answers|
    ensures Entries(Routes(answers[..i + 1]), now) == Entries(Routes(answers[..i]), now) + Entries(RoutesOf(answers[i]), now)
  {
    assert answers[..i + 1][..i] == answers[..i];
    EntriesAppend(Routes(answers[..i]), RoutesOf(answers[i]), now);
  }

  datatype WriteError = WriteFailed

  /** The wrapped dns.ResponseWriter: the responses it has been given, in order. */
  class ResponseWriter {
    var written: seq<Msg>

    constructor ()
      ensures written == []
    {
      written := [];
    }

    /** WriteMsg of the wrapped writer; whether writing succeeds is up to the network, given as `writeOk`. */
    method WriteMsg(response: Msg, writeOk: bool) returns (err: Option<WriteError>)
      modifies this
      ensures written == old(written) + [response]
      ensures err.None? <==> writeOk
    {
      written := written + [response];
      err := if writeOk then None else Some(WriteFailed);
    }
  }

  class ResponseParser {
    const responseWriter: ResponseWriter
    const dgManager: NFTablesManager

    /** NewResponseParser: wrap `writer`, reporting addresses to `manager`. */
    constructor (writer: ResponseWriter, manager: NFTablesManager)
      ensures responseWriter == writer && dgManager == manager
    {
      responseWriter := writer;
      dgManager := manager;
    }

    /**
     * WriteMsg: one AddRoute per A or AAAA answer, in answer order, then the
     * response is forwarded unchanged and the writer's error is returned.
     * All AddRoute calls read the clock as `now`.
     */
    method WriteMsg(response: Msg, now: int, writeOk: bool) returns (err: Option<WriteError>)
      modifies dgManager`syncChannel, responseWriter
      ensures dgManager.syncChannel == old(dgManager.syncChannel) + Entries(Routes(response.answer), now)
      ensures responseWriter.written == old(responseWriter.written) + [response]
      ensures err.None? <==> writeOk
    {
      var answers := response.answer;
      var i := 0;
      while i < |answers|
        invariant 0 <= i <= |answers|
        invariant dgManager.syncChannel == old(dgManager.syncChannel) + Entries(Routes(answers[..i]), now)
        invariant responseWriter.written == old(responseWriter.written)
      {
        var answer := answers[i];
        RoutesStep(answers, i, now);
        match answer {
          case A(ttl, a) =>
            dgManager.AddRoute(To4(a), ttl, now);
          case AAAA(ttl, aaaa) =>
            dgManager.AddRoute(To16(aaaa), ttl, now);
          case Other =>
        }
        i := i + 1;
      }
      assert answers[..i] == answers;
      err := responseWriter.WriteMsg(response, writeOk);
    }
  }
}
