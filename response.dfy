/** Response assembly `getResponse`: the header (transaction ID echoed,
    flags 84 00, QDCOUNT 1, ANCOUNT, NSCOUNT 0, ARCOUNT 0; section 4.1.1 of
    RFC 1035), the question rebuilt from the decoded parts and one answer
    per stored record, together with the send flag, the request counter
    and the log it writes. */
module ResponseEngine {
  import opened Common
  import opened RecordTypes
  import opened Flags
  import opened Question
  import opened Answer
  import opened ZoneStore
  import opened CaseSwap

  /** The exceptions `getResponse` lets escape. */
  datatype Fault =
    | ShortDatagram          // fewer than 3 bytes: `ord(b'')` in getFlags
    | AnswerCountOverflow    // 65536 records or more: ANCOUNT's to_bytes
    | QuestionNotEncodable   // buildQuestion: a part longer than 255 or a character above 255
    | AnswerNotEncodable     // recordToBytes: a bad TTL or address part

  /** The sender's `(ip, port)`. */
  datatype Address = Address(ip: string, port: int)

  /** The keyword switches of `getResponse`. */
  datatype Modes = Modes(caseSensitive: bool, adversary: bool, withoutRequestId: bool,
                         forceNotResponse: bool)

  /** Which request file a request row goes to: the checking one when the
      lowered domain holds 'check_'. */
  datatype Category = Normal | Checking

  /** Where an error trace was logged. */
  datatype Site = InGetZone | InGetRecs

  /** The log side channel: error traces, and the one request row
      (`logDNSRequest` and `storeDNSRequestJSON`) written per counted call. */
  datatype LogEntry =
    | ErrorTrace(site: Site)
    | RequestRow(counter: int, status: Status, recordType: string, source: Address,
                 domain: string, modifiedDomain: Option<string>, category: Category)

  /** The returned `(bytes, response)` pair. */
  datatype Reply = Reply(message: seq<byte>, send: bool)

  /** One call's effect: its result, what it appended to the log and
      whether it incremented COUNTER. */
  datatype Outcome = Outcome(result: Result<Reply, Fault>, logs: seq<LogEntry>, counted: bool)

  const ForceNotResponseMark: string := "tor_dont_response"

  /** `'.'.join(map(str, parts))[:-1]`: the name as text, without the dot
      the '' sentinel adds. */
  function Display(parts: seq<string>): string
  {
    DropLast(JoinDot(parts))
  }

  /** The question section as decoded from `data[12:]`. */
  function QueryOf(data: seq<byte>): (seq<string>, seq<byte>)
  {
    QuestionOf(Slice(data, 12, |data|))
  }

  /** The zone consulted: from the fake zones exactly in adversary mode. */
  function ZoneOf(realZones: Zones, fakeZones: Zones, data: seq<byte>, modes: Modes): Option<Zone>
  {
    GetZone(if modes.adversary then fakeZones else realZones, QueryOf(data).0)
  }

  function LookupOf(realZones: Zones, fakeZones: Zones, data: seq<byte>, modes: Modes): Lookup
  {
    GetRecs(ZoneOf(realZones, fakeZones, data, modes), QueryOf(data).0, QueryOf(data).1)
  }

  /** The error traces written by `getZone` and `getRecs`. */
  function Traces(realZones: Zones, fakeZones: Zones, data: seq<byte>, modes: Modes): seq<LogEntry>
  {
    (if ZoneOf(realZones, fakeZones, data, modes).None? then [ErrorTrace(InGetZone)] else []) +
    (if LookupOf(realZones, fakeZones, data, modes).logged then [ErrorTrace(InGetRecs)] else [])
  }

  /** DNSHeader: the ID (unless left out for forging), the flags, QDCOUNT 1,
      ANCOUNT and two zero counts. The flags are written as the 84 00 that
      `getFlags(data[2:4])` always returns (Flags.FlagsAreConstant); the
      method `BuildHeader` calls `GetFlags` itself. */
  function Header(data: seq<byte>, modes: Modes, answers: nat): seq<byte>
    requires |data| >= 3 && answers < 0x1_0000
  {
    assert Pow256(2) == 0x1_0000 by { assert Pow256(1) == 256; }
    (if modes.withoutRequestId then [] else data[..2]) + [0x84, 0x00] + [0x00, 0x01] +
    BigEndian(answers, 2) + [0x00, 0x00] + [0x00, 0x00]
  }

  /** The request is a 0x20 check: case-sensitive mode and 'check_' in the
      lowered domain. */
  predicate Marked(parts: seq<string>, modes: Modes) {
    modes.caseSensitive && Contains(LowerText(Display(parts)), "check_")
  }

  /** A check that is permuted: not a 're_check_'. */
  predicate Permuted(parts: seq<string>, modes: Modes) {
    Marked(parts, modes) && !Contains(LowerText(Display(parts)), "re_check_")
  }

  /** The parts the question section is built from. */
  function QuestionParts(parts: seq<string>, modes: Modes, draws: nat -> bool): seq<string>
  {
    if Permuted(parts, modes) then CaseSwapped(parts, draws) else parts
  }

  /** The request row, numbered with the incremented counter. */
  function Row(lookup: Lookup, source: Address, modes: Modes, draws: nat -> bool, counter: int): LogEntry
  {
    var display := Display(lookup.domain);
    RequestRow(counter, lookup.status, lookup.recordType, source, display,
               if Marked(lookup.domain, modes) then Some(Display(QuestionParts(lookup.domain, modes, draws))) else None,
               if Contains(LowerText(display), "check_") then Checking else Normal)
  }

  /** `response`: false exactly when suppression is on and the un-lowered
      domain holds the mark. */
  predicate Send(parts: seq<string>, modes: Modes) {
    !(modes.forceNotResponse && Contains(Display(parts), ForceNotResponseMark))
  }

  /** DNSBody: `recordToBytes` over the records in stored order. */
  function AnswersBytes(recordType: string, records: seq<Record>): Option<seq<byte>>
  {
    if |records| == 0 then Some([])
    else
      var init := AnswersBytes(recordType, records[..|records| - 1]);
      var last := RecordBytes(recordType, records[|records| - 1].ttl, records[|records| - 1].value);
      if init.None? || last.None? then None else Some(init.value + last.value)
  }

  /** Header, question and body, or the first fault raised building them. */
  function Assemble(header: seq<byte>, question: Option<seq<byte>>, answers: Option<seq<byte>>, send: bool)
    : Result<Reply, Fault>
  {
    if question.None? then Failure(QuestionNotEncodable)
    else if answers.None? then Failure(AnswerNotEncodable)
    else Success(Reply(header + question.value + answers.value, send))
  }

  /** `getResponse(data, addr, ...)` with COUNTER at `counter` and the coin
      flips of the case permutation given. */
  function Respond(realZones: Zones, fakeZones: Zones, data: seq<byte>, source: Address, modes: Modes,
                   draws: nat -> bool, counter: int): Outcome
  {
    if |data| < 3 then Outcome(Failure(ShortDatagram), [], false)
    else Answered(data, LookupOf(realZones, fakeZones, data, modes), Traces(realZones, fakeZones, data, modes),
                  source, modes, draws, counter)
  }

  /** The rest of `getResponse` once the lookup is done and its traces are
      logged: the answer count must fit two bytes, then the call is counted. */
  function Answered(data: seq<byte>, lookup: Lookup, traces: seq<LogEntry>, source: Address, modes: Modes,
                    draws: nat -> bool, counter: int): Outcome
    requires |data| >= 3
  {
    if |lookup.records| >= 0x1_0000 then Outcome(Failure(AnswerCountOverflow), traces, false)
    else Outcome(Served(data, lookup, modes, draws), traces + [Row(lookup, source, modes, draws, counter + 1)], true)
  }

  /** The reply of a counted call: header, the question rebuilt from the
      (possibly permuted) parts, and the answers. */
  function Served(data: seq<byte>, lookup: Lookup, modes: Modes, draws: nat -> bool): Result<Reply, Fault>
    requires |data| >= 3 && |lookup.records| < 0x1_0000
  {
    Assemble(Header(data, modes, |lookup.records|),
             QuestionBytes(QuestionParts(lookup.domain, modes, draws), lookup.recordType),
             AnswersBytes(lookup.recordType, lookup.records),
             Send(lookup.domain, modes))
  }

  /** The server state `getResponse` reads and writes: the loaded zones,
      COUNTER and the log. */
  class Engine {
    const realZones: Zones
    const fakeZones: Zones
    var counter: int
    var log: seq<LogEntry>

    constructor(realZones: Zones, fakeZones: Zones)
      ensures this.realZones == realZones && this.fakeZones == fakeZones
      ensures counter == 0 && log == []
    {
      this.realZones := realZones;
      this.fakeZones := fakeZones;
      counter := 0;
      log := [];
    }

    /** The body loop: one `recordToBytes` per record. */
    static method BuildAnswers(recordType: string, records: seq<Record>) returns (r: Option<seq<byte>>)
      ensures r == AnswersBytes(recordType, records)
    {
      var body: seq<byte> := [];
      var i: int := 0;
      while i < |records|
        invariant 0 <= i <= |records|
        invariant AnswersBytes(recordType, records[..i]) == Some(body)
      {
        var record := RecordToBytes(recordType, records[i].ttl, records[i].value);
        assert records[..i + 1][..i] == records[..i];
        if record.None? {
          assert AnswersBytes(recordType, records[..i + 1]).None?;
          AnswersPrefixFails(recordType, records, i + 1);
          return None;
        }
        body := body + record.value;
        i := i + 1;
      }
      assert records[..i] == records;
      r := Some(body);
    }

    /** The header lines of `getResponse`: ID, getFlags, QDCOUNT, ANCOUNT
        (which raises for 65536 records or more), NSCOUNT and ARCOUNT. */
    static method BuildHeader(data: seq<byte>, modes: Modes, answers: nat) returns (r: Option<seq<byte>>)
      requires |data| >= 3
      ensures r.Some? <==> answers < 0x1_0000
      ensures r.Some? ==> r.value == Header(data, modes, answers)
    {
      var flags := GetFlags(Slice(data, 2, 4));
      FlagsAreConstant(Slice(data, 2, 4));
      var count := ToBytes(answers, 2);
      assert Pow256(2) == 0x1_0000 by { assert Pow256(1) == 256; }
      if count.None? {
        return None;
      }
      var tail := flags.value + [0x00, 0x01] + count.value + [0x00, 0x00] + [0x00, 0x00];
      if !modes.withoutRequestId {
        r := Some(data[..2] + tail);
      } else {
        r := Some(tail);
      }
    }

    /** The 0x20 branch of `getResponse`: the parts the question is built
        from, and the modified domain the request row carries. */
    static method CheckCase(domain: seq<string>, modes: Modes, draws: nat -> bool)
      returns (domainName: seq<string>, modified: Option<string>)
      ensures domainName == QuestionParts(domain, modes, draws)
      ensures modified == if Marked(domain, modes) then Some(Display(domainName)) else None
    {
      var display := Display(domain);
      domainName := domain;
      modified := None;
      if modes.caseSensitive && Contains(LowerText(display), "check_") {
        modified := Some(display);
        if !Contains(LowerText(display), "re_check_") {
          domainName := GetLetterCaseSwapped(domainName, draws);
          modified := Some(Display(domainName));
        }
      }
    }

    /** The question section and the lookup of `getResponse`. */
    method LookUp(data: seq<byte>, modes: Modes) returns (lookup: Lookup)
      ensures lookup == LookupOf(realZones, fakeZones, data, modes)
    {
      var domain, questionType := GetQuestionDomain(Slice(data, 12, |data|));
      var zone := GetZone(if modes.adversary then fakeZones else realZones, domain);
      lookup := GetRecs(zone, domain, questionType);
    }

    /** The logging branch of `getResponse`: the 0x20 permutation of a
        check request, and the request row numbered with the current
        COUNTER. */
    method LogRequest(lookup: Lookup, source: Address, modes: Modes, draws: nat -> bool)
      returns (domainName: seq<string>)
      modifies this
      ensures domainName == QuestionParts(lookup.domain, modes, draws)
      ensures log == old(log) + [Row(lookup, source, modes, draws, counter)]
      ensures counter == old(counter)
    {
      var display := Display(lookup.domain);
      var modified;
      domainName, modified := CheckCase(lookup.domain, modes, draws);
      var category := if Contains(LowerText(display), "check_") then Checking else Normal;
      log := log + [RequestRow(counter, lookup.status, lookup.recordType, source, display, modified, category)];
    }

    /** The question, send flag and body of `getResponse`, in source
        order: the question raises before the body is built. */
    static method Complete(header: seq<byte>, lookup: Lookup, domainName: seq<string>, modes: Modes)
      returns (r: Result<Reply, Fault>)
      ensures r == Assemble(header, QuestionBytes(domainName, lookup.recordType),
                            AnswersBytes(lookup.recordType, lookup.records), Send(lookup.domain, modes))
    {
      var question := BuildQuestion(domainName, lookup.recordType);
      if question.None? {
        return Failure(QuestionNotEncodable);
      }
      var send := true;
      if modes.forceNotResponse && Contains(Display(lookup.domain), ForceNotResponseMark) {
        send := false;
      }
      var body := BuildAnswers(lookup.recordType, lookup.records);
      if body.None? {
        return Failure(AnswerNotEncodable);
      }
      r := Success(Reply(header + question.value + body.value, send));
    }

    /** `getResponse`: COUNTER goes up by one once the answer count is
        known, and the log gets the traces and the request row. */
    method GetResponse(data: seq<byte>, source: Address, modes: Modes, draws: nat -> bool)
      returns (r: Result<Reply, Fault>)
      modifies this
      ensures var o := Respond(realZones, fakeZones, data, source, modes, draws, old(counter));
        r == o.result && log == old(log) + o.logs &&
        counter == old(counter) + (if o.counted then 1 else 0)
    {
      if |data| < 3 {
        return Failure(ShortDatagram);
      }
      var lookup := LookUp(data, modes);
      var traces := Traces(realZones, fakeZones, data, modes);
      r := Dispatch(data, lookup, traces, source, modes, draws);
    }

    /** `getResponse` after the lookup: log the traces, build the header,
        then count, log and answer. */
    method Dispatch(data: seq<byte>, lookup: Lookup, traces: seq<LogEntry>, source: Address, modes: Modes,
                    draws: nat -> bool)
      returns (r: Result<Reply, Fault>)
      requires |data| >= 3
      modifies this
      ensures var o := Answered(data, lookup, traces, source, modes, draws, old(counter));
        r == o.result && log == old(log) + o.logs &&
        counter == old(counter) + (if o.counted then 1 else 0)
    {
      log := log + traces;
      var header := BuildHeader(data, modes, |lookup.records|);
      if header.None? {
        return Failure(AnswerCountOverflow);
      }
      r := Serve(data, header.value, lookup, source, modes, draws);
      AppendTwice(old(log), traces, [Row(lookup, source, modes, draws, old(counter) + 1)]);
    }

    /** The counted part of `getResponse`: COUNTER, the request row, the
        question and the body. */
    method Serve(data: seq<byte>, header: seq<byte>, lookup: Lookup, source: Address, modes: Modes,
                 draws: nat -> bool)
      returns (r: Result<Reply, Fault>)
      requires |data| >= 3 && |lookup.records| < 0x1_0000 && header == Header(data, modes, |lookup.records|)
      modifies this
      ensures counter == old(counter) + 1
      ensures log == old(log) + [Row(lookup, source, modes, draws, old(counter) + 1)]
      ensures r == Served(data, lookup, modes, draws)
    {
      counter := counter + 1;
      var domainName := LogRequest(lookup, source, modes, draws);
      r := Complete(header, lookup, domainName, modes);
    }
  }

  lemma AppendTwice<T>(a: seq<T>, b: seq<T>, c: seq<T>)
    ensures a + b + c == a + (b + c)
  {
  }

  /** Once a prefix of the records fails to encode, so do all records. */
  lemma {:induction false} AnswersPrefixFails(recordType: string, records: seq<Record>, n: nat)
    requires n <= |records| && AnswersBytes(recordType, records[..n]).None?
    ensures AnswersBytes(recordType, records).None?
    decreases |records| - n
  {
    if n < |records| {
      assert records[..n + 1][..n] == records[..n];
      AnswersPrefixFails(recordType, records, n + 1);
    } else {
      assert records[..n] == records;
    }
  }

  // ---------------------------------------------------------------------
  // Properties

  /** The header (section 4.1.1 of RFC 1035, with this server's fixed
      fields): the echoed ID unless it is left out, the flags 84 00,
      QDCOUNT 1, ANCOUNT reading back as the answer count, then NSCOUNT and
      ARCOUNT zero. */
  lemma HeaderLayout(data: seq<byte>, modes: Modes, answers: nat)
    requires |data| >= 3 && answers < 0x1_0000
    ensures var h := Header(data, modes, answers);
      var k := if modes.withoutRequestId then 0 else 2;
      |h| == k + 10 && h[..k] == data[..k] && h[k..k + 2] == [0x84, 0x00] && h[k + 2..k + 4] == [0x00, 0x01] &&
      FromBytes(h[k + 4..k + 6]) == answers && h[k + 6..] == [0x00, 0x00, 0x00, 0x00]
  {
    assert Pow256(2) == 0x1_0000 by { assert Pow256(1) == 256; }
    var h := Header(data, modes, answers);
    var k := if modes.withoutRequestId then 0 else 2;
    assert h[k + 4..k + 6] == BigEndian(answers, 2);
  }

  /** The body of a record list is the body of its first records followed
      by the body of the rest: one record's failure fails the whole body. */
  lemma {:induction false} AnswersAppend(recordType: string, front: seq<Record>, back: seq<Record>)
    ensures AnswersBytes(recordType, front + back) ==
      var a := AnswersBytes(recordType, front);
      var b := AnswersBytes(recordType, back);
      if a.Some? && b.Some? then Some(a.value + b.value) else None
    decreases |back|
  {
    if |back| == 0 {
      assert front + back == front;
      var a := AnswersBytes(recordType, front);
      if a.Some? {
        assert a.value + [] == a.value;
      }
    } else {
      var init := back[..|back| - 1];
      var last := back[|back| - 1];
      AnswersAppend(recordType, front, init);
      assert (front + back)[..|front + back| - 1] == front + init;
      assert (front + back)[|front + back| - 1] == last;
      var a := AnswersBytes(recordType, front);
      var i := AnswersBytes(recordType, init);
      var l := RecordBytes(recordType, last.ttl, last.value);
      if a.Some? && i.Some? && l.Some? {
        assert a.value + i.value + l.value == a.value + (i.value + l.value);
      }
    }
  }

  /** The body is encodable exactly when every record is. */
  lemma {:induction false} AnswersEncodable(recordType: string, records: seq<Record>)
    ensures AnswersBytes(recordType, records).Some? <==>
      forall j :: 0 <= j < |records| ==> RecordBytes(recordType, records[j].ttl, records[j].value).Some?
  {
    if |records| > 0 {
      var init := records[..|records| - 1];
      AnswersEncodable(recordType, init);
      assert forall j :: 0 <= j < |init| ==> init[j] == records[j];
    }
  }

  /** The records answered come from the fake zones in adversary mode and
      from the real ones otherwise, under the zone key of the question and
      the name of its type. */
  lemma LookupSource(realZones: Zones, fakeZones: Zones, data: seq<byte>, modes: Modes)
    ensures var zones := if modes.adversary then fakeZones else realZones;
      var key := ZoneKey(QueryOf(data).0);
      var name := TypeName(QueryOf(data).1);
      var lookup := LookupOf(realZones, fakeZones, data, modes);
      (lookup.status == Okay <==> key in zones && name in zones[key]) &&
      (lookup.status == Okay ==> lookup.records == zones[key][name]) &&
      (lookup.status == Error ==> lookup.records == [])
  {
  }

  /** The response depends on the real zones only outside adversary mode,
      and on the fake zones only inside it. */
  lemma ZoneIsolation(real1: Zones, fake1: Zones, real2: Zones, fake2: Zones, data: seq<byte>, source: Address,
                      modes: Modes, draws: nat -> bool, counter: int)
    requires if modes.adversary then fake1 == fake2 else real1 == real2
    ensures Respond(real1, fake1, data, source, modes, draws, counter) ==
            Respond(real2, fake2, data, source, modes, draws, counter)
  {
    assert ZoneOf(real1, fake1, data, modes) == ZoneOf(real2, fake2, data, modes);
    var lookup := LookupOf(real1, fake1, data, modes);
    var traces := Traces(real1, fake1, data, modes);
    RespondVia(real1, fake1, data, source, modes, draws, counter, lookup, traces);
    RespondVia(real2, fake2, data, source, modes, draws, counter, lookup, traces);
  }

  /** Modes that agree on adversary mode look up and log alike. */
  lemma SameLookup(realZones: Zones, fakeZones: Zones, data: seq<byte>, modes: Modes, modes': Modes)
    requires modes.adversary == modes'.adversary
    ensures LookupOf(realZones, fakeZones, data, modes') == LookupOf(realZones, fakeZones, data, modes)
    ensures Traces(realZones, fakeZones, data, modes') == Traces(realZones, fakeZones, data, modes)
  {
    assert ZoneOf(realZones, fakeZones, data, modes') == ZoneOf(realZones, fakeZones, data, modes);
  }

  /** `Respond` in terms of a lookup and traces already known. */
  lemma RespondVia(realZones: Zones, fakeZones: Zones, data: seq<byte>, source: Address, modes: Modes,
                   draws: nat -> bool, counter: int, lookup: Lookup, traces: seq<LogEntry>)
    requires lookup == LookupOf(realZones, fakeZones, data, modes)
    requires traces == Traces(realZones, fakeZones, data, modes)
    ensures Respond(realZones, fakeZones, data, source, modes, draws, counter) ==
      if |data| < 3 then Outcome(Failure(ShortDatagram), [], false)
      else Answered(data, lookup, traces, source, modes, draws, counter)
  {
  }

  /** A header followed by a question and a body: the header fields, then
      the rest. */
  predicate LaidOut(m: seq<byte>, data: seq<byte>, modes: Modes, answers: nat, rest: seq<byte>)
    requires |data| >= 3
  {
    var k := if modes.withoutRequestId then 0 else 2;
    |m| >= k + 10 && m[..k] == data[..k] && m[k..k + 2] == [0x84, 0x00] && m[k + 2..k + 4] == [0x00, 0x01] &&
    FromBytes(m[k + 4..k + 6]) == answers && m[k + 6..k + 10] == [0x00, 0x00, 0x00, 0x00] && m[k + 10..] == rest
  }

  lemma HeaderThen(data: seq<byte>, modes: Modes, answers: nat, rest: seq<byte>)
    requires |data| >= 3 && answers < 0x1_0000
    ensures LaidOut(Header(data, modes, answers) + rest, data, modes, answers, rest)
  {
    HeaderLayout(data, modes, answers);
    var h := Header(data, modes, answers);
    var k := if modes.withoutRequestId then 0 else 2;
    assert (h + rest)[..k + 10] == h;
  }

  /** The layout of a counted reply: the header, whose ANCOUNT is the
      number of records found, then the question built from the (possibly
      permuted) parts, then the answers of the lookup. */
  lemma ServedLayout(data: seq<byte>, lookup: Lookup, modes: Modes, draws: nat -> bool)
    requires |data| >= 3 && |lookup.records| < 0x1_0000
    ensures var r := Served(data, lookup, modes, draws);
      r.Success? ==>
        LaidOut(r.value.message, data, modes, |lookup.records|,
                QuestionBytes(QuestionParts(lookup.domain, modes, draws), lookup.recordType).value +
                AnswersBytes(lookup.recordType, lookup.records).value)
  {
    var r := Served(data, lookup, modes, draws);
    if r.Success? {
      var q := QuestionBytes(QuestionParts(lookup.domain, modes, draws), lookup.recordType).value;
      var a := AnswersBytes(lookup.recordType, lookup.records).value;
      var h := Header(data, modes, |lookup.records|);
      assert r.value.message == h + (q + a);
      HeaderThen(data, modes, |lookup.records|, q + a);
    }
  }

  /** `getResponse`'s reply: the header, whose ANCOUNT is the number of
      records the lookup found, then the question built from the (possibly
      permuted) parts, then the answers of that lookup. */
  lemma ResponseLayout(realZones: Zones, fakeZones: Zones, data: seq<byte>, source: Address, modes: Modes,
                       draws: nat -> bool, counter: int)
    ensures var o := Respond(realZones, fakeZones, data, source, modes, draws, counter);
      var lookup := LookupOf(realZones, fakeZones, data, modes);
      o.result.Success? ==>
        |data| >= 3 && |lookup.records| < 0x1_0000 &&
        LaidOut(o.result.value.message, data, modes, |lookup.records|,
                QuestionBytes(QuestionParts(lookup.domain, modes, draws), lookup.recordType).value +
                AnswersBytes(lookup.recordType, lookup.records).value)
  {
    var lookup := LookupOf(realZones, fakeZones, data, modes);
    RespondVia(realZones, fakeZones, data, source, modes, draws, counter, lookup,
               Traces(realZones, fakeZones, data, modes));
    if |data| >= 3 && |lookup.records| < 0x1_0000 {
      ServedLayout(data, lookup, modes, draws);
    }
  }

  /** Dropping the first two header bytes drops the first two bytes of the
      reply, whatever the question and the body. */
  lemma AssembleShorterHeader(header: seq<byte>, question: Option<seq<byte>>, answers: Option<seq<byte>>,
                              send: bool)
    requires |header| >= 2
    ensures var r := Assemble(header, question, answers, send);
      var r' := Assemble(header[2..], question, answers, send);
      r'.Success? == r.Success? && (r.Failure? ==> r' == r) &&
      (r.Success? ==> |r.value.message| >= 2 && r'.value.message == r.value.message[2..] &&
                      r'.value.send == r.value.send)
  {
    if question.Some? && answers.Some? {
      assert (header + question.value + answers.value)[2..] == header[2..] + question.value + answers.value;
    }
  }

  /** Mode sets that agree on adversary mode and case sensitivity log and
      count a call alike; a counted call's reply is the served one. */
  lemma AnsweredAlike(data: seq<byte>, lookup: Lookup, traces: seq<LogEntry>, source: Address, m1: Modes,
                      m2: Modes, draws: nat -> bool, counter: int)
    requires |data| >= 3 && m1.caseSensitive == m2.caseSensitive
    ensures var a1 := Answered(data, lookup, traces, source, m1, draws, counter);
      var a2 := Answered(data, lookup, traces, source, m2, draws, counter);
      a1.logs == a2.logs && a1.counted == a2.counted &&
      (|lookup.records| >= 0x1_0000 ==> a1.result == a2.result) &&
      (|lookup.records| < 0x1_0000 ==>
        a1.result == Served(data, lookup, m1, draws) && a2.result == Served(data, lookup, m2, draws))
  {
    assert Row(lookup, source, m1, draws, counter + 1) == Row(lookup, source, m2, draws, counter + 1);
  }

  /** Served without the ID: the same reply minus its first two bytes. */
  lemma ServedWithoutId(data: seq<byte>, lookup: Lookup, modes: Modes, draws: nat -> bool)
    requires |data| >= 3 && |lookup.records| < 0x1_0000 && !modes.withoutRequestId
    ensures var r := Served(data, lookup, modes, draws);
      var r' := Served(data, lookup, modes.(withoutRequestId := true), draws);
      r'.Success? == r.Success? && (r.Failure? ==> r' == r) &&
      (r.Success? ==> |r.value.message| >= 2 && r'.value.message == r.value.message[2..] &&
                      r'.value.send == r.value.send)
  {
    var modes' := modes.(withoutRequestId := true);
    var n := |lookup.records|;
    assert Header(data, modes', n) == Header(data, modes, n)[2..];
    assert QuestionParts(lookup.domain, modes', draws) == QuestionParts(lookup.domain, modes, draws);
    AssembleShorterHeader(Header(data, modes, n),
                          QuestionBytes(QuestionParts(lookup.domain, modes, draws), lookup.recordType),
                          AnswersBytes(lookup.recordType, lookup.records), Send(lookup.domain, modes));
  }

  /** Leaving out the request ID drops exactly the first two bytes of the
      reply and changes nothing else. */
  lemma WithoutIdDropsTwoBytes(realZones: Zones, fakeZones: Zones, data: seq<byte>, source: Address, modes: Modes,
                               draws: nat -> bool, counter: int)
    requires !modes.withoutRequestId
    ensures var o := Respond(realZones, fakeZones, data, source, modes, draws, counter);
      var o' := Respond(realZones, fakeZones, data, source, modes.(withoutRequestId := true), draws, counter);
      o'.logs == o.logs && o'.counted == o.counted && o'.result.Success? == o.result.Success? &&
      (o.result.Failure? ==> o'.result == o.result) &&
      (o.result.Success? ==>
        |o.result.value.message| >= 2 && o'.result.value.message == o.result.value.message[2..] &&
        o'.result.value.send == o.result.value.send)
  {
    var modes' := modes.(withoutRequestId := true);
    var lookup := LookupOf(realZones, fakeZones, data, modes);
    var traces := Traces(realZones, fakeZones, data, modes);
    SameLookup(realZones, fakeZones, data, modes, modes');
    RespondVia(realZones, fakeZones, data, source, modes, draws, counter, lookup, traces);
    RespondVia(realZones, fakeZones, data, source, modes', draws, counter, lookup, traces);
    if |data| >= 3 {
      AnsweredAlike(data, lookup, traces, source, modes, modes', draws, counter);
      if |lookup.records| < 0x1_0000 {
        ServedWithoutId(data, lookup, modes, draws);
      }
    }
  }

  /** Served with suppression on: the same bytes, withheld exactly when the
      un-lowered domain holds the mark. */
  lemma ServedSuppression(data: seq<byte>, lookup: Lookup, modes: Modes, draws: nat -> bool)
    requires |data| >= 3 && |lookup.records| < 0x1_0000
    ensures var r := Served(data, lookup, modes.(forceNotResponse := false), draws);
      var r' := Served(data, lookup, modes.(forceNotResponse := true), draws);
      r'.Success? == r.Success? && (r.Failure? ==> r' == r) &&
      (r.Success? ==>
        r.value.send && r'.value.message == r.value.message &&
        (r'.value.send <==> !Contains(Display(lookup.domain), ForceNotResponseMark)))
  {
    var off := modes.(forceNotResponse := false);
    var on := modes.(forceNotResponse := true);
    var n := |lookup.records|;
    var q := QuestionBytes(QuestionParts(lookup.domain, modes, draws), lookup.recordType);
    var a := AnswersBytes(lookup.recordType, lookup.records);
    assert Header(data, on, n) == Header(data, off, n);
    assert QuestionParts(lookup.domain, on, draws) == QuestionParts(lookup.domain, modes, draws);
    assert QuestionParts(lookup.domain, off, draws) == QuestionParts(lookup.domain, modes, draws);
    assert Served(data, lookup, off, draws) == Assemble(Header(data, off, n), q, a, true);
    assert Served(data, lookup, on, draws) == Assemble(Header(data, off, n), q, a, Send(lookup.domain, on));
  }

  /** Suppression decides the send flag and nothing else: the bytes and the
      log are built either way, and the reply is withheld exactly when the
      un-lowered domain holds the mark. */
  lemma SuppressionOnlyFlag(realZones: Zones, fakeZones: Zones, data: seq<byte>, source: Address, modes: Modes,
                            draws: nat -> bool, counter: int)
    ensures var o := Respond(realZones, fakeZones, data, source, modes.(forceNotResponse := false), draws, counter);
      var o' := Respond(realZones, fakeZones, data, source, modes.(forceNotResponse := true), draws, counter);
      o'.logs == o.logs && o'.counted == o.counted && o'.result.Success? == o.result.Success? &&
      (o.result.Failure? ==> o'.result == o.result) &&
      (o.result.Success? ==>
        o.result.value.send && o'.result.value.message == o.result.value.message &&
        (o'.result.value.send <==> !Contains(Display(QueryOf(data).0), ForceNotResponseMark)))
  {
    var off := modes.(forceNotResponse := false);
    var on := modes.(forceNotResponse := true);
    var lookup := LookupOf(realZones, fakeZones, data, off);
    var traces := Traces(realZones, fakeZones, data, off);
    SameLookup(realZones, fakeZones, data, off, on);
    RespondVia(realZones, fakeZones, data, source, off, draws, counter, lookup, traces);
    RespondVia(realZones, fakeZones, data, source, on, draws, counter, lookup, traces);
    if |data| >= 3 {
      AnsweredAlike(data, lookup, traces, source, off, on, draws, counter);
      if |lookup.records| < 0x1_0000 {
        ServedSuppression(data, lookup, modes, draws);
      }
    }
  }

  /** The header is 12 bytes, 10 without the ID. */
  function HeaderLength(modes: Modes): nat {
    if modes.withoutRequestId then 10 else 12
  }

  /** The length of the body, 0 when it cannot be built. */
  function AnswersLength(recordType: string, records: seq<Record>): nat {
    var a := AnswersBytes(recordType, records);
    if a.Some? then |a.value| else 0
  }

  /** Two replies that share their first `headerLength` and their last
      `answersLength` bytes: they differ in the question section at most. */
  predicate OnlyQuestionDiffers(m: seq<byte>, m': seq<byte>, headerLength: nat, answersLength: nat) {
    |m| >= headerLength + answersLength && |m'| >= headerLength + answersLength &&
    m[..headerLength] == m'[..headerLength] && m[|m| - answersLength..] == m'[|m'| - answersLength..]
  }

  /** Served with case sensitivity on and off: the same header, answers and
      send flag, and the same reply outright when there is no permutation. */
  lemma ServedCaseCheck(data: seq<byte>, lookup: Lookup, modes: Modes, draws: nat -> bool)
    requires |data| >= 3 && |lookup.records| < 0x1_0000 && modes.caseSensitive
    ensures var r := Served(data, lookup, modes, draws);
      var r' := Served(data, lookup, modes.(caseSensitive := false), draws);
      (!Permuted(lookup.domain, modes) ==> r == r') &&
      (r.Success? && r'.Success? ==>
        r.value.send == r'.value.send &&
        OnlyQuestionDiffers(r.value.message, r'.value.message, HeaderLength(modes),
                            AnswersLength(lookup.recordType, lookup.records)))
  {
    var plain := modes.(caseSensitive := false);
    var n := |lookup.records|;
    var h := Header(data, modes, n);
    assert Header(data, plain, n) == h;
    HeaderLayout(data, modes, n);
    assert QuestionParts(lookup.domain, plain, draws) == lookup.domain;
    var r := Served(data, lookup, modes, draws);
    var r' := Served(data, lookup, plain, draws);
    if r.Success? && r'.Success? {
      var q := QuestionBytes(QuestionParts(lookup.domain, modes, draws), lookup.recordType).value;
      var q' := QuestionBytes(lookup.domain, lookup.recordType).value;
      var a := AnswersBytes(lookup.recordType, lookup.records).value;
      assert r.value.message == h + q + a;
      assert r'.value.message == h + q' + a;
      FrameOf(h, q, q', a);
    }
  }

  lemma FrameOf(h: seq<byte>, q: seq<byte>, q': seq<byte>, a: seq<byte>)
    ensures OnlyQuestionDiffers(h + q + a, h + q' + a, |h|, |a|)
  {
    assert (h + q + a)[..|h|] == h;
    assert (h + q' + a)[..|h|] == h;
    assert (h + q + a)[|h + q + a| - |a|..] == a;
    assert (h + q' + a)[|h + q' + a| - |a|..] == a;
  }

  /** The logging and counting of a call with case sensitivity on and off:
      counted alike, and the request rows differ only in the modified
      domain, which the plain call leaves empty. */
  lemma AnsweredCaseCheck(data: seq<byte>, lookup: Lookup, traces: seq<LogEntry>, source: Address, modes: Modes,
                          draws: nat -> bool, counter: int)
    requires |data| >= 3 && modes.caseSensitive
    ensures var a := Answered(data, lookup, traces, source, modes, draws, counter);
      var a' := Answered(data, lookup, traces, source, modes.(caseSensitive := false), draws, counter);
      a.counted == a'.counted && (!a.counted ==> a == a') &&
      (a.counted ==>
        |a.logs| >= 1 && a.logs[|a.logs| - 1].RequestRow? &&
        a'.logs == a.logs[..|a.logs| - 1] + [a.logs[|a.logs| - 1].(modifiedDomain := None)] &&
        a.result == Served(data, lookup, modes, draws) &&
        a'.result == Served(data, lookup, modes.(caseSensitive := false), draws))
  {
    var plain := modes.(caseSensitive := false);
    var row := Row(lookup, source, modes, draws, counter + 1);
    assert Row(lookup, source, plain, draws, counter + 1) == row.(modifiedDomain := None);
    assert (traces + [row])[..|traces + [row]| - 1] == traces;
  }

  /** A 0x20 check changes only the question section: with case
      sensitivity on and off the call is counted alike, the request rows
      differ only in the modified domain, and the replies share the header,
      the answers of the original lookup and the send flag; without a
      permutation they are identical. */
  lemma CaseCheckOnlyQuestion(realZones: Zones, fakeZones: Zones, data: seq<byte>, source: Address, modes: Modes,
                              draws: nat -> bool, counter: int)
    requires modes.caseSensitive
    ensures var plain := modes.(caseSensitive := false);
      var o := Respond(realZones, fakeZones, data, source, modes, draws, counter);
      var o' := Respond(realZones, fakeZones, data, source, plain, draws, counter);
      var lookup := LookupOf(realZones, fakeZones, data, modes);
      o.counted == o'.counted && (!o.counted ==> o == o') &&
      (o.counted ==>
        |o.logs| >= 1 && o.logs[|o.logs| - 1].RequestRow? &&
        o'.logs == o.logs[..|o.logs| - 1] + [o.logs[|o.logs| - 1].(modifiedDomain := None)]) &&
      (!Permuted(lookup.domain, modes) ==> o.result == o'.result) &&
      (o.result.Success? && o'.result.Success? ==>
        o.result.value.send == o'.result.value.send &&
        OnlyQuestionDiffers(o.result.value.message, o'.result.value.message, HeaderLength(modes),
                            AnswersLength(lookup.recordType, lookup.records)))
  {
    var plain := modes.(caseSensitive := false);
    var lookup := LookupOf(realZones, fakeZones, data, modes);
    var traces := Traces(realZones, fakeZones, data, modes);
    SameLookup(realZones, fakeZones, data, modes, plain);
    RespondVia(realZones, fakeZones, data, source, modes, draws, counter, lookup, traces);
    RespondVia(realZones, fakeZones, data, source, plain, draws, counter, lookup, traces);
    if |data| >= 3 {
      AnsweredCaseCheck(data, lookup, traces, source, modes, draws, counter);
      if |lookup.records| < 0x1_0000 {
        ServedCaseCheck(data, lookup, modes, draws);
      }
    }
  }

  /** COUNTER goes up exactly for a datagram of 3 bytes or more whose
      answer count fits two bytes, even when the question or the body then
      raises; the request row carries the incremented value and follows the
      error traces. An uncounted call writes error traces only, and a
      datagram under 3 bytes writes nothing. */
  lemma CounterOnce(realZones: Zones, fakeZones: Zones, data: seq<byte>, source: Address, modes: Modes,
                    draws: nat -> bool, counter: int)
    ensures var o := Respond(realZones, fakeZones, data, source, modes, draws, counter);
      var lookup := LookupOf(realZones, fakeZones, data, modes);
      (o.counted <==> |data| >= 3 && |lookup.records| < 0x1_0000) &&
      (o.counted ==>
        |o.logs| >= 1 && o.logs[|o.logs| - 1].RequestRow? && o.logs[|o.logs| - 1].counter == counter + 1 &&
        o.logs[..|o.logs| - 1] == Traces(realZones, fakeZones, data, modes)) &&
      (!o.counted ==> forall j :: 0 <= j < |o.logs| ==> o.logs[j].ErrorTrace?) &&
      (|data| < 3 ==> o.result == Failure(ShortDatagram) && o.logs == [])
  {
    var lookup := LookupOf(realZones, fakeZones, data, modes);
    var traces := Traces(realZones, fakeZones, data, modes);
    RespondVia(realZones, fakeZones, data, source, modes, draws, counter, lookup, traces);
    if |data| >= 3 {
      TracesAreErrors(realZones, fakeZones, data, modes);
      if |lookup.records| < 0x1_0000 {
        var row := Row(lookup, source, modes, draws, counter + 1);
        assert (traces + [row])[..|traces + [row]| - 1] == traces;
      }
    }
  }

  /** `getZone` and `getRecs` write error traces only. */
  lemma TracesAreErrors(realZones: Zones, fakeZones: Zones, data: seq<byte>, modes: Modes)
    ensures var traces := Traces(realZones, fakeZones, data, modes);
      |traces| <= 2 && forall j :: 0 <= j < |traces| ==> traces[j].ErrorTrace?
  {
  }
}
