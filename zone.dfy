/** Zone lookup: `getZone` / `getFakeZone` pick the loaded zone whose
    `$origin` is the lowered join of the last three question parts, and
    `getRecs` picks the record list for the question type inside it. */
module ZoneStore {
  import opened Common
  import opened RecordTypes

  /** One resource record of a zone file: its TTL and its value text. */
  datatype Record = Record(ttl: int, value: string)

  /** A loaded zone: record lists by type name. */
  type Zone = map<string, seq<Record>>

  /** The loaded zones by origin (ZONEDATA or FAKEZONEDATA). */
  type Zones = map<string, Zone>

  datatype Status = Okay | Error

  /** What `getRecs` returns, plus whether it wrote an error trace to the log:
      the records ('' on a miss, so none), the type name, the question parts
      and the status. */
  datatype Lookup = Lookup(records: seq<Record>, recordType: string, domain: seq<string>,
                           status: Status, logged: bool)

  /** `'.'.join(domain[-3:]).lower()`. */
  function ZoneKey(domain: seq<string>): string
  {
    LowerText(JoinDot(LastThree(domain)))
  }

  /** `getZone(domain)` on the given zones: the zone, or None where the
      source logs the KeyError and returns ''. */
  function GetZone(zones: Zones, domain: seq<string>): (r: Option<Zone>)
    ensures r.Some? <==> ZoneKey(domain) in zones
    ensures r.Some? ==> r.value == zones[ZoneKey(domain)]
  {
    var key := ZoneKey(domain);
    if key in zones then Some(zones[key]) else None
  }

  /** `getRecs(zone, domain, questionType)`. A hit returns the stored list
      with status OKAY. A miss returns no records with status ERROR and logs
      the exception, except for the KeyError('AAAA') raised by a zone that
      has no 'AAAA' list; indexing the '' of a missing zone raises a
      TypeError, which is always logged. */
  function GetRecs(zone: Option<Zone>, domain: seq<string>, questionType: seq<byte>): (r: Lookup)
    ensures r.domain == domain && r.recordType == TypeName(questionType)
    ensures r.status == Okay <==> zone.Some? && r.recordType in zone.value
    ensures r.status == Okay ==> r.records == zone.value[r.recordType]
    ensures r.status == Error ==> r.records == []
    ensures r.logged <==> r.status == Error && !(zone.Some? && r.recordType == "AAAA")
  {
    var qt := TypeName(questionType);
    if zone.Some? && qt in zone.value then Lookup(zone.value[qt], qt, domain, Okay, false)
    else Lookup([], qt, domain, Error, !(zone.Some? && qt == "AAAA"))
  }

  // ---------------------------------------------------------------------
  // Properties

  function LowerAll(parts: seq<string>): (r: seq<string>)
    ensures |r| == |parts| && forall j :: 0 <= j < |parts| ==> r[j] == LowerText(parts[j])
  {
    seq(|parts|, j requires 0 <= j < |parts| => LowerText(parts[j]))
  }

  /** Lowering a joined name lowers each part; the dots are untouched. */
  lemma {:induction false} LowerJoin(parts: seq<string>)
    ensures LowerText(JoinDot(parts)) == JoinDot(LowerAll(parts))
  {
    if |parts| > 1 {
      LowerJoin(parts[1..]);
      assert LowerAll(parts)[1..] == LowerAll(parts[1..]);
      var head, rest := parts[0], JoinDot(parts[1..]);
      assert LowerText(head + "." + rest) == LowerText(head) + "." + LowerText(rest);
    }
  }

  /** The zone key depends only on the last three parts, and only on their
      lowered form: a name differing in the leading labels or in the case
      of its letters reaches the same zone. */
  lemma ZoneKeyOfLastThree(p: seq<string>, q: seq<string>)
    requires LowerAll(LastThree(p)) == LowerAll(LastThree(q))
    ensures ZoneKey(p) == ZoneKey(q)
  {
    LowerJoin(LastThree(p));
    LowerJoin(LastThree(q));
  }

  /** The key of `www.EXAMPLE.com.` is 'example.com.'. */
  lemma ZoneKeyExample()
    ensures ZoneKey(["www", "EXAMPLE", "com", ""]) == "example.com."
  {
    var parts := ["www", "EXAMPLE", "com", ""];
    var last := ["EXAMPLE", "com", ""];
    assert LastThree(parts) == last;
    assert JoinDot(last[2..]) == "";
    assert JoinDot(last[1..]) == "com" + "." + "" by {
      assert last[1..][1..] == last[2..];
    }
    assert JoinDot(last) == "EXAMPLE.com.";
    assert LowerText("EXAMPLE.com.") == "example.com.";
  }

  /** Looking up a named type finds its list exactly when the zone holds
      one: the code-to-name chain of `getRecs` inverts the type table. */
  lemma LookupByName(zone: Zone, domain: seq<string>, name: string)
    requires name in Names
    ensures var r := GetRecs(Some(zone), domain, TypeCode(name));
      r.recordType == name && (r.status == Okay <==> name in zone) &&
      (name in zone ==> r.records == zone[name]) &&
      (name !in zone ==> r.records == [] && (r.logged <==> name != "AAAA"))
  {
  }

  /** An unknown type code is looked up under '' and so misses (unless the
      zone has a '' entry), and the miss is logged. */
  lemma UnknownCodeMisses(zone: Option<Zone>, domain: seq<string>, code: seq<byte>)
    requires forall n :: n in Names ==> TypeCode(n) != code
    ensures GetRecs(zone, domain, code).recordType == ""
    ensures zone.None? || "" !in zone.value ==>
      GetRecs(zone, domain, code).status == Error && GetRecs(zone, domain, code).logged
  {
  }
}
