/** The record-type table RECORD_TYPES: seven type names and their two-byte
    big-endian codes (section 3.2.2 and section 3.2.3 of RFC 1035,
    section 2.1 of RFC 3596 for AAAA). */
module RecordTypes {
  import opened Common

  /** The names `getRecs` can produce for a known code. */
  const Names: seq<string> := ["A", "CNAME", "MX", "NS", "TXT", "AAAA", "ANY"]

  /** The wire code of a named type. */
  function TypeCode(name: string): (r: seq<byte>)
    requires name in Names
    ensures |r| == 2 && r[0] == 0
  {
    if name == "A" then [0x00, 0x01]
    else if name == "CNAME" then [0x00, 0x05]
    else if name == "MX" then [0x00, 0x0f]
    else if name == "NS" then [0x00, 0x02]
    else if name == "TXT" then [0x00, 0x10]
    else if name == "AAAA" then [0x00, 0x1c]
    else [0x00, 0xff]
  }

  /** The if-chain at the head of `getRecs`: the name of a question-type
      code, or "" when the code is none of the seven (including a code
      shorter than two bytes read from a truncated question). */
  function TypeName(code: seq<byte>): (r: string)
    ensures r == "" || (r in Names && TypeCode(r) == code)
    ensures forall n :: n in Names && TypeCode(n) == code ==> r == n
  {
    if code == [0x00, 0x01] then "A"
    else if code == [0x00, 0x1c] then "AAAA"
    else if code == [0x00, 0x05] then "CNAME"
    else if code == [0x00, 0x0f] then "MX"
    else if code == [0x00, 0x02] then "NS"
    else if code == [0x00, 0x10] then "TXT"
    else if code == [0x00, 0xff] then "ANY"
    else ""
  }

  /** A record type carrying an address: the only ones given a TYPE field in
      the question and RDATA in an answer. */
  predicate IsAddressType(name: string) {
    name == "A" || name == "AAAA"
  }
}
