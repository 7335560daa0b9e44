/** The answer encoder `recordToBytes`: every resource record starts with
    the compression pointer C0 0C to the question name (section 4.1.4 of
    RFC 1035), then TYPE, CLASS, TTL and, for address types only, RDLENGTH
    4 and one byte per dotted part of the value. */
module Answer {
  import opened Common
  import opened RecordTypes

  /** `bytes([int(part)])` for each dotted part in order; None where int()
      or bytes() raises (a part that is not a decimal number, or one above
      255). */
  function AddressBytes(parts: seq<string>): (r: Option<seq<byte>>)
    ensures r.Some? <==> forall j :: 0 <= j < |parts| ==>
      ParseInt(parts[j], 10).Some? && ParseInt(parts[j], 10).value < 256
    ensures r.Some? ==>
      |r.value| == |parts| && forall j :: 0 <= j < |parts| ==> r.value[j] == ParseInt(parts[j], 10).value
  {
    if parts == [] then Some([])
    else
      var init := AddressBytes(parts[..|parts| - 1]);
      var n := ParseInt(parts[|parts| - 1], 10);
      if init.None? || n.None? || n.value >= 256 then None
      else
        assert parts[..|parts| - 1] + [parts[|parts| - 1]] == parts;
        Some(init.value + [n.value])
  }

  /** One more dotted part converted. */
  lemma AddressSnoc(parts: seq<string>, i: nat)
    requires i < |parts|
    ensures var init, n := AddressBytes(parts[..i]), ParseInt(parts[i], 10);
      AddressBytes(parts[..i + 1]) ==
        if init.None? || n.None? || n.value >= 256 then None else Some(init.value + [n.value])
  {
    assert parts[..i + 1][..i] == parts[..i];
  }

  /** The fixed part of a record: the pointer, TYPE 00 01 for 'A' and
      'AAAA' (none otherwise), CLASS 00 01. */
  function RecordHead(recordType: string): seq<byte>
  {
    [0xC0, 0x0C] + (if IsAddressType(recordType) then [0x00, 0x01] else []) + [0x00, 0x01]
  }

  /** `recordToBytes(_, recordType, ttl, value)`, or None where it raises
      (a TTL outside 0 .. 2^32 - 1, or a bad address part). */
  function RecordBytes(recordType: string, ttl: int, value: string): Option<seq<byte>>
  {
    var t := ToBytes(ttl, 4);
    if t.None? then None
    else if !IsAddressType(recordType) then Some(RecordHead(recordType) + t.value)
    else
      var a := AddressBytes(SplitDots(value));
      if a.None? then None else Some(RecordHead(recordType) + t.value + [0x00, 0x04] + a.value)
  }

  /** The byte accumulation of `recordToBytes`, one dotted part at a time. */
  method RecordToBytes(recordType: string, ttl: int, value: string) returns (r: Option<seq<byte>>)
    ensures r == RecordBytes(recordType, ttl, value)
  {
    var recordBytes: seq<byte> := [0xC0, 0x0C];
    if recordType == "A" {
      recordBytes := recordBytes + [0x00] + [0x01];
    } else if recordType == "AAAA" {
      recordBytes := recordBytes + [0x00] + [0x01];
    }
    recordBytes := recordBytes + [0x00] + [0x01];
    assert recordBytes == RecordHead(recordType);
    var t := ToBytes(ttl, 4);
    if t.None? {
      return None;
    }
    recordBytes := recordBytes + t.value;
    if recordType == "A" || recordType == "AAAA" {
      recordBytes := recordBytes + [0x00] + [0x04];
      var head := recordBytes;
      assert head == RecordHead(recordType) + t.value + [0x00, 0x04];
      var parts := SplitDots(value);
      var i: int := 0;
      while i < |parts|
        invariant 0 <= i <= |parts|
        invariant AddressBytes(parts[..i]).Some?
        invariant recordBytes == head + AddressBytes(parts[..i]).value
      {
        var n := ParseInt(parts[i], 10);
        AddressSnoc(parts, i);
        if n.None? || n.value >= 256 {
          assert AddressBytes(parts).None? by {
            assert !(ParseInt(parts[i], 10).Some? && ParseInt(parts[i], 10).value < 256);
          }
          return None;
        }
        recordBytes := recordBytes + [n.value];
        i := i + 1;
      }
      assert parts[..i] == parts;
    }
    r := Some(recordBytes);
  }

  // ---------------------------------------------------------------------
  // Properties

  /** The layout of an encoded record, field by field, and exactly when the
      encoder raises. */
  lemma RecordLayout(recordType: string, ttl: int, value: string)
    ensures var r := RecordBytes(recordType, ttl, value);
      r.Some? <==>
        0 <= ttl < 0x1_0000_0000 && (IsAddressType(recordType) ==> AddressBytes(SplitDots(value)).Some?)
    ensures var r := RecordBytes(recordType, ttl, value);
      r.Some? && IsAddressType(recordType) ==>
        var v := r.value;
        |v| == 12 + |SplitDots(value)| &&
        v[..2] == [0xC0, 0x0C] && v[2..4] == [0x00, 0x01] && v[4..6] == [0x00, 0x01] &&
        FromBytes(v[6..10]) == ttl && v[10..12] == [0x00, 0x04] &&
        v[12..] == AddressBytes(SplitDots(value)).value
    ensures var r := RecordBytes(recordType, ttl, value);
      r.Some? && !IsAddressType(recordType) ==>
        var v := r.value;
        |v| == 8 && v[..2] == [0xC0, 0x0C] && v[2..4] == [0x00, 0x01] && FromBytes(v[4..8]) == ttl
  {
    FieldBounds();
    var r := RecordBytes(recordType, ttl, value);
    if r.Some? {
      var t := ToBytes(ttl, 4).value;
      if IsAddressType(recordType) {
        assert r.value[6..10] == t;
      } else {
        assert r.value[4..8] == t;
      }
    }
  }

  /** Every record the encoder produces begins with the pointer C0 0C. */
  lemma RecordStartsWithPointer(recordType: string, ttl: int, value: string)
    ensures RecordBytes(recordType, ttl, value).Some? ==>
      RecordBytes(recordType, ttl, value).value[..2] == [0xC0, 0x0C]
  {
    RecordLayout(recordType, ttl, value);
  }

  /** An address record whose value is `'.'.join(parts)` carries the
      bytes of exactly those parts, in order. */
  lemma JoinedAddressRecord(recordType: string, ttl: int, parts: seq<string>)
    requires IsAddressType(recordType) && 0 <= ttl < Pow256(4)
    requires |parts| >= 1 && forall j :: 0 <= j < |parts| ==> '.' !in parts[j]
    requires AddressBytes(parts).Some?
    ensures RecordBytes(recordType, ttl, JoinDot(parts)) ==
      Some([0xC0, 0x0C, 0x00, 0x01, 0x00, 0x01] + BigEndian(ttl, 4) + [0x00, 0x04] + AddressBytes(parts).value)
  {
    SplitJoin(parts);
    var value := JoinDot(parts);
    assert ToBytes(ttl, 4) == Some(BigEndian(ttl, 4));
    assert RecordHead(recordType) == [0xC0, 0x0C, 0x00, 0x01, 0x00, 0x01];
    assert AddressBytes(SplitDots(value)) == AddressBytes(parts);
  }

  /** A dotted-quad value `'.'.join(map(str, [a, b, c, d]))` gives the 16-byte record C0 0C 00 01 00 01, the
      TTL, 00 04 and the four numbers: TYPE is 1 even when the type asked
      for is 'AAAA'. */
  lemma DottedQuadRecord(recordType: string, ttl: int, a: byte, b: byte, c: byte, d: byte)
    requires IsAddressType(recordType)
    requires 0 <= ttl < 0x1_0000_0000
    ensures var value := JoinDot([DecimalText(a), DecimalText(b), DecimalText(c), DecimalText(d)]);
      RecordBytes(recordType, ttl, value) ==
        Some([0xC0, 0x0C, 0x00, 0x01, 0x00, 0x01] + BigEndian(ttl, 4) + [0x00, 0x04, a, b, c, d])
  {
    FieldBounds();
    var parts := [DecimalText(a), DecimalText(b), DecimalText(c), DecimalText(d)];
    QuadAddress(a, b, c, d);
    JoinedAddressRecord(recordType, ttl, parts);
    var front: seq<byte> := [0xC0, 0x0C, 0x00, 0x01, 0x00, 0x01] + BigEndian(ttl, 4);
    assert front + [0x00, 0x04] + [a, b, c, d] == front + [0x00, 0x04, a, b, c, d];
  }

  /** The four decimal texts of a dotted quad encode back to its bytes. */
  lemma QuadAddress(a: byte, b: byte, c: byte, d: byte)
    ensures AddressBytes([DecimalText(a), DecimalText(b), DecimalText(c), DecimalText(d)]) == Some([a, b, c, d])
  {
    var parts := [DecimalText(a), DecimalText(b), DecimalText(c), DecimalText(d)];
    DecimalRoundTrip(a);
    DecimalRoundTrip(b);
    DecimalRoundTrip(c);
    DecimalRoundTrip(d);
    var q := AddressBytes(parts);
    assert q.Some?;
    assert q.value == [a, b, c, d];
  }

  /** An IPv6 value (any text holding ':') leaves the colon in one of its
      dotted parts, where `int(part)` raises, so an 'AAAA' record holding
      one cannot be encoded. */
  lemma Ipv6ValueRejected(ttl: int, value: string)
    requires ':' in value
    ensures RecordBytes("AAAA", ttl, value).None?
  {
    var parts := SplitDots(value);
    SplitKeeps(value, ':');
    var j :| 0 <= j < |parts| && ':' in parts[j];
    var i :| 0 <= i < |parts[j]| && parts[j][i] == ':';
    assert !IsDigit(parts[j][i]);
    assert ParseInt(parts[j], 10).None?;
  }
}
