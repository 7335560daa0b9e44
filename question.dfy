/** The question section: the length-prefixed label walker
    `getQuestionDomain` and the encoder `buildQuestion` (section 3.1 and
    section 4.1.2 of RFC 1035, without name compression). */
module Question {
  import opened Common
  import opened RecordTypes

  // ---------------------------------------------------------------------
  // Decoding

  /** No zero byte in `data[lo..hi]`. */
  predicate NoZero(data: seq<byte>, lo: nat, hi: nat)
    requires lo <= hi <= |data|
  {
    forall t :: lo <= t < hi ==> data[t] != 0
  }

  /** A complete label starts at `p`: a non-zero length byte followed by that
      many bytes, none of them zero. */
  predicate LabelAt(data: seq<byte>, p: nat)
  {
    p < |data| && data[p] != 0 && p + 1 + data[p] as int <= |data| &&
    NoZero(data, p + 1, p + 1 + data[p] as int)
  }

  /** The complete labels the walker reads from position `p` on. A zero
      byte ends the walk wherever it stands, even inside a label, whose
      partial text is then dropped; every byte is taken as a length, so
      compression pointers are not understood. */
  function Labels(data: seq<byte>, p: nat): seq<string>
    requires p <= |data|
    decreases |data| - p
  {
    if LabelAt(data, p) then
      var n := data[p] as int;
      [Chars(data[p + 1..p + 1 + n])] + Labels(data, p + 1 + n)
    else []
  }

  /** The walker's offset k from position `p` on: the lengths of the complete
      labels plus the number of length bytes read, counting the length byte
      of a label cut short. */
  function Offset(data: seq<byte>, p: nat): (k: nat)
    requires p <= |data|
    ensures p + k <= |data|
    decreases |data| - p
  {
    if LabelAt(data, p) then 1 + data[p] as int + Offset(data, p + 1 + data[p] as int)
    else if p < |data| && data[p] != 0 then 1
    else 0
  }

  /** Reading one complete label: its text, then the walk after it. */
  lemma LabelStep(data: seq<byte>, p: nat)
    requires LabelAt(data, p)
    ensures var q := p + 1 + data[p] as int;
      Labels(data, p) == [Chars(data[p + 1..q])] + Labels(data, q) &&
      Offset(data, p) == 1 + data[p] as int + Offset(data, q)
  {
  }

  /** `getQuestionDomain(data)`: the labels followed by the '' sentinel, and
      the question type `data[k+1:k+3]`, which may be shorter than two bytes
      when the datagram is truncated. */
  function QuestionOf(data: seq<byte>): (seq<string>, seq<byte>)
  {
    var k := Offset(data, 0);
    (Labels(data, 0) + [""], Slice(data, k + 1, k + 3))
  }

  /** The walker's state after reading `data[..i]`: `parts` holds the
      complete labels read, `count` the length bytes read and `total` the
      lengths of the complete labels. When a label is open, its length byte
      sits at `start`, `expected` is that length, and `current` holds the
      `index` bytes read of it so far; otherwise `start` is `i`. */
  ghost predicate Walking(data: seq<byte>, i: int, start: int, open: bool, current: string,
                          index: int, expected: int, count: int, total: int, parts: seq<string>)
  {
    0 <= start <= i <= |data| && 0 <= count &&
    (!open ==> start == i && current == "" && index == 0) &&
    (open ==> start < i && data[start] as int == expected > 0 && index == i - start - 1 < expected &&
              current == Chars(data[start + 1..i]) && NoZero(data, start + 1, i) && count >= 1) &&
    Labels(data, 0) == parts + Labels(data, start) &&
    Offset(data, 0) == total + count - (if open then 1 else 0) + Offset(data, start)
  }

  /** A non-zero byte read between labels opens a label of that length. */
  lemma OpenLabel(data: seq<byte>, i: int, current: string, index: int, expected: int,
                  count: int, total: int, parts: seq<string>)
    requires Walking(data, i, i, false, current, index, expected, count, total, parts)
    requires i < |data| && data[i] != 0
    ensures Walking(data, i + 1, i, true, current, index, data[i] as int, count + 1, total, parts)
  {
  }

  /** A non-zero byte read inside a label extends it and, when it is the
      last of its length, completes it. */
  lemma ReadInLabel(data: seq<byte>, i: int, start: int, current: string, index: int, expected: int,
                    count: int, total: int, parts: seq<string>)
    requires Walking(data, i, start, true, current, index, expected, count, total, parts)
    requires i < |data| && data[i] != 0
    ensures index + 1 < expected ==>
      Walking(data, i + 1, start, true, current + [data[i] as char], index + 1, expected, count, total, parts)
    ensures index + 1 == expected ==>
      Walking(data, i + 1, i + 1, false, "", 0, expected, count, total + expected, parts + [current + [data[i] as char]])
  {
    ExtendLabel(data, start + 1, i, current);
    if index + 1 == expected {
      CloseLabel(data, i, start, current + [data[i] as char], expected, count, total, parts);
    }
  }

  /** One more non-zero byte read inside a label. */
  lemma ExtendLabel(data: seq<byte>, from: nat, i: nat, current: string)
    requires from <= i < |data| && data[i] != 0
    requires NoZero(data, from, i) && current == Chars(data[from..i])
    ensures NoZero(data, from, i + 1)
    ensures current + [data[i] as char] == Chars(data[from..i + 1])
  {
    assert data[from..i + 1] == data[from..i] + [data[i]];
  }

  /** The byte at `i` completes the label whose length byte is at `start`. */
  lemma CloseLabel(data: seq<byte>, i: int, start: int, next: string, expected: int,
                   count: int, total: int, parts: seq<string>)
    requires 0 <= start < i < |data| && data[start] as int == expected > 0 && start + 1 + expected == i + 1
    requires next == Chars(data[start + 1..i + 1]) && NoZero(data, start + 1, i + 1) && count >= 1
    requires Labels(data, 0) == parts + Labels(data, start)
    requires Offset(data, 0) == total + count - 1 + Offset(data, start)
    ensures Walking(data, i + 1, i + 1, false, "", 0, expected, count, total + expected, parts + [next])
  {
    assert LabelAt(data, start);
    LabelStep(data, start);
    assert parts + [next] + Labels(data, i + 1) == parts + ([next] + Labels(data, i + 1));
  }

  /** Where the walk stops (the end of the data or a zero byte), the labels
      read are all there are, and k is the length bytes plus the lengths. */
  lemma WalkStops(data: seq<byte>, i: int, start: int, open: bool, current: string, index: int,
                  expected: int, count: int, total: int, parts: seq<string>)
    requires Walking(data, i, start, open, current, index, expected, count, total, parts)
    requires i == |data| || data[i] == 0
    ensures Labels(data, 0) == parts && Offset(data, 0) == total + count
  {
    if open && i < |data| {
      assert start + 1 <= i < start + 1 + data[start] as int && data[i] == 0;
    }
    assert !LabelAt(data, start);
    assert parts + [] == parts;
  }

  /** The byte loop of `getQuestionDomain`. The source alternates between
      two states whose code is identical; this is the single loop they
      amount to. `count` is the source's `parts` (length bytes read) and
      `total` its `TotalLength`. */
  method GetQuestionDomain(data: seq<byte>) returns (domainParts: seq<string>, questionType: seq<byte>)
    ensures (domainParts, questionType) == QuestionOf(data)
  {
    domainParts := [];
    var current: string := "";
    var first := true;
    var expected: int := 0;
    var index: int := 0;
    var total: int := 0;
    var count: int := 0;
    ghost var start: int := 0;
    var i: int := 0;
    while i < |data| && data[i] != 0
      invariant Walking(data, i, start, !first, current, index, expected, count, total, domainParts)
      decreases |data| - i
    {
      var b := data[i];
      if first {
        OpenLabel(data, i, current, index, expected, count, total, domainParts);
        first := false;
        count := count + 1;
        expected := b;
        start := i;
      } else {
        ReadInLabel(data, i, start, current, index, expected, count, total, domainParts);
        current := current + [b as char];
        index := index + 1;
        if index == expected {
          total := total + expected;
          domainParts := domainParts + [current];
          current := "";
          index := 0;
          first := true;
          start := i + 1;
        }
      }
      i := i + 1;
    }
    WalkStops(data, i, start, !first, current, index, expected, count, total, domainParts);
    var k := total + count;
    questionType := Slice(data, k + 1, k + 3);
    domainParts := domainParts + [""];
  }

  // ---------------------------------------------------------------------
  // Encoding

  /** Every part fits `bytes([len(part)])` and every character fits
      `ord(char).to_bytes(1, 'big')`. */
  predicate Encodable(parts: seq<string>) {
    forall j :: 0 <= j < |parts| ==> |parts[j]| < 256 && Latin1(parts[j])
  }

  /** Each part as one length byte followed by its characters. */
  function NameBytes(parts: seq<string>): seq<byte>
    requires Encodable(parts)
  {
    if parts == [] then [] else [|parts[0]|] + Ords(parts[0]) + NameBytes(parts[1..])
  }

  /** `buildQuestion(domainName, recordType)`: the name, then 00 01 for an
      'A' or 'AAAA' question, then 00 01 for every question; None where
      Python raises (a part longer than 255, a character above 255). */
  function QuestionBytes(parts: seq<string>, recordType: string): Option<seq<byte>>
  {
    if Encodable(parts) then
      Some(NameBytes(parts) + (if IsAddressType(recordType) then [0x00, 0x01] else []) + [0x00, 0x01])
    else None
  }

  lemma {:induction false} NameBytesAppend(parts: seq<string>, part: string)
    requires Encodable(parts) && |part| < 256 && Latin1(part)
    ensures Encodable(parts + [part])
    ensures NameBytes(parts + [part]) == NameBytes(parts) + [|part|] + Ords(part)
  {
    if parts != [] {
      assert (parts + [part])[1..] == parts[1..] + [part];
      NameBytesAppend(parts[1..], part);
    } else {
      assert [part][1..] == [];
    }
  }

  /** The byte loop of `buildQuestion`. */
  method BuildQuestion(domainName: seq<string>, recordType: string) returns (r: Option<seq<byte>>)
    ensures r == QuestionBytes(domainName, recordType)
  {
    var questionBytes: seq<byte> := [];
    for i := 0 to |domainName|
      invariant Encodable(domainName[..i]) && questionBytes == NameBytes(domainName[..i])
    {
      var part := domainName[i];
      if |part| >= 256 {
        // bytes([length]) raises ValueError
        assert !Encodable(domainName) by { assert |domainName[i]| >= 256; }
        assert QuestionBytes(domainName, recordType) == None;
        return None;
      }
      questionBytes := questionBytes + [|part|];
      for j := 0 to |part|
        invariant Latin1(part[..j])
        invariant questionBytes == NameBytes(domainName[..i]) + [|part|] + Ords(part[..j])
      {
        if part[j] as int >= 256 {
          // ord(char).to_bytes(1, 'big') raises OverflowError
          assert !Latin1(domainName[i]);
          assert !Encodable(domainName);
          assert QuestionBytes(domainName, recordType) == None;
          return None;
        }
        questionBytes := questionBytes + [part[j] as int];
        assert part[..j + 1] == part[..j] + [part[j]];
      }
      assert part[..|part|] == part;
      NameBytesAppend(domainName[..i], part);
      assert domainName[..i + 1] == domainName[..i] + [part];
    }
    assert domainName[..|domainName|] == domainName;
    assert Encodable(domainName) && questionBytes == NameBytes(domainName);
    if IsAddressType(recordType) {
      questionBytes := questionBytes + [0x00, 0x01];
    }
    questionBytes := questionBytes + [0x00, 0x01];
    assert NameBytes(domainName) + [] == NameBytes(domainName);
    r := Some(questionBytes);
  }

  // ---------------------------------------------------------------------
  // Properties

  /** A label the walker reads back once encoded: not empty and without
      chr(0); `Encodable` adds that it has at most 255 characters, all
      below 256. */
  predicate WireLabel(part: string) {
    0 < |part| && forall i :: 0 <= i < |part| ==> part[i] != 0 as char
  }

  /** A name of wire labels the encoder accepts. */
  predicate WireName(labels: seq<string>) {
    Encodable(labels) && forall j :: 0 <= j < |labels| ==> WireLabel(labels[j])
  }

  /** A wire name is its first label in front of a shorter wire name. */
  lemma WireCons(part: string, rest: seq<string>)
    ensures WireName([part] + rest) <==> |part| < 256 && Latin1(part) && WireLabel(part) && WireName(rest)
    ensures WireName([part] + rest) ==> NameBytes([part] + rest) == [|part|] + Ords(part) + NameBytes(rest)
  {
    var labels := [part] + rest;
    assert labels[0] == part && labels[1..] == rest;
    assert forall j :: 0 <= j < |rest| ==> labels[j + 1] == rest[j];
    if |part| < 256 && Latin1(part) && WireLabel(part) && WireName(rest) {
      forall j | 0 <= j < |labels| ensures |labels[j]| < 256 && Latin1(labels[j]) && WireLabel(labels[j]) {
        if j > 0 { assert labels[j] == rest[j - 1]; }
      }
    }
  }

  /** A complete label reads as a wire label whose encoding is the bytes it
      was read from. */
  lemma LabelText(data: seq<byte>, p: nat)
    requires LabelAt(data, p)
    ensures var q := p + 1 + data[p] as int;
      var part := Chars(data[p + 1..q]);
      |part| < 256 && Latin1(part) && WireLabel(part) && [|part|] + Ords(part) == data[p..q]
  {
    var q := p + 1 + data[p] as int;
    var part := Chars(data[p + 1..q]);
    OrdsChars(data[p + 1..q]);
    forall i | 0 <= i < |part| ensures part[i] != 0 as char {
      assert data[p + 1 + i] != 0;
    }
    assert data[p..q] == [data[p]] + data[p + 1..q];
  }

  lemma {:induction false} ReadLabelsFrom(data: seq<byte>, p: nat)
    requires p <= |data|
    ensures var labels := Labels(data, p);
      WireName(labels) &&
      p + |NameBytes(labels)| <= |data| && data[p..p + |NameBytes(labels)|] == NameBytes(labels) &&
      var e := p + |NameBytes(labels)|;
      !LabelAt(data, e) && Offset(data, p) == |NameBytes(labels)| + (if e < |data| && data[e] != 0 then 1 else 0)
    decreases |data| - p
  {
    if LabelAt(data, p) {
      var q := p + 1 + data[p] as int;
      ReadLabelsFrom(data, q);
      LabelText(data, p);
      LabelStep(data, p);
      var part := Chars(data[p + 1..q]);
      var labels := Labels(data, p);
      var rest := Labels(data, q);
      assert labels == [part] + rest;
      WireCons(part, rest);
      var tail := NameBytes(rest);
      assert data[p..q + |tail|] == data[p..q] + data[q..q + |tail|];
    }
  }

  /** What the walker reads is exactly the run of complete length-prefixed
      labels at the start of the data: their encoding is a prefix of the
      data, no complete label follows it (the data ends, a zero byte
      follows, or a label cut short by a zero byte or by the end of the
      data), and k is the prefix's length, plus one for the length byte of
      a label cut short. */
  lemma WalkReadsCompleteLabels(data: seq<byte>)
    ensures var labels := Labels(data, 0);
      WireName(labels) &&
      NameBytes(labels) <= data &&
      var e := |NameBytes(labels)|;
      !LabelAt(data, e) && Offset(data, 0) == e + (if e < |data| && data[e] != 0 then 1 else 0)
  {
    ReadLabelsFrom(data, 0);
  }

  /** The first label of an encoded name, followed by a terminator, is a
      complete label in the data and reads back as itself. */
  lemma HeadLabel(data: seq<byte>, p: nat, labels: seq<string>)
    requires |labels| > 0 && WireName(labels)
    requires p <= |data| && NameBytes(labels) + [0] <= data[p..]
    ensures var q := p + 1 + |labels[0]|;
      LabelAt(data, p) && data[p] as int == |labels[0]| && Chars(data[p + 1..q]) == labels[0] &&
      NameBytes(labels[1..]) + [0] <= data[q..]
  {
    var part := labels[0];
    assert labels == [part] + labels[1..];
    WireCons(part, labels[1..]);
    var n := |part|;
    var q := p + 1 + n;
    var rest := NameBytes(labels[1..]);
    assert NameBytes(labels) + [0] == [n] + Ords(part) + (rest + [0]);
    PrefixHalves(data[p..], [n] + Ords(part), rest + [0]);
    assert data[p..q] == [n] + Ords(part);
    assert data[p + 1..q] == Ords(part);
    CharsOrds(part);
    forall t | p + 1 <= t < q ensures data[t] != 0 {
      assert data[t] == Ords(part)[t - p - 1] == part[t - p - 1] as int;
    }
    assert data[p..][1 + n..] == data[q..];
  }

  /** The walker reads back any name the encoder writes, stopping at the
      terminator byte that follows it. */
  lemma {:induction false} WalkEncodedName(data: seq<byte>, p: nat, labels: seq<string>)
    requires WireName(labels)
    requires p <= |data| && NameBytes(labels) + [0] <= data[p..]
    ensures Labels(data, p) == labels && Offset(data, p) == |NameBytes(labels)|
    decreases |labels|
  {
    if labels == [] {
      assert data[p] == 0;
      assert !LabelAt(data, p);
    } else {
      assert labels == [labels[0]] + labels[1..];
      WireCons(labels[0], labels[1..]);
      HeadLabel(data, p, labels);
      var q := p + 1 + |labels[0]|;
      WalkEncodedName(data, q, labels[1..]);
      LabelStep(data, p);
      assert |NameBytes(labels)| == 1 + |labels[0]| + |NameBytes(labels[1..])|;
    }
  }

  /** Decoding what `buildQuestion` writes for a name ending in the ''
      sentinel returns the same labels, and always the type bytes 00 01:
      for 'A' that is its own code, for 'AAAA' the CLASS field is read
      instead, and for every other type the two bytes after the terminator
      are the only field written. */
  lemma QuestionRoundTrip(labels: seq<string>, recordType: string)
    requires WireName(labels)
    ensures QuestionBytes(labels + [""], recordType).Some?
    ensures QuestionOf(QuestionBytes(labels + [""], recordType).value) == (labels + [""], [0x00, 0x01])
  {
    NameBytesAppend(labels, "");
    var tail: seq<byte> := (if IsAddressType(recordType) then [0x00, 0x01] else []) + [0x00, 0x01];
    var name := NameBytes(labels);
    var data := NameBytes(labels + [""]) + tail;
    assert Ords("") == [];
    assert data == name + [0] + tail;
    assert name + [0] <= data[0..];
    WalkEncodedName(data, 0, labels);
    assert NameBytes(labels + [""]) + (if IsAddressType(recordType) then [0x00, 0x01] else []) + [0x00, 0x01] == data;
    assert QuestionBytes(labels + [""], recordType) == Some(data);
    assert Slice(data, |name| + 1, |name| + 3) == [0x00, 0x01];
  }

  /** So the question type survives the encoder and the walker exactly when
      it is 'A'. */
  lemma QuestionTypeSurvivesOnlyForA(labels: seq<string>, recordType: string)
    requires WireName(labels)
    requires recordType in Names
    ensures QuestionBytes(labels + [""], recordType).Some?
    ensures QuestionOf(QuestionBytes(labels + [""], recordType).value).1 == TypeCode(recordType)
            <==> recordType == "A"
  {
    QuestionRoundTrip(labels, recordType);
  }
}
