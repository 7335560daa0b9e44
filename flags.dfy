/** The response flag builder `getFlags`. It renders the query's Opcode
    bits 1-4 as the decimal text of each masked value and parses the result
    as binary, so any set bit yields an unparsable digit and the fallback
    flag pair is used: the output never depends on the query. */
module Flags {
  import opened Common

  function Pow2(k: nat): (r: nat)
    ensures r >= 1
  {
    if k == 0 then 1 else 2 * Pow2(k - 1)
  }

  /** `ord(byte1) & (1 << bit)`: the bit's weight when it is set, else 0. */
  function Masked(b: byte, bit: nat): nat
  {
    if (b / Pow2(bit)) % 2 == 1 then Pow2(bit) else 0
  }

  /** The OPCODE text once the loop has handled bits 1 to `upTo` - 1. */
  function OpcodeText(b: byte, upTo: nat): string
  {
    if upTo <= 1 then "" else OpcodeText(b, upTo - 1) + DecimalText(Masked(b, upTo - 1))
  }

  /** `int(high, 2).to_bytes(1, 'big') + int(low).to_bytes(1, 'big')`,
      or None where Python raises. */
  function FlagPair(high: string, low: string): Option<seq<byte>>
  {
    var h, l := ParseInt(high, 2), ParseInt(low, 10);
    if h.None? || l.None? then None
    else
      var hb, lb := ToBytes(h.value, 1), ToBytes(l.value, 1);
      if hb.None? || lb.None? then None else Some(hb.value + lb.value)
  }

  /** `getFlags(flags)`: QR '1', the rendered OPCODE, AA '1', TC '0', RD '0';
      RA '0', Z '000', RCODE '0000'; on failure the same with OPCODE '0000'.
      None only if the fallback itself raised. */
  function FlagsOf(flags: seq<byte>): Option<seq<byte>>
    requires |flags| >= 1
  {
    var low := "0" + "000" + "0000";
    match FlagPair("1" + OpcodeText(flags[0], 5) + "1" + "0" + "0", low)
    case Some(r) => Some(r)
    case None => FlagPair("1" + "0000" + "1" + "0" + "0", low)
  }

  /** The flag loop of `getFlags`, followed by the parse and its fallback. */
  method GetFlags(flags: seq<byte>) returns (r: Option<seq<byte>>)
    requires |flags| >= 1
    ensures r == FlagsOf(flags)
  {
    var b := flags[0];
    var opcode := "";
    var bit := 1;
    while bit < 5
      invariant 1 <= bit <= 5
      invariant opcode == OpcodeText(b, bit)
    {
      opcode := opcode + DecimalText(Masked(b, bit));
      bit := bit + 1;
    }
    var low := "0" + "000" + "0000";
    r := FlagPair("1" + opcode + "1" + "0" + "0", low);
    if r.None? {
      r := FlagPair("1" + "0000" + "1" + "0" + "0", low);
    }
  }

  lemma BinaryDigits()
    ensures ParseInt("10000100", 2) == Some(0x84)
    ensures ParseInt("00000000", 10) == Some(0)
  {
    var s1 := "1";
    assert DigitsValue(s1, 2) == 1 by { assert s1[..0] == []; }
    var s2 := s1 + "0";
    DigitsSnoc(s1, '0', 2);
    var s3 := s2 + "0";
    DigitsSnoc(s2, '0', 2);
    var s4 := s3 + "0";
    DigitsSnoc(s3, '0', 2);
    var s5 := s4 + "0";
    DigitsSnoc(s4, '0', 2);
    var s6 := s5 + "1";
    DigitsSnoc(s5, '1', 2);
    var s7 := s6 + "0";
    DigitsSnoc(s6, '0', 2);
    var s8 := s7 + "0";
    DigitsSnoc(s7, '0', 2);
    assert s8 == "10000100";
    assert DigitsValue(s8, 2) == 132;
    AllZeros("00000000");
  }

  /** Appending a digit: the value so far times the base, plus the digit. */
  lemma DigitsSnoc(s: string, c: char, base: nat)
    requires DigitsBelow(s, base) && IsDigit(c) && DigitValue(c) < base
    ensures DigitsBelow(s + [c], base)
    ensures DigitsValue(s + [c], base) == DigitsValue(s, base) * base + DigitValue(c)
  {
    assert (s + [c])[..|s|] == s;
  }

  lemma {:induction false} AllZeros(s: string)
    requires forall i :: 0 <= i < |s| ==> s[i] == '0'
    ensures DigitsBelow(s, 10) && DigitsValue(s, 10) == 0
  {
    if s != [] { AllZeros(s[..|s| - 1]); }
  }

  /** Each opcode digit group is "0" when its bit is clear and holds a digit
      of 2 or more when it is set ("2", "4", "8", "16"); `at` is where. */
  lemma MaskedText(b: byte, bit: nat) returns (at: nat)
    requires 1 <= bit <= 4
    ensures Masked(b, bit) == 0 ==> DecimalText(Masked(b, bit)) == "0"
    ensures Masked(b, bit) != 0 ==>
      at < |DecimalText(Masked(b, bit))| && DigitValue(DecimalText(Masked(b, bit))[at]) >= 2
  {
    at := 0;
    if Masked(b, bit) != 0 {
      var t := DecimalText(Masked(b, bit));
      if bit == 4 {
        assert Masked(b, bit) == 16;
        assert DecimalText(16) == DecimalText(1) + ['6'];
        assert t == "16";
        at := 1;
        assert DigitValue(t[1]) == 6;
      } else {
        assert Masked(b, bit) < 10;
        assert DigitValue(t[0]) >= 2;
      }
    }
  }

  lemma FallbackPair()
    ensures FlagPair("1" + "0000" + "1" + "0" + "0", "0" + "000" + "0000") == Some([0x84, 0x00])
  {
    BinaryDigits();
    assert "1" + "0000" + "1" + "0" + "0" == "10000100";
    assert "0" + "000" + "0000" == "00000000";
    var h, l := ParseInt("10000100", 2), ParseInt("00000000", 10);
    assert Pow256(1) == 256;
    assert BigEndian(0x84, 1) == [0x84];
    assert BigEndian(0, 1) == [0];
    assert ToBytes(h.value, 1) == Some([0x84]);
    assert ToBytes(l.value, 1) == Some([0]);
    assert [0x84] + [0] == [0x84, 0x00];
  }

  lemma OpcodeGroups(b: byte)
    ensures OpcodeText(b, 5) == DecimalText(Masked(b, 1)) + DecimalText(Masked(b, 2))
                               + DecimalText(Masked(b, 3)) + DecimalText(Masked(b, 4))
  {
    assert OpcodeText(b, 1) == "";
    assert OpcodeText(b, 2) == "" + DecimalText(Masked(b, 1));
    assert OpcodeText(b, 3) == OpcodeText(b, 2) + DecimalText(Masked(b, 2));
    assert OpcodeText(b, 4) == OpcodeText(b, 3) + DecimalText(Masked(b, 3));
    assert OpcodeText(b, 5) == OpcodeText(b, 4) + DecimalText(Masked(b, 4));
    assert "" + DecimalText(Masked(b, 1)) == DecimalText(Masked(b, 1));
  }

  /** Four digit groups, each "0" or holding a digit of 2 or more: unless
      all four are "0", their concatenation has such a digit at `j`. */
  lemma Groups(d1: string, d2: string, d3: string, d4: string, i1: nat, i2: nat, i3: nat, i4: nat)
    returns (j: nat)
    requires d1 == "0" || (i1 < |d1| && IsDigit(d1[i1]) && DigitValue(d1[i1]) >= 2)
    requires d2 == "0" || (i2 < |d2| && IsDigit(d2[i2]) && DigitValue(d2[i2]) >= 2)
    requires d3 == "0" || (i3 < |d3| && IsDigit(d3[i3]) && DigitValue(d3[i3]) >= 2)
    requires d4 == "0" || (i4 < |d4| && IsDigit(d4[i4]) && DigitValue(d4[i4]) >= 2)
    ensures var d := d1 + d2 + d3 + d4;
      d == "0000" || (j < |d| && IsDigit(d[j]) && DigitValue(d[j]) >= 2)
  {
    var d := d1 + d2 + d3 + d4;
    if d1 != "0" {
      j := i1;
    } else if d2 != "0" {
      j := |d1| + i2;
    } else if d3 != "0" {
      j := |d1| + |d2| + i3;
    } else if d4 != "0" {
      j := |d1| + |d2| + |d3| + i4;
    } else {
      j := 0;
    }
  }

  /** The primary parse succeeds only when bits 1-4 are all clear, and then
      reads exactly the fallback text. */
  lemma {:induction false} PrimaryText(b: byte)
    ensures var high := "1" + OpcodeText(b, 5) + "1" + "0" + "0";
      ParseInt(high, 2) == None || high == "1" + "0000" + "1" + "0" + "0"
  {
    OpcodeGroups(b);
    var i1 := MaskedText(b, 1);
    var i2 := MaskedText(b, 2);
    var i3 := MaskedText(b, 3);
    var i4 := MaskedText(b, 4);
    var d := OpcodeText(b, 5);
    var j := Groups(DecimalText(Masked(b, 1)), DecimalText(Masked(b, 2)),
                    DecimalText(Masked(b, 3)), DecimalText(Masked(b, 4)), i1, i2, i3, i4);
    var high := "1" + d + "1" + "0" + "0";
    if d != "0000" {
      assert high[1 + j] == d[j];
      assert !DigitsBelow(high, 2);
    }
  }

  /** Every query gets the flag pair 0x84 0x00: QR=1, Opcode=0, AA=1 and
      TC, RD, RA, Z and RCODE all zero, whatever its own flags were. */
  lemma {:induction false} FlagsAreConstant(flags: seq<byte>)
    requires |flags| >= 1
    ensures FlagsOf(flags) == Some([0x84, 0x00])
  {
    FallbackPair();
    PrimaryText(flags[0]);
  }
}
