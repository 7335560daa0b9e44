/** The Python built-ins the DNS wire engine leans on, stated once:
    int.to_bytes / big-endian values, int() and str() on digit strings,
    slicing with clamped bounds, '.'.join, str.split('.'), str.lower and
    the substring test `t in s`. */
module Common {

  /** One octet of a datagram. */
  type byte = b: int | 0 <= b < 256

  datatype Option<+T> = None | Some(value: T)

  datatype Result<+T, +E> = Success(value: T) | Failure(error: E)

  function Min(a: int, b: int): int { if a <= b then a else b }

  // ---------------------------------------------------------------------
  // Big-endian integers

  function Pow256(width: nat): (r: nat)
    ensures r >= 1
  {
    if width == 0 then 1 else 256 * Pow256(width - 1)
  }

  /** The two widths the wire uses: 16-bit and 32-bit fields. */
  lemma FieldBounds()
    ensures Pow256(2) == 0x1_0000 && Pow256(4) == 0x1_0000_0000
  {
    assert Pow256(1) == 256;
    assert Pow256(3) == 256 * 256 * 256;
  }

  /** The unsigned value of a big-endian byte string. */
  function FromBytes(s: seq<byte>): (r: nat)
    ensures r < Pow256(|s|)
  {
    if s == [] then 0
    else
      var high := FromBytes(s[..|s| - 1]);
      assert high <= Pow256(|s| - 1) - 1;
      high * 256 + s[|s| - 1]
  }

  /** The `width`-byte big-endian representation of `n`. */
  function BigEndian(n: nat, width: nat): (r: seq<byte>)
    requires n < Pow256(width)
    ensures |r| == width && FromBytes(r) == n
  {
    if width == 0 then []
    else
      assert n / 256 < Pow256(width - 1);
      var r := BigEndian(n / 256, width - 1) + [n % 256];
      assert r[..width - 1] == BigEndian(n / 256, width - 1);
      r
  }

  /** Python's `n.to_bytes(width, byteorder='big')`, which raises
      OverflowError for a negative `n` or one that needs more bytes. */
  function ToBytes(n: int, width: nat): (r: Option<seq<byte>>)
    ensures r.Some? <==> 0 <= n < Pow256(width)
    ensures r.Some? ==> |r.value| == width && FromBytes(r.value) == n
  {
    if 0 <= n < Pow256(width) then Some(BigEndian(n, width)) else None
  }

  // ---------------------------------------------------------------------
  // Sequences

  /** Python's `s[lo:hi]` for non-negative bounds: clamped, never out of range. */
  function Slice<T>(s: seq<T>, lo: nat, hi: nat): (r: seq<T>)
    ensures |r| == if lo <= hi && lo <= |s| then Min(hi, |s|) - lo else 0
    ensures forall i :: 0 <= i < |r| ==> lo + i < |s| && r[i] == s[lo + i]
  {
    if lo <= hi && lo <= |s| then s[lo..Min(hi, |s|)] else []
  }

  /** Python's `s[-3:]`: the last three elements, or all of them. */
  function LastThree<T>(s: seq<T>): (r: seq<T>)
    ensures |r| == Min(3, |s|) && s == s[..|s| - |r|] + r
  {
    if |s| <= 3 then s else s[|s| - 3..]
  }

  // ---------------------------------------------------------------------
  // Text

  /** `chr` of every byte. */
  function Chars(bs: seq<byte>): (r: string)
    ensures |r| == |bs| && forall i :: 0 <= i < |bs| ==> r[i] as int == bs[i]
  {
    seq(|bs|, i requires 0 <= i < |bs| => bs[i] as char)
  }

  predicate Latin1(s: string) {
    forall i :: 0 <= i < |s| ==> s[i] as int < 256
  }

  /** `ord` of every character of a string whose characters fit a byte. */
  function Ords(s: string): (r: seq<byte>)
    requires Latin1(s)
    ensures |r| == |s| && forall i :: 0 <= i < |s| ==> r[i] == s[i] as int
  {
    seq(|s|, i requires 0 <= i < |s| => s[i] as int)
  }

  lemma OrdsChars(bs: seq<byte>)
    ensures Latin1(Chars(bs)) && Ords(Chars(bs)) == bs
  {
  }

  lemma CharsOrds(s: string)
    requires Latin1(s)
    ensures Chars(Ords(s)) == s
  {
  }

  /** The two halves of a prefix. */
  lemma PrefixHalves<T>(d: seq<T>, a: seq<T>, b: seq<T>)
    requires a + b <= d
    ensures a == d[..|a|] && b <= d[|a|..]
  {
    assert d[..|a|] == (a + b)[..|a|];
    assert d[|a|..|a| + |b|] == (a + b)[|a|..];
  }

  /** Python's `'.'.join(parts)`. */
  function JoinDot(parts: seq<string>): string
  {
    if |parts| == 0 then ""
    else if |parts| == 1 then parts[0]
    else parts[0] + "." + JoinDot(parts[1..])
  }

  /** Python's `s[:-1]`. */
  function DropLast(s: string): (r: string)
    ensures |s| > 0 ==> r == s[..|s| - 1]
    ensures |s| == 0 ==> r == s
  {
    if |s| == 0 then s else s[..|s| - 1]
  }

  /** Python's `s.split('.')`: always at least one field. */
  function SplitDots(s: string): (r: seq<string>)
    ensures |r| >= 1
  {
    if s == [] then [""]
    else
      var rest := SplitDots(s[1..]);
      if s[0] == '.' then [""] + rest else [[s[0]] + rest[0]] + rest[1..]
  }

  lemma {:induction false} SplitNoDot(s: string)
    requires '.' !in s
    ensures SplitDots(s) == [s]
  {
    if s != [] {
      SplitNoDot(s[1..]);
      assert [s[0]] + s[1..] == s;
    }
  }

  lemma {:induction false} SplitAtDot(s: string, t: string)
    requires '.' !in s
    ensures SplitDots(s + "." + t) == [s] + SplitDots(t)
  {
    if s == [] {
      assert s + "." + t == ['.'] + t;
      assert (['.'] + t)[1..] == t;
    } else {
      SplitAtDot(s[1..], t);
      assert (s + "." + t)[1..] == s[1..] + "." + t;
      assert [s[0]] + s[1..] == s;
    }
  }

  /** `'.'.join(parts).split('.') == parts` when no part holds a dot. */
  lemma {:induction false} SplitJoin(parts: seq<string>)
    requires |parts| >= 1 && forall j :: 0 <= j < |parts| ==> '.' !in parts[j]
    ensures SplitDots(JoinDot(parts)) == parts
  {
    if |parts| == 1 {
      SplitNoDot(parts[0]);
    } else {
      SplitJoin(parts[1..]);
      SplitAtDot(parts[0], JoinDot(parts[1..]));
      assert [parts[0]] + parts[1..] == parts;
    }
  }

  /** `split('.')` removes only dots: any other character of the text
      lands in one of the parts. */
  lemma {:induction false} SplitKeeps(s: string, c: char)
    requires c in s && c != '.'
    ensures exists j :: 0 <= j < |SplitDots(s)| && c in SplitDots(s)[j]
  {
    var rest := SplitDots(s[1..]);
    if s[0] == c {
      assert c in SplitDots(s)[0];
    } else {
      assert c in s[1..];
      SplitKeeps(s[1..], c);
      var j :| 0 <= j < |rest| && c in rest[j];
      if s[0] == '.' {
        assert SplitDots(s)[j + 1] == rest[j];
      } else if j == 0 {
        assert c in SplitDots(s)[0];
      } else {
        assert SplitDots(s)[j] == rest[j];
      }
    }
  }

  /** Python's `str.lower()` on one character, for code points below 256
      (ASCII and Latin-1 capitals). Every name lowered here comes from
      datagram bytes, so no other code point is reached. */
  function Lower(c: char): char
  {
    if 'A' <= c <= 'Z' || ('À' <= c <= 'Þ' && c != '×') then (c as int + 32) as char
    else c
  }

  function LowerText(s: string): (r: string)
    ensures |r| == |s| && forall i :: 0 <= i < |s| ==> r[i] == Lower(s[i])
  {
    seq(|s|, i requires 0 <= i < |s| => Lower(s[i]))
  }

  /** Python's `t in s` on strings. */
  predicate Contains(s: string, t: string)
    decreases |s|
  {
    t <= s || (|s| > 0 && Contains(s[1..], t))
  }

  // ---------------------------------------------------------------------
  // Digit strings: int(s, base) and str(n)

  predicate IsDigit(c: char) { '0' <= c <= '9' }

  function DigitValue(c: char): nat
    requires IsDigit(c)
  {
    c as int - '0' as int
  }

  predicate DigitsBelow(s: string, base: nat) {
    forall i :: 0 <= i < |s| ==> IsDigit(s[i]) && DigitValue(s[i]) < base
  }

  function DigitsValue(s: string, base: nat): nat
    requires DigitsBelow(s, base)
  {
    if s == [] then 0 else DigitsValue(s[..|s| - 1], base) * base + DigitValue(s[|s| - 1])
  }

  /** Python's `int(s, base)` on a string of ASCII digits; any other string
      (empty, or holding a digit too large for `base`) raises ValueError. */
  function ParseInt(s: string, base: nat): (r: Option<nat>)
    ensures r.Some? <==> |s| > 0 && DigitsBelow(s, base)
  {
    if |s| > 0 && DigitsBelow(s, base) then Some(DigitsValue(s, base)) else None
  }

  /** Python's `str(n)` for a natural number. */
  function DecimalText(n: nat): (r: string)
    ensures |r| >= 1 && DigitsBelow(r, 10) && '.' !in r
  {
    if n < 10 then [('0' as int + n) as char]
    else DecimalText(n / 10) + [('0' as int + n % 10) as char]
  }

  /** `int(str(n)) == n`. */
  lemma {:induction false} DecimalRoundTrip(n: nat)
    ensures ParseInt(DecimalText(n), 10) == Some(n)
  {
    var s := DecimalText(n);
    if n >= 10 {
      DecimalRoundTrip(n / 10);
      assert s[..|s| - 1] == DecimalText(n / 10);
      assert DigitValue(s[|s| - 1]) == n % 10;
      assert DigitsValue(s, 10) == (n / 10) * 10 + n % 10;
    }
  }
}
