/** The 0x20 case permutation `getLetterCaseSwapped` (IETF draft "Use of
    Bit 0x20 in DNS Labels", draft-vixie-dnsext-dns0x20): every character
    of the last three question parts is independently replaced by its
    `swapcase()` or kept, by a coin flip; earlier parts are copied. The
    coin flips are a parameter: `draws(i)` is the i-th `random.choice`,
    true when it picked the swapped text. */
module CaseSwap {
  import opened Common
  import opened ZoneStore

  /** Python's `str.swapcase()` on one character, for code points below 256
      (the only ones a decoded label holds): ASCII and Latin-1 letters swap
      within the block, except that 'µ' becomes U+039C, 'ß' becomes "SS"
      and 'ÿ' becomes U+0178. Other characters are kept. */
  function SwapCase(c: char): string
  {
    if 'a' <= c <= 'z' then [(c as int - 32) as char]
    else if 'A' <= c <= 'Z' then [(c as int + 32) as char]
    else if c == 0xB5 as char then [0x39C as char]
    else if 0xC0 as char <= c <= 0xDE as char && c != 0xD7 as char then [(c as int + 32) as char]
    else if c == 0xDF as char then "SS"
    else if 0xE0 as char <= c <= 0xFE as char && c != 0xF7 as char then [(c as int - 32) as char]
    else if c == 0xFF as char then [0x178 as char]
    else [c]
  }

  /** One `random.choice([k.swapcase(), k])`. */
  function Pick(c: char, swap: bool): string
  {
    if swap then SwapCase(c) else [c]
  }

  /** `"".join(random.choice([k.swapcase(), k]) for k in part)`, the flips
      for this part starting at `draws(at)`. */
  function SwapLabel(part: string, draws: nat -> bool, at: nat): string
  {
    if |part| == 0 then ""
    else SwapLabel(part[..|part| - 1], draws, at) + Pick(part[|part| - 1], draws(at + |part| - 1))
  }

  /** How many flips a list of parts consumes: one per character. */
  function CharCount(parts: seq<string>): nat
  {
    if |parts| == 0 then 0 else CharCount(parts[..|parts| - 1]) + |parts[|parts| - 1]|
  }

  /** The permuted parts, in order, drawing flips from `draws(at)` on. */
  function SwapLabels(parts: seq<string>, draws: nat -> bool, at: nat): (r: seq<string>)
    ensures |r| == |parts|
  {
    if |parts| == 0 then []
    else
      var init := parts[..|parts| - 1];
      SwapLabels(init, draws, at) + [SwapLabel(parts[|parts| - 1], draws, at + CharCount(init))]
  }

  /** `getLetterCaseSwapped(domainParts)`: the parts before the last three
      unchanged, then the last three permuted. */
  function CaseSwapped(domainParts: seq<string>, draws: nat -> bool): seq<string>
  {
    var last := LastThree(domainParts);
    domainParts[..|domainParts| - |last|] + SwapLabels(last, draws, 0)
  }

  /** The generator joined into one part: one flip per character, from
      `draws(at)` on. */
  method SwapPart(part: string, draws: nat -> bool, at: nat) returns (swapped: string)
    ensures swapped == SwapLabel(part, draws, at)
  {
    swapped := "";
    var i: int := 0;
    while i < |part|
      invariant 0 <= i <= |part|
      invariant swapped == SwapLabel(part[..i], draws, at)
    {
      assert part[..i + 1][..i] == part[..i];
      swapped := swapped + Pick(part[i], draws(at + i));
      i := i + 1;
    }
    assert part[..i] == part;
  }

  /** The loop of `getLetterCaseSwapped`, appending each permuted part. */
  method GetLetterCaseSwapped(domainParts: seq<string>, draws: nat -> bool) returns (newParts: seq<string>)
    ensures newParts == CaseSwapped(domainParts, draws)
  {
    var last := LastThree(domainParts);
    var kept := domainParts[..|domainParts| - |last|];
    newParts := kept;
    var used: nat := 0;
    var j: int := 0;
    while j < |last|
      invariant 0 <= j <= |last|
      invariant used == CharCount(last[..j])
      invariant newParts == kept + SwapLabels(last[..j], draws, 0)
    {
      var swapped := SwapPart(last[j], draws, used);
      SwapLabelsSnoc(last, j, draws);
      ghost var done := SwapLabels(last[..j], draws, 0);
      assert kept + done + [swapped] == kept + (done + [swapped]);
      newParts := newParts + [swapped];
      used := used + |last[j]|;
      j := j + 1;
    }
    assert last[..j] == last;
  }

  /** One more part permuted: its flips start after those of the parts
      before it. */
  lemma SwapLabelsSnoc(parts: seq<string>, j: nat, draws: nat -> bool)
    requires j < |parts|
    ensures SwapLabels(parts[..j + 1], draws, 0) ==
      SwapLabels(parts[..j], draws, 0) + [SwapLabel(parts[j], draws, CharCount(parts[..j]))]
    ensures CharCount(parts[..j + 1]) == CharCount(parts[..j]) + |parts[j]|
  {
    assert parts[..j + 1][..j] == parts[..j];
    assert parts[..j + 1][j] == parts[j];
  }

  // ---------------------------------------------------------------------
  // Properties

  /** A character whose swapcase is a single character below 256. */
  predicate SwapsInPlace(c: char) {
    c as int < 256 && c != 0xB5 as char && c != 0xDF as char && c != 0xFF as char
  }

  /** The one-character swap of such a character. */
  function SwapChar(c: char): (r: char)
    requires SwapsInPlace(c)
    ensures SwapCase(c) == [r] && r as int < 256
    ensures Lower(r) == Lower(c)
  {
    SwapCase(c)[0]
  }

  /** A part whose characters all swap in place keeps its length, and each
      character is the original or its swapped form, as the flip says. */
  lemma {:induction false} SwapLabelInPlace(part: string, draws: nat -> bool, at: nat)
    requires forall i :: 0 <= i < |part| ==> SwapsInPlace(part[i])
    ensures var r := SwapLabel(part, draws, at);
      |r| == |part| &&
      forall i :: 0 <= i < |part| ==> r[i] == if draws(at + i) then SwapChar(part[i]) else part[i]
  {
    if |part| > 0 {
      var init := part[..|part| - 1];
      SwapLabelInPlace(init, draws, at);
      var c := part[|part| - 1];
      assert Pick(c, draws(at + |part| - 1)) == [if draws(at + |part| - 1) then SwapChar(c) else c];
    }
  }

  /** On ASCII text the swap is the 0x20 bit: each letter is kept or has
      its case flipped, and every other character is kept. */
  lemma AsciiSwap(c: char)
    requires c as int < 128
    ensures SwapsInPlace(c)
    ensures 'a' <= c <= 'z' ==> SwapChar(c) as int == c as int - 0x20
    ensures 'A' <= c <= 'Z' ==> SwapChar(c) as int == c as int + 0x20
    ensures !('a' <= c <= 'z' || 'A' <= c <= 'Z') ==> SwapChar(c) == c
  {
  }

  /** The flips of part j of a permuted list start where those of the parts
      before it end. */
  lemma {:induction false} SwapLabelsAt(parts: seq<string>, draws: nat -> bool, at: nat, j: nat)
    requires j < |parts|
    ensures SwapLabels(parts, draws, at)[j] == SwapLabel(parts[j], draws, at + CharCount(parts[..j]))
    decreases |parts|
  {
    var init := parts[..|parts| - 1];
    var final := SwapLabel(parts[|parts| - 1], draws, at + CharCount(init));
    assert SwapLabels(parts, draws, at) == SwapLabels(init, draws, at) + [final];
    if j < |parts| - 1 {
      SwapLabelsAt(init, draws, at, j);
      assert init[..j] == parts[..j];
    } else {
      assert parts[..j] == init;
    }
  }

  /** `getLetterCaseSwapped` returns as many parts as it was given, copies
      all but the last three unchanged, and turns an empty part (the ''
      sentinel) into an empty part. */
  lemma CaseSwappedShape(domainParts: seq<string>, draws: nat -> bool)
    ensures var r := CaseSwapped(domainParts, draws);
      |r| == |domainParts| &&
      (forall j :: 0 <= j < |domainParts| - 3 ==> r[j] == domainParts[j]) &&
      (forall j :: 0 <= j < |domainParts| && domainParts[j] == "" ==> r[j] == "")
  {
    var last := LastThree(domainParts);
    var k := |domainParts| - |last|;
    var r := CaseSwapped(domainParts, draws);
    forall j | 0 <= j < |domainParts| && domainParts[j] == "" ensures r[j] == "" {
      if j >= k {
        SwapLabelsAt(last, draws, 0, j - k);
        assert last[j - k] == domainParts[j];
      }
    }
  }

  /** When every character of the last three parts swaps in place, each
      permuted part has its original length and lowers to the same text:
      the permutation changes letter case and nothing else. */
  lemma CaseSwappedSameLowered(domainParts: seq<string>, draws: nat -> bool)
    requires forall j, i :: 0 <= j < |domainParts| && |domainParts| - 3 <= j && 0 <= i < |domainParts[j]| ==>
      SwapsInPlace(domainParts[j][i])
    ensures var r := CaseSwapped(domainParts, draws);
      |r| == |domainParts| &&
      (forall j :: 0 <= j < |domainParts| ==> |r[j]| == |domainParts[j]|) &&
      LowerAll(r) == LowerAll(domainParts)
  {
    var last := LastThree(domainParts);
    var k := |domainParts| - |last|;
    var r := CaseSwapped(domainParts, draws);
    forall j | 0 <= j < |domainParts|
      ensures |r[j]| == |domainParts[j]| && LowerText(r[j]) == LowerText(domainParts[j])
    {
      if j >= k {
        SwapLabelsAt(last, draws, 0, j - k);
        assert last[j - k] == domainParts[j];
        SwapLabelInPlace(domainParts[j], draws, CharCount(last[..j - k]));
      }
    }
  }

  /** Permuting the case never moves a name to another zone. */
  lemma CaseSwappedSameZone(domainParts: seq<string>, draws: nat -> bool)
    requires forall j, i :: 0 <= j < |domainParts| && |domainParts| - 3 <= j && 0 <= i < |domainParts[j]| ==>
      SwapsInPlace(domainParts[j][i])
    ensures ZoneKey(CaseSwapped(domainParts, draws)) == ZoneKey(domainParts)
  {
    var r := CaseSwapped(domainParts, draws);
    CaseSwappedSameLowered(domainParts, draws);
    LastThreeLowered(r, domainParts);
    ZoneKeyOfLastThree(r, domainParts);
  }

  /** Lists that lower alike have last three parts that lower alike. */
  lemma LastThreeLowered(p: seq<string>, q: seq<string>)
    requires |p| == |q| && LowerAll(p) == LowerAll(q)
    ensures LowerAll(LastThree(p)) == LowerAll(LastThree(q))
  {
    var k := |p| - Min(3, |p|);
    assert LastThree(p) == p[k..];
    assert LastThree(q) == q[k..];
    LowerAllDrop(p, k);
    LowerAllDrop(q, k);
  }

  /** Lowering commutes with dropping leading parts. */
  lemma LowerAllDrop(p: seq<string>, k: nat)
    requires k <= |p|
    ensures LowerAll(p[k..]) == LowerAll(p)[k..]
  {
    assert forall j :: 0 <= j < |p| - k ==> LowerAll(p[k..])[j] == LowerAll(p)[k..][j];
  }

  /** 'ß' is not swapped in place: with its flip set, the one-character
      label "ß" becomes the two-character "SS". */
  lemma SharpSGrows(draws: nat -> bool)
    requires draws(0)
    ensures SwapLabel([0xDF as char], draws, 0) == "SS"
  {
    assert [0xDF as char][..0] == [];
  }
}
