/** The forging fan-out of the adversary: `generateResponseWithRequestId`
    sends a built response once per drawn transaction ID, and
    `generateResponseWithPortNumber` once per drawn destination port, both
    in ascending order of the draws. The draws of `random.randint(1, 65536)`
    are a parameter, and the socket is an object recording what it sent. */
module ForgeEmitter {
  import opened Common
  import opened ResponseEngine

  /** One datagram handed to `sendto`. */
  datatype Datagram = Datagram(payload: seq<byte>, to: Address)

  /** A port `sendto` accepts; CPython raises OverflowError outside it. */
  predicate ValidPort(port: int) {
    0 <= port < 0x1_0000
  }

  /** A UDP socket reduced to the datagrams it was asked to send. */
  class Socket {
    var sent: seq<Datagram>

    constructor()
      ensures sent == []
    {
      sent := [];
    }

    /** `sock.sendto(payload, to)`: false where it raises. */
    method SendTo(payload: seq<byte>, to: Address) returns (ok: bool)
      modifies this
      ensures ok <==> ValidPort(to.port)
      ensures sent == old(sent) + if ok then [Datagram(payload, to)] else []
    {
      ok := ValidPort(to.port);
      if ok {
        sent := sent + [Datagram(payload, to)];
      }
    }
  }

  // ---------------------------------------------------------------------
  // `list.sort()` on the drawn numbers

  predicate Ascending(s: seq<int>) {
    forall i, j :: 0 <= i < j < |s| ==> s[i] <= s[j]
  }

  function Insert(x: int, s: seq<int>): seq<int>
  {
    if s == [] || x <= s[0] then [x] + s else [s[0]] + Insert(x, s[1..])
  }

  /** The draws in ascending order. */
  function SortAsc(s: seq<int>): seq<int>
  {
    if s == [] then [] else Insert(s[0], SortAsc(s[1..]))
  }

  /** Inserting keeps every number and adds one. */
  lemma {:induction false} InsertCount(x: int, s: seq<int>)
    ensures multiset(Insert(x, s)) == multiset(s) + multiset{x} && |Insert(x, s)| == |s| + 1
  {
    if s != [] && x > s[0] {
      InsertCount(x, s[1..]);
      assert s == [s[0]] + s[1..];
    }
  }

  /** Inserting a number at least `b` among numbers at least `b`. */
  lemma {:induction false} InsertAbove(x: int, s: seq<int>, b: int)
    requires b <= x && forall k :: 0 <= k < |s| ==> b <= s[k]
    ensures forall k :: 0 <= k < |Insert(x, s)| ==> b <= Insert(x, s)[k]
  {
    if s != [] && x > s[0] {
      InsertAbove(x, s[1..], b);
      var r := Insert(x, s[1..]);
      assert forall k :: 0 < k < |r| + 1 ==> ([s[0]] + r)[k] == r[k - 1];
    }
  }

  lemma {:induction false} InsertAscending(x: int, s: seq<int>)
    requires Ascending(s)
    ensures Ascending(Insert(x, s))
  {
    if s != [] && x > s[0] {
      InsertAscending(x, s[1..]);
      InsertAbove(x, s[1..], s[0]);
      var r := Insert(x, s[1..]);
      forall i, j | 0 <= i < j < |r| + 1 ensures ([s[0]] + r)[i] <= ([s[0]] + r)[j] {
        assert ([s[0]] + r)[j] == r[j - 1];
        if i > 0 {
          assert ([s[0]] + r)[i] == r[i - 1];
        }
      }
    }
  }

  /** Sorting yields the same numbers, in ascending order. */
  lemma {:induction false} SortAscSpec(s: seq<int>)
    ensures Ascending(SortAsc(s)) && multiset(SortAsc(s)) == multiset(s) && |SortAsc(s)| == |s|
  {
    if s != [] {
      SortAscSpec(s[1..]);
      InsertAscending(s[0], SortAsc(s[1..]));
      InsertCount(s[0], SortAsc(s[1..]));
      assert s == [s[0]] + s[1..];
    }
  }

  // ---------------------------------------------------------------------
  // What the two loops send

  /** The datagrams of `generateResponseWithRequestId` for sorted IDs: each
      ID as two big-endian bytes before the response, up to the first ID
      `to_bytes` or `sendto` raises for, which ends the batch. */
  function IdFrames(ids: seq<int>, response: seq<byte>, addr: Address): seq<Datagram>
  {
    if ids == [] then []
    else
      var id := ToBytes(ids[0], 2);
      if id.None? || !ValidPort(addr.port) then []
      else [Datagram(id.value + response, addr)] + IdFrames(ids[1..], response, addr)
  }

  /** The datagrams of one round of `generateResponseWithPortNumber` for
      sorted ports: the unchanged response to the same IP at each port, up
      to the first port `sendto` raises for. */
  function PortFrames(ports: seq<int>, response: seq<byte>, addr: Address): seq<Datagram>
  {
    if ports == [] then []
    else if !ValidPort(ports[0]) then []
    else [Datagram(response, addr.(port := ports[0]))] + PortFrames(ports[1..], response, addr)
  }

  /** `generateResponseWithRequestId(response, sock, addr, len(draws))`
      with the draws given. */
  method GenerateResponseWithRequestId(response: seq<byte>, sock: Socket, addr: Address, draws: seq<int>)
    modifies sock
    ensures sock.sent == old(sock.sent) + IdFrames(SortAsc(draws), response, addr)
  {
    var round: int := 1;
    while round <= 1
      invariant 1 <= round <= 2
      invariant sock.sent == old(sock.sent) + if round == 2 then IdFrames(SortAsc(draws), response, addr) else []
    {
      var requestIds := SortAsc(draws);
      var i: int := 0;
      while i < |requestIds|
        invariant 0 <= i <= |requestIds|
        invariant old(sock.sent) + IdFrames(requestIds, response, addr) ==
                  sock.sent + IdFrames(requestIds[i..], response, addr)
      {
        assert requestIds[i..][1..] == requestIds[i + 1..];
        var transactionId := ToBytes(requestIds[i], 2);
        if transactionId.None? {
          return;
        }
        var ok := sock.SendTo(transactionId.value + response, addr);
        if !ok {
          return;
        }
        i := i + 1;
      }
      round := round + 1;
    }
  }

  /** `generateResponseWithPortNumber(response, sock, addr, len(draws))`
      with the draws given, for one round: the round counter is advanced
      inside the `while`, as in `generateResponseWithRequestId`. */
  method GenerateResponseWithPortNumber(response: seq<byte>, sock: Socket, addr: Address, draws: seq<int>)
    modifies sock
    ensures sock.sent == old(sock.sent) + PortFrames(SortAsc(draws), response, addr)
  {
    var portNumbers := SortAsc(draws);
    var round: int := 1;
    var target := addr;
    while round <= 1
      invariant 1 <= round <= 2
      invariant target.ip == addr.ip
      invariant sock.sent == old(sock.sent) + if round == 2 then PortFrames(portNumbers, response, addr) else []
    {
      var i: int := 0;
      while i < |portNumbers|
        invariant 0 <= i <= |portNumbers|
        invariant target.ip == addr.ip
        invariant old(sock.sent) + PortFrames(portNumbers, response, addr) ==
                  sock.sent + PortFrames(portNumbers[i..], response, addr)
      {
        assert portNumbers[i..][1..] == portNumbers[i + 1..];
        target := target.(port := portNumbers[i]);
        var ok := sock.SendTo(response, target);
        if !ok {
          return;
        }
        i := i + 1;
      }
      round := round + 1;
    }
  }

  /** The datagrams after `rounds` passes of the outer `while` of
      `generateResponseWithPortNumber` as written: the round counter is
      advanced after the loop, so every pass sends the whole round again,
      until a pass raises and the `try` ends the call. */
  function PortPassesAsWritten(ports: seq<int>, response: seq<byte>, addr: Address, rounds: nat): (r: seq<Datagram>)
    ensures rounds >= 1 ==> PortFrames(ports, response, addr) <= r
    ensures |r| <= rounds * |PortFrames(ports, response, addr)|
  {
    if rounds == 0 then []
    else if exists j :: 0 <= j < |ports| && !ValidPort(ports[j]) then PortFrames(ports, response, addr)
    else PortPassesAsWritten(ports, response, addr, rounds - 1) + PortFrames(ports, response, addr)
  }

  // ---------------------------------------------------------------------
  // Properties

  /** Randint's range: 1 to 65536 inclusive. */
  predicate Drawn(draws: seq<int>) {
    forall i :: 0 <= i < |draws| ==> 1 <= draws[i] <= 0x1_0000
  }

  /** How many leading numbers are below 65536. */
  function Fitting(s: seq<int>): (n: nat)
    ensures n <= |s|
  {
    if s == [] || s[0] >= 0x1_0000 then 0 else 1 + Fitting(s[1..])
  }

  lemma {:induction false} AllEqualCount(t: seq<int>, x: int)
    requires forall j :: 0 <= j < |t| ==> t[j] == x
    ensures multiset(t)[x] == |t|
  {
    if t != [] {
      AllEqualCount(t[1..], x);
      assert t == [t[0]] + t[1..];
    }
  }

  /** Sorted draws split into those below 65536, then the 65536s: the
      first part holds every draw but the 65536s. */
  lemma SortedDrawsSplit(s: seq<int>)
    requires Ascending(s) && Drawn(s)
    ensures var n := Fitting(s);
      n == |s| - multiset(s)[0x1_0000] &&
      (forall j :: 0 <= j < n ==> 1 <= s[j] < 0x1_0000) &&
      (forall j :: n <= j < |s| ==> s[j] == 0x1_0000) &&
      multiset(s[..n]) == multiset(s)[0x1_0000 := 0]
  {
    FittingPrefix(s);
    SplitCounts(s, Fitting(s), 0x1_0000);
  }

  /** A sequence whose first `n` entries differ from `x` and whose others
      equal it: the first part holds everything but the copies of `x`. */
  lemma SplitCounts(s: seq<int>, n: nat, x: int)
    requires n <= |s|
    requires forall j :: 0 <= j < n ==> s[j] != x
    requires forall j :: n <= j < |s| ==> s[j] == x
    ensures n == |s| - multiset(s)[x] && multiset(s[..n]) == multiset(s)[x := 0]
  {
    var front, back := s[..n], s[n..];
    assert s == front + back;
    assert multiset(s) == multiset(front) + multiset(back);
    AllEqualCount(back, x);
    assert x !in front;
    forall y | y != x ensures multiset(front)[y] == multiset(s)[y] {
      assert y !in back;
    }
    assert multiset(front) == multiset(s)[x := 0];
  }

  lemma {:induction false} FittingPrefix(s: seq<int>)
    requires Ascending(s) && Drawn(s)
    ensures var n := Fitting(s);
      (forall j :: 0 <= j < n ==> s[j] < 0x1_0000) && (forall j :: n <= j < |s| ==> s[j] == 0x1_0000)
  {
    if s != [] && s[0] < 0x1_0000 {
      FittingPrefix(s[1..]);
    }
  }

  /** A datagram to `addr` whose first two bytes read back as `id` and
      whose rest is the response. */
  predicate IdFrame(d: Datagram, id: int, response: seq<byte>, addr: Address) {
    d.to == addr && |d.payload| == |response| + 2 && FromBytes(d.payload[..2]) == id && d.payload[2..] == response
  }

  /** The ID frames of numbers whose first `Fitting` entries fit two bytes:
      one frame per fitting number, in order. */
  lemma {:induction false} IdFramesOfFitting(ids: seq<int>, response: seq<byte>, addr: Address)
    requires ValidPort(addr.port) && forall j :: 0 <= j < |ids| ==> 0 <= ids[j]
    ensures var f := IdFrames(ids, response, addr);
      |f| == Fitting(ids) &&
      forall j :: 0 <= j < |f| ==> IdFrame(f[j], ids[j], response, addr)
  {
    assert Pow256(2) == 0x1_0000 by { assert Pow256(1) == 256; }
    if ids != [] && ids[0] < 0x1_0000 {
      IdFramesOfFitting(ids[1..], response, addr);
      var payload := BigEndian(ids[0], 2) + response;
      assert payload[..2] == BigEndian(ids[0], 2);
    }
  }

  /** The port frames of numbers whose first `Fitting` entries are ports:
      one frame per fitting number, in order. */
  lemma {:induction false} PortFramesOfFitting(ports: seq<int>, response: seq<byte>, addr: Address)
    requires forall j :: 0 <= j < |ports| ==> 0 <= ports[j]
    ensures var f := PortFrames(ports, response, addr);
      |f| == Fitting(ports) &&
      forall j :: 0 <= j < |f| ==> f[j] == Datagram(response, addr.(port := ports[j]))
  {
    if ports != [] && ports[0] < 0x1_0000 {
      PortFramesOfFitting(ports[1..], response, addr);
    }
  }

  /** Sorted draws stay within randint's range. */
  lemma SortedDrawn(draws: seq<int>)
    requires Drawn(draws)
    ensures Ascending(SortAsc(draws)) && Drawn(SortAsc(draws)) && multiset(SortAsc(draws)) == multiset(draws)
  {
    SortAscSpec(draws);
    var s := SortAsc(draws);
    forall i | 0 <= i < |s| ensures 1 <= s[i] <= 0x1_0000 {
      assert s[i] in multiset(draws);
    }
  }

  /** Exactly the draws up to 65535 are sent as IDs, in ascending order,
      each as its two big-endian bytes before the response: a 65536 sorts
      last and its `to_bytes` ends the batch. */
  lemma RequestIdFanOut(draws: seq<int>, response: seq<byte>, addr: Address)
    requires Drawn(draws) && ValidPort(addr.port)
    ensures var s := SortAsc(draws);
      var f := IdFrames(s, response, addr);
      |f| == |draws| - multiset(draws)[0x1_0000] && |f| <= |s| &&
      multiset(s[..|f|]) == multiset(draws)[0x1_0000 := 0] && Ascending(s[..|f|]) &&
      forall j :: 0 <= j < |f| ==> IdFrame(f[j], s[j], response, addr)
  {
    var s := SortAsc(draws);
    SortedDrawn(draws);
    SortedDrawsSplit(s);
    IdFramesOfFitting(s, response, addr);
  }

  /** One round sends the response to exactly the drawn ports up to 65535,
      in ascending order; a 65536 sorts last and its `sendto` ends the
      batch. */
  lemma PortFanOut(draws: seq<int>, response: seq<byte>, addr: Address)
    requires Drawn(draws)
    ensures var s := SortAsc(draws);
      var f := PortFrames(s, response, addr);
      |f| == |draws| - multiset(draws)[0x1_0000] && |f| <= |s| &&
      multiset(s[..|f|]) == multiset(draws)[0x1_0000 := 0] && Ascending(s[..|f|]) &&
      forall j :: 0 <= j < |f| ==> f[j] == Datagram(response, addr.(port := s[j]))
  {
    var s := SortAsc(draws);
    SortedDrawn(draws);
    SortedDrawsSplit(s);
    PortFramesOfFitting(s, response, addr);
  }

  /** As written, `generateResponseWithPortNumber` never leaves its
      `while` when every drawn port is valid: after any number of passes it
      has sent that many full rounds. */
  lemma {:induction false} AsWrittenRepeatsRounds(ports: seq<int>, response: seq<byte>, addr: Address, rounds: nat)
    requires forall j :: 0 <= j < |ports| ==> ValidPort(ports[j])
    ensures |PortPassesAsWritten(ports, response, addr, rounds)| == rounds * |ports|
  {
    if rounds > 0 {
      AsWrittenRepeatsRounds(ports, response, addr, rounds - 1);
      PortFramesOfFitting(ports, response, addr);
      FittingAll(ports);
    }
  }

  lemma {:induction false} FittingAll(s: seq<int>)
    requires forall j :: 0 <= j < |s| ==> s[j] < 0x1_0000
    ensures Fitting(s) == |s|
  {
    if s != [] {
      FittingAll(s[1..]);
    }
  }

  /** As written, the call ends only through the exception of an invalid
      port, after its first pass: with a 65536 drawn, any number of passes
      sends what the corrected single round sends. */
  lemma AsWrittenStopsOnlyOnInvalidPort(ports: seq<int>, response: seq<byte>, addr: Address, rounds: nat)
    requires rounds >= 1
    requires exists j :: 0 <= j < |ports| && !ValidPort(ports[j])
    ensures PortPassesAsWritten(ports, response, addr, rounds) == PortFrames(ports, response, addr)
  {
  }
}
