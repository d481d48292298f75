/** struct Locator: a transport kind, a port and a sixteen-byte address. */
module Locators {
  type octet = x: int | 0 <= x < 256
  type int32 = x: int | -0x8000_0000 <= x < 0x8000_0000
  type uint32 = x: int | 0 <= x < 0x1_0000_0000

  const UINT32_MAX: uint32 := 0xFFFF_FFFF

  const KIND_UDPv4: int32 := 1
  const KIND_UDPv6: int32 := 2
  const KIND_TCPv4: int32 := 4
  const KIND_TCPv6: int32 := 8

  predicate IsV4(kind: int32) { kind == KIND_TCPv4 || kind == KIND_UDPv4 }

  predicate IsV6(kind: int32) { kind == KIND_TCPv6 || kind == KIND_UDPv6 }

  /** The kinds by number. */
  lemma KindNumbers(kind: int32)
    ensures IsV4(kind) <==> kind == 1 || kind == 4
    ensures IsV6(kind) <==> kind == 2 || kind == 8
    ensures kind == KIND_UDPv4 || kind == KIND_UDPv6 <==> kind == 1 || kind == 2
  {
  }

  /** The value of a locator, which is what lists hold and what `==` compares. */
  datatype LocatorData = LocatorData(kind: int32, port: uint32, address: seq<octet>)

  const ZERO_ADDRESS: seq<octet> := [0, 0, 0, 0, 0, 0, 0, 0, 0, 0, 0, 0, 0, 0, 0, 0]

  type LocatorValue = l: LocatorData | |l.address| == 16
    witness LocatorData(KIND_UDPv4, 0, ZERO_ADDRESS)

  /** What a setter taking a text gives: the returned flag and the sixteen bytes. */
  datatype Outcome = Outcome(ok: bool, address: seq<octet>)

  class Locator {
    var kind: int32
    var port: uint32
    const address: array<octet>

    ghost predicate Valid()
      reads this
    {
      address.Length == 16
    }

    function Value(): LocatorValue
      reads this, address
      requires Valid()
    {
      LocatorData(kind, port, address[..])
    }

    constructor (kind: int32, port: uint32)
      ensures Valid() && fresh(address)
      ensures Value() == LocatorData(kind, port, ZERO_ADDRESS)
    {
      this.kind := kind;
      this.port := port;
      address := new octet[16](_ => 0);
      new;
      assert address[..] == ZERO_ADDRESS;
    }

    /** Copy constructor. */
    constructor Copy(value: LocatorValue)
      ensures Valid() && fresh(address)
      ensures Value() == value
    {
      kind := value.kind;
      port := value.port;
      address := new octet[16](i requires 0 <= i < 16 => value.address[i]);
    }

    /** LOCATOR_ADDRESS_INVALID. */
    method SetInvalidAddress()
      requires Valid()
      modifies address
      ensures address[..] == ZERO_ADDRESS
    {
      for i := 0 to 16
        invariant forall j :: 0 <= j < i ==> address[j] == 0
      {
        address[i] := 0;
      }
    }
  }

  // ----- an IPv6 address as eight groups -----

  function Hi(v: nat): octet { v / 256 % 256 }

  function Lo(v: nat): octet { v % 256 }

  function Pair(hi: octet, lo: octet): (v: nat)
    ensures v < 65536 && Hi(v) == hi && Lo(v) == lo
    ensures v == 0 <==> hi == 0 && lo == 0
  {
    var h: int, l: int := hi, lo;
    h * 256 + l
  }

  /** Big-endian bytes of a list of 16-bit groups; larger numbers are cut to 16 bits. */
  function Bytes(groups: seq<nat>): (b: seq<octet>)
    ensures |b| == 2 * |groups|
  {
    if groups == [] then [] else [Hi(groups[0]), Lo(groups[0])] + Bytes(groups[1..])
  }

  function GroupsOf(b: seq<octet>): (groups: seq<nat>)
    ensures |groups| == |b| / 2
    ensures forall i :: 0 <= i < |groups| ==> groups[i] < 65536
  {
    if |b| < 2 then [] else [Pair(b[0], b[1])] + GroupsOf(b[2..])
  }

  lemma {:induction false} BytesGroups(b: seq<octet>)
    requires |b| % 2 == 0
    ensures Bytes(GroupsOf(b)) == b
  {
    if |b| > 0 {
      BytesGroups(b[2..]);
      assert b == [b[0], b[1]] + b[2..];
    }
  }

  lemma {:induction false} GroupsBytes(groups: seq<nat>)
    requires forall i :: 0 <= i < |groups| ==> groups[i] < 65536
    ensures GroupsOf(Bytes(groups)) == groups
  {
    if groups != [] {
      GroupsBytes(groups[1..]);
      PairSplit(groups[0]);
      assert groups == [groups[0]] + groups[1..];
    }
  }

  lemma PairSplit(v: nat)
    requires v < 65536
    ensures Pair(Hi(v), Lo(v)) == v
  {
    assert v / 256 < 256;
  }

  lemma {:induction false} BytesConcat(g: seq<nat>, h: seq<nat>)
    ensures Bytes(g + h) == Bytes(g) + Bytes(h)
  {
    if g == [] {
      assert g + h == h;
    } else {
      assert (g + h)[1..] == g[1..] + h;
      BytesConcat(g[1..], h);
    }
  }

  lemma {:induction false} BytesZero(groups: seq<nat>)
    requires forall i :: 0 <= i < |groups| ==> groups[i] == 0
    ensures forall j :: 0 <= j < 2 * |groups| ==> Bytes(groups)[j] == 0
  {
    if groups != [] { BytesZero(groups[1..]); }
  }

  lemma {:induction false} GroupsOfAt(b: seq<octet>, i: nat)
    requires 2 * i + 1 < |b|
    ensures GroupsOf(b)[i] == Pair(b[2 * i], b[2 * i + 1])
  {
    if i > 0 { GroupsOfAt(b[2..], i - 1); }
  }
}
