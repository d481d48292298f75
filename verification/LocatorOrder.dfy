/** The order of struct Locator: memcmp over its 24 bytes on a little-endian machine. */
module LocatorOrder {
  import opened Locators

  function LittleEndian(v: uint32): (b: seq<octet>)
    ensures |b| == 4
  {
    [v % 256, v / 256 % 256, v / 65536 % 256, v / 16777216]
  }

  /** Two's complement. */
  function Unsigned(v: int32): uint32 {
    if v < 0 then v + 0x1_0000_0000 else v
  }

  /** The object representation: kind, port and address without padding. */
  function Layout(l: LocatorValue): (b: seq<octet>)
    ensures |b| == 24
  {
    LittleEndian(Unsigned(l.kind)) + LittleEndian(l.port) + l.address
  }

  /** The sign of std::memcmp: the first difference decides. */
  function MemCmp(a: seq<octet>, b: seq<octet>): (r: int)
    requires |a| == |b|
  {
    if a == [] then 0
    else if a[0] < b[0] then -1
    else if a[0] > b[0] then 1
    else MemCmp(a[1..], b[1..])
  }

  predicate Less(l: LocatorValue, m: LocatorValue) { MemCmp(Layout(l), Layout(m)) < 0 }

  predicate Greater(l: LocatorValue, m: LocatorValue) { MemCmp(Layout(l), Layout(m)) > 0 }

  lemma LittleEndianInjective(v: uint32, w: uint32)
    ensures LittleEndian(v) == LittleEndian(w) ==> v == w
  {
    var b, c := LittleEndian(v), LittleEndian(w);
    if b == c {
      assert b[0] == c[0] && b[1] == c[1] && b[2] == c[2] && b[3] == c[3];
      LittleEndianValue(v);
      LittleEndianValue(w);
    }
  }

  lemma LittleEndianValue(v: uint32)
    ensures v == v % 256 + 256 * (v / 256 % 256) + 65536 * (v / 65536 % 256) + 16777216 * (v / 16777216)
  {
    assert v / 65536 == v / 256 / 256 && v / 16777216 == v / 256 / 256 / 256;
  }

  lemma LayoutInjective(l: LocatorValue, m: LocatorValue)
    ensures Layout(l) == Layout(m) <==> l == m
  {
    var a, b := Layout(l), Layout(m);
    if a == b {
      assert a[..4] == LittleEndian(Unsigned(l.kind)) && b[..4] == LittleEndian(Unsigned(m.kind));
      assert a[4..8] == LittleEndian(l.port) && b[4..8] == LittleEndian(m.port);
      assert a[8..] == l.address && b[8..] == m.address;
      LittleEndianInjective(Unsigned(l.kind), Unsigned(m.kind));
      LittleEndianInjective(l.port, m.port);
    }
  }

  lemma {:induction false} MemCmpZero(a: seq<octet>, b: seq<octet>)
    requires |a| == |b|
    ensures MemCmp(a, b) == 0 <==> a == b
    ensures MemCmp(a, b) == -MemCmp(b, a)
  {
    if a != [] {
      MemCmpZero(a[1..], b[1..]);
      assert a == [a[0]] + a[1..] && b == [b[0]] + b[1..];
    }
  }

  lemma {:induction false} MemCmpTransitive(a: seq<octet>, b: seq<octet>, c: seq<octet>)
    requires |a| == |b| == |c| && MemCmp(a, b) < 0 && MemCmp(b, c) < 0
    ensures MemCmp(a, c) < 0
  {
    if a[0] == b[0] == c[0] { MemCmpTransitive(a[1..], b[1..], c[1..]); }
  }

  /** `<` is a strict total order, `>` its converse, and where neither holds the locators
      are equal in the sense of `==`, member by member. */
  lemma StrictTotalOrder(l: LocatorValue, m: LocatorValue, n: LocatorValue)
    ensures !Less(l, l)
    ensures Less(l, m) && Less(m, n) ==> Less(l, n)
    ensures Less(l, m) || Less(m, l) || l == m
    ensures !(Less(l, m) && Less(m, l))
    ensures Greater(l, m) <==> Less(m, l)
    ensures !Less(l, m) && !Greater(l, m) <==>
            l.kind == m.kind && l.port == m.port && l.address == m.address
  {
    MemCmpZero(Layout(l), Layout(l));
    MemCmpZero(Layout(l), Layout(m));
    LayoutInjective(l, m);
    if Less(l, m) && Less(m, n) { MemCmpTransitive(Layout(l), Layout(m), Layout(n)); }
  }

  /** The number whose bytes are those of `v` in the opposite order. */
  function Swapped(v: uint32): uint32 {
    var b := LittleEndian(v);
    Big(b[0], b[1], b[2], b[3])
  }

  function Big(b0: int, b1: int, b2: int, b3: int): int {
    ((b0 * 256 + b1) * 256 + b2) * 256 + b3
  }

  lemma {:induction false} MemCmpConcat(a: seq<octet>, b: seq<octet>, c: seq<octet>, d: seq<octet>)
    requires |a| == |b| && |c| == |d|
    ensures MemCmp(a + c, b + d) == if a == b then MemCmp(c, d) else MemCmp(a, b)
  {
    if a == [] {
      assert a + c == c && b + d == d;
    } else {
      assert (a + c)[1..] == a[1..] + c && (b + d)[1..] == b[1..] + d;
      MemCmpConcat(a[1..], b[1..], c, d);
      assert a == [a[0]] + a[1..] && b == [b[0]] + b[1..];
    }
  }

  lemma MemCmpFour(v: uint32, w: uint32)
    ensures MemCmp(LittleEndian(v), LittleEndian(w)) < 0 <==> Swapped(v) < Swapped(w)
    ensures Swapped(v) == Swapped(w) <==> v == w
  {
    var a, b := LittleEndian(v), LittleEndian(w);
    BigLess(a[0], a[1], a[2], a[3], b[0], b[1], b[2], b[3]);
    LittleEndianInjective(v, w);
    assert a == [a[0], a[1], a[2], a[3]] && b == [b[0], b[1], b[2], b[3]];
    MemCmpAll(a, b);
  }

  lemma MemCmpAll(a: seq<octet>, b: seq<octet>)
    requires |a| == |b| == 4
    ensures MemCmp(a, b) ==
      if a[0] != b[0] then Sign(a[0], b[0]) else if a[1] != b[1] then Sign(a[1], b[1])
      else if a[2] != b[2] then Sign(a[2], b[2]) else if a[3] != b[3] then Sign(a[3], b[3]) else 0
  {
    assert a[1..][1..] == a[2..] && a[2..][1..] == a[3..] && a[3..][1..] == [];
    assert b[1..][1..] == b[2..] && b[2..][1..] == b[3..] && b[3..][1..] == [];
    assert MemCmp(a[3..], b[3..]) == if a[3] != b[3] then Sign(a[3], b[3]) else 0;
    assert MemCmp(a[2..], b[2..]) == if a[2] != b[2] then Sign(a[2], b[2]) else MemCmp(a[3..], b[3..]);
    assert MemCmp(a[1..], b[1..]) == if a[1] != b[1] then Sign(a[1], b[1]) else MemCmp(a[2..], b[2..]);
  }

  function Sign(x: int, y: int): int { if x < y then -1 else 1 }

  lemma BigLess(a0: octet, a1: octet, a2: octet, a3: octet, b0: octet, b1: octet, b2: octet, b3: octet)
    ensures Big(a0, a1, a2, a3) < Big(b0, b1, b2, b3) <==>
      if a0 != b0 then a0 < b0 else if a1 != b1 then a1 < b1 else if a2 != b2 then a2 < b2 else a3 < b3
    ensures Big(a0, a1, a2, a3) == Big(b0, b1, b2, b3) <==> a0 == b0 && a1 == b1 && a2 == b2 && a3 == b3
  {
  }

  /** The order the bytes give: by kind, by port, by address, but kind and port count with
      their bytes in the opposite order, so it is the order of the ports only where
      swapping their bytes keeps it. */
  lemma ByteOrder(l: LocatorValue, m: LocatorValue)
    ensures var k, j := Swapped(Unsigned(l.kind)), Swapped(Unsigned(m.kind));
      var p, q := Swapped(l.port), Swapped(m.port);
      Less(l, m) <==>
        k < j || (k == j && (p < q || (p == q && MemCmp(l.address, m.address) < 0)))
  {
    var a, b := LittleEndian(Unsigned(l.kind)), LittleEndian(Unsigned(m.kind));
    var c, d := LittleEndian(l.port), LittleEndian(m.port);
    assert Layout(l) == a + (c + l.address) && Layout(m) == b + (d + m.address);
    MemCmpConcat(a, b, c + l.address, d + m.address);
    MemCmpConcat(c, d, l.address, m.address);
    MemCmpFour(Unsigned(l.kind), Unsigned(m.kind));
    MemCmpFour(l.port, m.port);
  }

  /** The first byte in which two locators differ decides. */
  lemma LessIff(l: LocatorValue, m: LocatorValue)
    ensures Less(l, m) <==>
      exists k :: 0 <= k < 24 && Layout(l)[k] < Layout(m)[k] && Layout(l)[..k] == Layout(m)[..k]
  {
    MemCmpFirst(Layout(l), Layout(m));
  }

  lemma {:induction false} MemCmpFirst(a: seq<octet>, b: seq<octet>)
    requires |a| == |b|
    ensures MemCmp(a, b) < 0 <==> exists k :: 0 <= k < |a| && a[k] < b[k] && a[..k] == b[..k]
  {
    if a != [] {
      MemCmpFirst(a[1..], b[1..]);
      if a[0] == b[0] {
        forall k | 0 <= k < |a| - 1 && a[1..][..k] == b[1..][..k] ensures a[..k + 1] == b[..k + 1] {
          assert a[..k + 1] == [a[0]] + a[1..][..k] && b[..k + 1] == [b[0]] + b[1..][..k];
        }
        forall k | 0 < k < |a| && a[..k] == b[..k] ensures a[1..][..k - 1] == b[1..][..k - 1] {
          assert a[1..][..k - 1] == a[..k][1..] && b[1..][..k - 1] == b[..k][1..];
        }
      } else {
        assert forall k :: 0 < k < |a| ==> a[..k][0] != b[..k][0];
      }
    }
  }

  /** The bytes themselves: kind and port with the low byte first and negative kinds in two's
      complement, then the address. */
  lemma LayoutBytes(l: LocatorValue)
    ensures var b := Layout(l);
      && Big(b[3], b[2], b[1], b[0]) == (if l.kind < 0 then l.kind + 0x1_0000_0000 else l.kind)
      && Big(b[7], b[6], b[5], b[4]) == l.port
      && b[8..] == l.address
  {
    LittleEndianValue(Unsigned(l.kind));
    LittleEndianValue(l.port);
  }

  /** The low byte of the kind comes first, whatever port and address are: small kinds stand
      in their order, and -1 behind them. */
  lemma KindOrder(l: LocatorValue, m: LocatorValue)
    requires l.kind % 256 < m.kind % 256
    ensures Less(l, m)
  {
    LessIff(l, m);
    assert Layout(l)[..0] == Layout(m)[..0];
    LowByte(l);
    LowByte(m);
  }

  lemma LowByte(l: LocatorValue)
    ensures Layout(l)[0] == l.kind % 256
  {
    assert l.kind < 0 ==> (l.kind + 256 * 0x100_0000) % 256 == l.kind % 256;
  }

  /** The lowest and the highest byte in which two numbers differ. */
  ghost predicate Differ(v: uint32, w: uint32, low: nat, high: nat) {
    var b, c := LittleEndian(v), LittleEndian(w);
    low <= high < 4 && b[low] != c[low] && b[high] != c[high] &&
    forall k :: 0 <= k < 4 && b[k] != c[k] ==> low <= k <= high
  }

  lemma DifferExists(v: uint32, w: uint32)
    ensures v != w <==> exists low, high :: Differ(v, w, low, high)
  {
    LittleEndianInjective(v, w);
    var b, c := LittleEndian(v), LittleEndian(w);
    if v != w {
      assert b == [b[0], b[1], b[2], b[3]] && c == [c[0], c[1], c[2], c[3]];
      var low := if b[0] != c[0] then 0 else if b[1] != c[1] then 1 else if b[2] != c[2] then 2 else 3;
      var high := if b[3] != c[3] then 3 else if b[2] != c[2] then 2 else if b[1] != c[1] then 1 else 0;
      assert Differ(v, w, low, high);
    }
  }

  /** The highest byte in which two numbers differ decides which is smaller. */
  lemma HighestDecides(v: uint32, w: uint32, low: nat, high: nat)
    requires Differ(v, w, low, high)
    ensures v < w <==> LittleEndian(v)[high] < LittleEndian(w)[high]
  {
    var b, c := LittleEndian(v), LittleEndian(w);
    LittleEndianValue(v);
    LittleEndianValue(w);
    assert v == Big(b[3], b[2], b[1], b[0]) && w == Big(c[3], c[2], c[1], c[0]);
    BigLess(b[3], b[2], b[1], b[0], c[3], c[2], c[1], c[0]);
  }

  /** The lowest decides the order of the numbers with their bytes swapped. */
  lemma LowestDecides(v: uint32, w: uint32, low: nat, high: nat)
    requires Differ(v, w, low, high)
    ensures Swapped(v) < Swapped(w) <==> LittleEndian(v)[low] < LittleEndian(w)[low]
  {
    var b, c := LittleEndian(v), LittleEndian(w);
    BigLess(b[0], b[1], b[2], b[3], c[0], c[1], c[2], c[3]);
  }

  /** Between locators of equal kind and address the lowest byte in which the ports differ
      decides, so `<` is the order of the ports exactly when the lowest and the highest such
      byte compare the same way: for 255 and 256 they do not. */
  lemma PortOrderIff(l: LocatorValue, m: LocatorValue, low: nat, high: nat)
    requires l.kind == m.kind && l.address == m.address && Differ(l.port, m.port, low, high)
    ensures var b, c := LittleEndian(l.port), LittleEndian(m.port);
      && (Less(l, m) <==> b[low] < c[low])
      && ((Less(l, m) <==> l.port < m.port) <==> (b[low] < c[low] <==> b[high] < c[high]))
    ensures l.port == 255 && m.port == 256 ==> l.port < m.port && Less(m, l)
  {
    ByteOrder(l, m);
    ByteOrder(m, l);
    MemCmpZero(l.address, m.address);
    LowestDecides(l.port, m.port, low, high);
    HighestDecides(l.port, m.port, low, high);
  }
}
