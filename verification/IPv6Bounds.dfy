/** When the reader stays inside the sixteen bytes. The gate bounds the colons of the address
    only; the arithmetic also counts those of the zone. */
module IPv6Bounds {
  import opened Text
  import opened CharStream
  import opened IPv6Grammar
  import opened IPv6Gate
  import opened IPv6Text
  import opened IPv6Meaning

  /** The first `m` numbers of the text, read like groups, have at most 16 bits. */
  predicate NumbersFit(s: string, m: nat) {
    |TakeAfter(State(s, false), 0, m).groups| == m
  }

  lemma {:induction false} TakeAfterPrefix(s: State, v: nat, m: nat, n: nat)
    requires m <= n
    ensures var k := |TakeAfter(s, v, n).groups|;
      |TakeAfter(s, v, m).groups| == if k < m then k else m
    decreases n
  {
    hide TakeHex, TakeChar;
    if m > 0 {
      var (u, w) := TakeHex(s, v);
      if w < 65536 { TakeAfterPrefix(TakeChar(u), w, m - 1, n - 1); }
    }
  }

  lemma MiddleInsideIff(s: string, p: nat, z: nat)
    ensures MiddleInside(s, p, z) <==> p + z <= 8 || !NumbersFit(s, if p <= 8 then p else 9)
  {
    if p > 8 { TakeAfterPrefix(State(s, false), 0, 9, p); }
  }

  /** Sizes are even 16-bit numbers, so the colons count modulo 2^15. */
  function Mod15(x: int): (r: nat)
    ensures r < 32768
    ensures 0 <= x < 32768 ==> r == x
    ensures -32768 <= x < 0 ==> r == x + 32768
  {
    x % 32768
  }

  lemma Mod15Unique(x: int, m: int, t: int)
    requires x == 32768 * m + t && 0 <= t < 32768
    ensures Mod15(x) == t
  {
  }

  lemma Mod15Minus(a: int, x: int)
    ensures Mod15(a - x) == Mod15(a - Mod15(x))
  {
    var q, r := x / 32768, x % 32768;
    var m, t := (a - r) / 32768, (a - r) % 32768;
    assert a - x == 32768 * (m - q) + t;
    Mod15Unique(a - x, m - q, t);
  }

  /** A doubled size in 16 bits is the doubled size modulo 2^15. */
  lemma DoubledSize(a: int, colons: nat)
    ensures U16((a - U16(colons)) * 2) == 2 * Mod15(a - colons)
  {
    var q, r := colons / 65536, colons % 65536;
    var m, t := (a - r) / 32768, (a - r) % 32768;
    assert (a - r) * 2 == 65536 * m + 2 * t;
    Mod15Unique(a - colons, m - 2 * q, t);
  }

  lemma DoubledPosition(k: nat)
    ensures U16(2 * k) == 2 * Mod15(k)
  {
    var q, r := k / 32768, k % 32768;
    assert 2 * k == 65536 * q + 2 * r;
  }

  /** The texts that send the reader beyond the array: those with a zero block at the start,
      and those with one in the middle all of whose groups before it can be read, when the
      sizes computed from the colons are too large. */
  ghost predicate Overruns(s: string)
    requires s != ""
  {
    var c := Mod15(Colons(s));
    s[|s| - 1] != ':' &&
    if s[0] == ':' then !(1 <= c <= 9)
    else
      HasDouble(s) && c != 8 &&
      var k, z := Mod15(Colons(s[..FirstDouble(s) + 1])), Mod15(8 - c);
      k + z > 8 && NumbersFit(s, if k <= 8 then k else 9)
  }

  /** The block with its sizes in groups. */
  lemma BlockSizesModulo(s: string)
    requires s != ""
    ensures var c, front, back := Mod15(Colons(s)), s[0] == ':', s[|s| - 1] == ':';
      var edge, middle := Mod15(9 - c), Mod15(8 - c);
      BlockOf(s) ==
      if front && back then Leading(16)
      else if front then (if edge == 0 then NoBlock else Leading(2 * edge))
      else if back then (if edge == 0 then NoBlock else Trailing(2 * edge))
      else if !HasDouble(s) || middle == 0 then NoBlock
      else Middle(2 * Mod15(Colons(s[..FirstDouble(s) + 1])), 2 * middle)
  {
    hide U16, Mod15, Colons;
    var colons := Colons(s);
    DoubledSize(9, colons);
    DoubledSize(8, colons);
    Mod15Minus(9, colons);
    Mod15Minus(8, colons);
    if HasDouble(s) { DoubledPosition(Colons(s[..FirstDouble(s) + 1])); }
  }

  /** The exact condition, for every text. */
  lemma OverrunIff(s: string)
    requires s != ""
    ensures StaysInside(s) <==> !Overruns(s)
  {
    hide BlockOf, MiddleInside, NumbersFit, Mod15, Colons;
    BlockSizesModulo(s);
    if HasDouble(s) {
      MiddleInsideIff(s, Mod15(Colons(s[..FirstDouble(s) + 1])), Mod15(8 - Mod15(Colons(s))));
    }
  }

  /** Without the wrap-around of the sizes: more than nine colons for a block at the start,
      more than eight for one in the middle. */
  lemma OverrunColons(s: string)
    requires s != "" && Colons(s) < 32768
    ensures Overruns(s) <==>
      s[|s| - 1] != ':' &&
      if s[0] == ':' then Colons(s) > 9
      else
        HasDouble(s) && Colons(s) > 8 &&
        var k := Colons(s[..FirstDouble(s) + 1]);
        NumbersFit(s, if k <= 8 then k else 9)
  {
    hide NumbersFit, Colons, Mod15;
    NoColons(s);
    if s[0] != ':' && HasDouble(s) { ColonsAround(s, FirstDouble(s)); }
  }

  /** Colons, first "::" and both ends of a form-2 address with any zone. */
  lemma {:induction false} Form2ZoneShape(ps: seq<string>, qs: seq<string>, r: string)
    requires Groups(ps) && Groups(qs) && |ps| + |qs| <= 7
    requires r == "" || r[0] == '%'
    ensures var s := Join(ps) + "::" + Join(qs) + r;
      && Accepts(s) && s != "" && HasDouble(s) && FirstDouble(s) == |Join(ps)|
      && Colons(s) == (if ps == [] then 0 else |ps| - 1) + 2 + (if qs == [] then 0 else |qs| - 1) + Colons(r)
      && (s[0] == ':' <==> ps == [])
      && (s[|s| - 1] == ':' <==> if r == "" then qs == [] else r[|r| - 1] == ':')
  {
    hide Colons, Join, Groups, AddressPart, Short, StaysInside;
    var a := Join(ps) + "::" + Join(qs);
    assert IsForm2(a, ps, qs);
    NoPercent(a);
    AddressPartTail(a, r);
    Form2Shape(ps, qs, "");
    assert a + "" == a;
    ColonsConcat(a, r);
    FirstDoubleZone(a, r);
  }

  lemma FirstDoubleZone(a: string, r: string)
    requires HasDouble(a) && (r == "" || r[0] == '%')
    ensures var s := a + r;
      && HasDouble(s) && FirstDouble(s) == FirstDouble(a) && s[0] == a[0]
      && s[|s| - 1] == if r == "" then a[|a| - 1] else r[|r| - 1]
  {
    var s, d := a + r, FirstDouble(a);
    assert DoubleAt(s, d);
    assert forall i :: DoubleAt(s, i) && i < d ==> DoubleAt(a, i);
  }

  /** For an address with "::" the numbers in front of it always fit, so the colons alone
      decide, those of any zone included. */
  lemma {:induction false} Form2Inside(ps: seq<string>, qs: seq<string>, r: string)
    requires Groups(ps) && Groups(qs) && |ps| + |qs| <= 7
    requires r == "" || r[0] == '%'
    requires Colons(Join(ps) + "::" + Join(qs) + r) < 32768
    ensures var s := Join(ps) + "::" + Join(qs) + r;
      && Accepts(s) && s != ""
      && (StaysInside(s) <==> s[|s| - 1] == ':' || Colons(s) <= if ps == [] then 9 else 8)
  {
    hide StaysInside, Accepts, Colons, Join, NumbersFit, Groups;
    var s := Join(ps) + "::" + Join(qs) + r;
    Form2ZoneShape(ps, qs, r);
    OverrunIff(s);
    OverrunColons(s);
    if ps != [] {
      GroupsBeforeDouble(ps, Join(qs) + r);
      assert s == Join(ps) + "::" + (Join(qs) + r);
    }
  }

  lemma {:induction false} GroupsBeforeDouble(ps: seq<string>, rest: string)
    requires Groups(ps) && ps != []
    ensures var s := Join(ps) + "::" + rest;
      Colons(s[..|Join(ps)| + 1]) == |ps| && NumbersFit(s, |ps|)
  {
    hide TakeAfter, Join, After;
    JoinAfter(ps);
    Regroup(Join(ps), "", rest);
    var s := Join(ps) + "::" + rest;
    assert s == After(ps) + (":" + rest);
    TakeAfterAll(ps, ":" + rest, 0);
    assert s[..|Join(ps)| + 1] == Join(ps) + ":";
    GroupsClean(ps);
    ColonsJoin(ps);
    ColonsConcat(Join(ps), ":");
  }

  /** A text the gate accepts and the reader cannot store. */
  lemma OverrunExample()
    ensures Accepts("1::2%a:b:c:d:e:f:g:h") && !StaysInside("1::2%a:b:c:d:e:f:g:h")
  {
    hide StaysInside, Accepts, Colons;
    var r := "%a:b:c:d:e:f:g:h";
    ZoneColons();
    OneGroup("1");
    OneGroup("2");
    assert "1" + "::" + "2" + r == "1::2%a:b:c:d:e:f:g:h";
    Form2ZoneShape(["1"], ["2"], r);
    Form2Inside(["1"], ["2"], r);
  }

  lemma OneGroup(f: string)
    requires Group(f)
    ensures Groups([f]) && Join([f]) == f
  {
    assert Before([]) == "" && [f][1..] == [];
    assert f + "" == f;
  }

  lemma ZoneColons()
    ensures Colons("%a:b:c:d:e:f:g:h") == 7
  {
    hide Colons, Before;
    var fs := ["b", "c", "d", "e", "f", "g", "h"];
    ExampleZone(fs);
    NoColons("%a");
    ColonsBefore(fs);
    ColonsConcat("%a", Before(fs));
    assert "%a" + ":b:c:d:e:f:g:h" == "%a:b:c:d:e:f:g:h";
  }

  lemma ExampleZone(fs: seq<string>)
    requires fs == ["b", "c", "d", "e", "f", "g", "h"]
    ensures Before(fs) == ":b:c:d:e:f:g:h"
  {
    assert Before(fs[7..]) == "" && fs[6..][1..] == fs[7..];
    assert Before(fs[6..]) == ":h" && fs[5..][1..] == fs[6..];
    assert Before(fs[5..]) == ":g:h" && fs[4..][1..] == fs[5..];
    assert Before(fs[4..]) == ":f:g:h" && fs[3..][1..] == fs[4..];
    assert Before(fs[3..]) == ":e:f:g:h" && fs[2..][1..] == fs[3..];
    assert Before(fs[2..]) == ":d:e:f:g:h" && fs[1..][1..] == fs[2..];
    assert Before(fs[1..]) == ":c:d:e:f:g:h";
  }
}
