/** UDPv4Transport::normalize_locator and UDPv6Transport::normalize_locator. */
module Transports {
  import opened Text
  import opened IPv6Grammar
  import opened IPv6Gate
  import opened IPv6Reader
  import opened IPv6Text
  import opened Locators
  import opened LocatorLists
  import opened Normalize
  import IPv4
  import IPv6Meaning

  method IsAnyAddress(locator: LocatorValue) returns (any: bool)
    ensures any <==> IsAny(locator)
  {
    if locator.kind == KIND_UDPv4 || locator.kind == KIND_TCPv4 {
      var a := locator.address[12..];
      return a[0] == 0 && a[1] == 0 && a[2] == 0 && a[3] == 0;
    } else {
      return locator.address == ZERO_ADDRESS;
    }
  }

  /** setIPv4(dest, orig): the last four bytes of another locator. */
  method CopyIPv4(dest: Locator, orig: LocatorValue) returns (ok: bool)
    requires dest.Valid()
    modifies dest.address
    ensures dest.Value() == WithV4(old(dest.Value()), orig.address[12..])
    ensures ok <==> IsV4(dest.kind)
  {
    if dest.kind != KIND_TCPv4 && dest.kind != KIND_UDPv4 {
      return false;
    }
    dest.address[12] := orig.address[12];
    dest.address[13] := orig.address[13];
    dest.address[14] := orig.address[14];
    dest.address[15] := orig.address[15];
    assert dest.address[..] == old(dest.address[..12]) + orig.address[12..];
    return true;
  }

  /** setIPv6(dest, orig). */
  method CopyIPv6(dest: Locator, orig: LocatorValue) returns (ok: bool)
    requires dest.Valid()
    modifies dest.address
    ensures dest.Value() == WithV6(old(dest.Value()), orig.address)
    ensures ok <==> IsV6(dest.kind)
  {
    if dest.kind != KIND_TCPv6 && dest.kind != KIND_UDPv6 {
      return false;
    }
    for i := 0 to 16
      invariant dest.address[..i] == orig.address[..i]
    {
      dest.address[i] := orig.address[i];
    }
    assert dest.address[..] == dest.address[..16] && orig.address == orig.address[..16];
    return true;
  }

  /** setIPv4 with the text of the loopback address. */
  method SetLoopback4(locator: Locator)
    requires locator.Valid()
    modifies locator.address
    ensures locator.Value() == WithV4(old(locator.Value()), LOOPBACK4)
  {
    hide IPv4.IPv4Outcome;
    LoopbackText4(locator.Value());
    var ok := IPv4.SetIPv4(locator, "127.0.0.1");
  }

  /** setIPv6 with the text of the loopback address. */
  method SetLoopback6(locator: Locator)
    requires locator.Valid()
    modifies locator.address
    ensures locator.Value() == WithV6(old(locator.Value()), LOOPBACK6)
  {
    hide ReadText, StaysInside, Accepts, IsAddress, AddressPart, Expand, Bytes;
    LoopbackText6();
    var ok := SetIPv6(locator, "::1");
  }

  lemma OneTransport4(l: LocatorValue, interfaces: seq<LocatorValue>)
    ensures var env := Env([KIND_UDPv4], interfaces, []);
      l.kind == KIND_UDPv4 ==> forall x :: x in Expand4(l, interfaces) <==> Makes(env, l, x)
  {
    hide Expand4, Makes;
    forall x { OneMakes(Env([KIND_UDPv4], interfaces, []), l, x); }
  }

  lemma OneTransport6(l: LocatorValue, interfaces: seq<LocatorValue>)
    ensures var env := Env([KIND_UDPv6], [], interfaces);
      l.kind == KIND_UDPv6 ==> forall x :: x in Expand6(l, interfaces) <==> Makes(env, l, x)
  {
    hide Expand6, Makes;
    forall x { OneMakes(Env([KIND_UDPv6], [], interfaces), l, x); }
  }

  lemma NextCandidate(c: seq<LocatorValue>, i: nat)
    requires i < |c|
    ensures AddAll([], c[..i + 1]) == Add(AddAll([], c[..i]), c[i])
  {
    AddAllSnoc([], c[..i], c[i]);
    assert c[..i + 1] == c[..i] + [c[i]];
  }

  lemma NoCandidates(c: seq<LocatorValue>)
    ensures AddAll([], c[..0]) == []
  {
  }

  lemma AddSome(s: seq<LocatorValue>, x: LocatorValue)
    ensures Add(s, x) != [] && Add([], x) == [x]
  {
  }

  method NormalizeUDPv4(locator: LocatorValue, interfaces: seq<LocatorValue>) returns (list: LocatorList)
    ensures fresh(list) && list.Valid() && list.locators == Expand4(locator, interfaces)
    ensures var env := Env([KIND_UDPv4], interfaces, []);
      locator.kind == KIND_UDPv4 ==> forall x :: x in list.locators <==> Makes(env, locator, x)
  {
    hide Makes, WithV4, Candidates4, IsAny, AddAll, Add;
    OneTransport4(locator, interfaces);
    list := new LocatorList();
    var any := IsAnyAddress(locator);
    if any {
      ghost var c := Candidates4(locator, interfaces);
      NoCandidates(c);
      for i := 0 to |interfaces|
        invariant list.Valid() && list.locators == AddAll([], c[..i])
        invariant i > 0 ==> list.locators != []
      {
        var newloc := new Locator.Copy(locator);
        var ok := CopyIPv4(newloc, interfaces[i]);
        NextCandidate(c, i);
        AddSome(list.locators, c[i]);
        list.PushBack(newloc.Value());
      }
      assert c[..|interfaces|] == c;
      if list.locators == [] {
        var newloc := new Locator.Copy(locator);
        SetLoopback4(newloc);
        AddSome([], newloc.Value());
        list.PushBack(newloc.Value());
      }
    } else {
      AddSome([], locator);
      list.PushBack(locator);
    }
  }

  method NormalizeUDPv6(locator: LocatorValue, interfaces: seq<LocatorValue>) returns (list: LocatorList)
    ensures fresh(list) && list.Valid() && list.locators == Expand6(locator, interfaces)
    ensures var env := Env([KIND_UDPv6], [], interfaces);
      locator.kind == KIND_UDPv6 ==> forall x :: x in list.locators <==> Makes(env, locator, x)
  {
    hide Makes, WithV6, Candidates6, IsAny, AddAll, Add;
    OneTransport6(locator, interfaces);
    list := new LocatorList();
    var any := IsAnyAddress(locator);
    if any {
      ghost var c := Candidates6(locator, interfaces);
      NoCandidates(c);
      for i := 0 to |interfaces|
        invariant list.Valid() && list.locators == AddAll([], c[..i])
        invariant i > 0 ==> list.locators != []
      {
        var newloc := new Locator.Copy(locator);
        var ok := CopyIPv6(newloc, interfaces[i]);
        NextCandidate(c, i);
        AddSome(list.locators, c[i]);
        list.PushBack(newloc.Value());
      }
      assert c[..|interfaces|] == c;
      if list.locators == [] {
        var newloc := new Locator.Copy(locator);
        SetLoopback6(newloc);
        AddSome([], newloc.Value());
        list.PushBack(newloc.Value());
      }
    } else {
      AddSome([], locator);
      list.PushBack(locator);
    }
  }

  lemma LoopbackText4(l: LocatorValue)
    ensures IsV4(l.kind) ==>
      IPv4.IPv4Outcome(l.kind, l.address, "127.0.0.1") == Outcome(true, l.address[..12] + LOOPBACK4)
    ensures !IsV4(l.kind) ==>
      IPv4.IPv4Outcome(l.kind, l.address, "127.0.0.1") == Outcome(false, l.address)
  {
    hide IPv4.Dotted;
    var fs := ["127", "0", "0", "1"];
    assert IPv4.DotBefore(fs[3..]) == "." + "1" + "" by { assert fs[3..][1..] == []; }
    assert fs[1..][1..] == fs[2..] && fs[2..][1..] == fs[3..];
    assert IPv4.DotJoin(fs) == "127" + ("." + "0" + ("." + "0" + ("." + "1"))) == "127.0.0.1";
    IPv4.Value3("127");
    IPv4.Value3("0");
    IPv4.Value3("1");
    if IsV4(l.kind) {
      IPv4.RegexAccepted(l.kind, l.address, "127.0.0.1", fs);
      var r := IPv4.IPv4Outcome(l.kind, l.address, "127.0.0.1");
      assert r.address == r.address[..12] + r.address[12..];
      assert r.address[12 + 0] == 127 && r.address[12 + 1] == 0 && r.address[12 + 2] == 0 && r.address[12 + 3] == 1;
      assert r.address[12..] == LOOPBACK4;
    }
  }

  lemma LoopbackText6()
    ensures IsAddress("::1") && AddressPart("::1") == "::1"
    ensures Accepts("::1") && StaysInside("::1")
    ensures Bytes(Expand("::1")) == LOOPBACK6
  {
    hide ReadText, Expand, Bytes, AddressPart, Accepts, StaysInside;
    var qs := ["1"];
    assert Join(qs) == "1" && Join([]) + "::" + Join(qs) == "::1";
    assert IsForm2("::1", [], qs);
    ExpandForm2([], qs);
    IPv6Meaning.ReadAddress("::1", "");
    assert "::1" + "" == "::1";
    LoopbackBytes(qs);
  }

  lemma LoopbackBytes(qs: seq<string>)
    requires qs == ["1"]
    ensures Bytes(Values([]) + Zeros(7) + Values(qs)) == LOOPBACK6
  {
    assert GroupValue("1") == 1;
    assert Values([]) + Zeros(7) + Values(qs) == Zeros(7) + [1];
    BytesConcat(Zeros(7), [1]);
    BytesZero(Zeros(7));
    assert Bytes([1]) == [0, 1];
  }
}
