/** Locator normalization: what each transport makes of a wildcard, and what the factory
    makes of a list. The interfaces of the machine are a fixed oracle. */
module Normalize {
  import opened Locators
  import opened LocatorLists

  /** The registered kinds in order, and the interface locators the system reports. */
  datatype Env = Env(kinds: seq<int32>, v4: seq<LocatorValue>, v6: seq<LocatorValue>)

  /** The transports of the repository: registered kinds beyond these two belong to
      transports whose rewriting is not known here. */
  predicate Known(env: Env) {
    forall k :: k in env.kinds ==> k == KIND_UDPv4 || k == KIND_UDPv6
  }

  const LOOPBACK4: seq<octet> := [127, 0, 0, 1]
  const LOOPBACK6: seq<octet> := [0, 0, 0, 0, 0, 0, 0, 0, 0, 0, 0, 0, 0, 0, 0, 1]

  predicate AllZero(b: seq<octet>) { forall i :: 0 <= i < |b| ==> b[i] == 0 }

  /** IPLocator::isAny. */
  predicate IsAny(l: LocatorValue) {
    if IsV4(l.kind) then AllZero(l.address[12..]) else AllZero(l.address)
  }

  /** setIPv4 with the four bytes of another locator: refused for other kinds. */
  function WithV4(l: LocatorValue, four: seq<octet>): LocatorValue
    requires |four| == 4
  {
    if IsV4(l.kind) then l.(address := l.address[..12] + four) else l
  }

  function WithV6(l: LocatorValue, sixteen: seq<octet>): LocatorValue
    requires |sixteen| == 16
  {
    if IsV6(l.kind) then l.(address := sixteen) else l
  }

  function Candidates4(l: LocatorValue, interfaces: seq<LocatorValue>): (c: seq<LocatorValue>)
    ensures |c| == |interfaces|
    ensures forall i :: 0 <= i < |c| ==> c[i] == WithV4(l, interfaces[i].address[12..])
  {
    seq(|interfaces|, i requires 0 <= i < |interfaces| => WithV4(l, interfaces[i].address[12..]))
  }

  function Candidates6(l: LocatorValue, interfaces: seq<LocatorValue>): (c: seq<LocatorValue>)
    ensures |c| == |interfaces|
    ensures forall i :: 0 <= i < |c| ==> c[i] == WithV6(l, interfaces[i].address)
  {
    seq(|interfaces|, i requires 0 <= i < |interfaces| => WithV6(l, interfaces[i].address))
  }

  /** UDPv4Transport::normalize_locator. */
  function Expand4(l: LocatorValue, interfaces: seq<LocatorValue>): seq<LocatorValue> {
    if !IsAny(l) then [l]
    else if interfaces == [] then [WithV4(l, LOOPBACK4)]
    else AddAll([], Candidates4(l, interfaces))
  }

  /** UDPv6Transport::normalize_locator. */
  function Expand6(l: LocatorValue, interfaces: seq<LocatorValue>): seq<LocatorValue> {
    if !IsAny(l) then [l]
    else if interfaces == [] then [WithV6(l, LOOPBACK6)]
    else AddAll([], Candidates6(l, interfaces))
  }

  /** What the first transport that supports a locator makes of it. */
  function One(env: Env, l: LocatorValue): seq<LocatorValue> {
    if l.kind !in env.kinds then [l]
    else if l.kind == KIND_UDPv4 then Expand4(l, env.v4)
    else Expand6(l, env.v6)
  }

  function Flat(env: Env, ls: seq<LocatorValue>): seq<LocatorValue> {
    if ls == [] then [] else One(env, ls[0]) + Flat(env, ls[1..])
  }

  function Normalized(env: Env, ls: seq<LocatorValue>): seq<LocatorValue> {
    AddAll([], Flat(env, ls))
  }

  lemma {:induction false} FlatConcat(env: Env, ls: seq<LocatorValue>, ms: seq<LocatorValue>)
    ensures Flat(env, ls + ms) == Flat(env, ls) + Flat(env, ms)
  {
    if ls == [] {
      assert ls + ms == ms;
    } else {
      assert (ls + ms)[1..] == ls[1..] + ms;
      FlatConcat(env, ls[1..], ms);
    }
  }

  lemma FlatSnoc(env: Env, ls: seq<LocatorValue>, l: LocatorValue)
    ensures Flat(env, ls + [l]) == Flat(env, ls) + One(env, l)
    ensures Normalized(env, ls + [l]) == AddAll(Normalized(env, ls), One(env, l))
  {
    FlatConcat(env, ls, [l]);
    FlatOne(env, l);
    AddAllConcat([], Flat(env, ls), One(env, l));
  }

  // ----- one locator -----

  /** The four or sixteen bytes a transport would write, without the rest. */
  function Rewrite(l: LocatorValue, interface: LocatorValue): LocatorValue {
    if l.kind == KIND_UDPv4 then WithV4(l, interface.address[12..]) else WithV6(l, interface.address)
  }

  function Interfaces(env: Env, kind: int32): seq<LocatorValue> {
    if kind == KIND_UDPv4 then env.v4 else env.v6
  }

  function Loopback(l: LocatorValue): LocatorValue {
    if l.kind == KIND_UDPv4 then WithV4(l, LOOPBACK4) else WithV6(l, LOOPBACK6)
  }

  predicate Wildcard(env: Env, l: LocatorValue) { l.kind in env.kinds && IsAny(l) }

  lemma OneElements(env: Env, l: LocatorValue, x: LocatorValue)
    requires Known(env)
    ensures x in One(env, l) <==>
      if !Wildcard(env, l) then x == l
      else if Interfaces(env, l.kind) == [] then x == Loopback(l)
      else exists i :: i in Interfaces(env, l.kind) && x == Rewrite(l, i)
  {
    if Wildcard(env, l) {
      var interfaces := Interfaces(env, l.kind);
      var c := if l.kind == KIND_UDPv4 then Candidates4(l, interfaces) else Candidates6(l, interfaces);
      AddAllIs([], c);
      if x in c {
        var k :| 0 <= k < |c| && c[k] == x;
        assert interfaces[k] in interfaces && x == Rewrite(l, interfaces[k]);
      }
      if i :| i in interfaces && x == Rewrite(l, i) {
        var k :| 0 <= k < |interfaces| && interfaces[k] == i;
        assert c[k] == x;
      }
    }
  }

  /** `x` is among what normalization makes of `l`, in terms of the bytes: UDPv4 looks at the
      last four, UDPv6 at all sixteen, and where they are zero those of an interface, or of
      the loopback address, take their place. */
  ghost predicate Makes(env: Env, l: LocatorValue, x: LocatorValue) {
    if KIND_UDPv4 in env.kinds && l.kind == KIND_UDPv4 && l.address[12..] == [0, 0, 0, 0] then
      if env.v4 == [] then x == l.(address := l.address[..12] + [127, 0, 0, 1])
      else exists i :: i in env.v4 && x == l.(address := l.address[..12] + i.address[12..])
    else if KIND_UDPv6 in env.kinds && l.kind == KIND_UDPv6 &&
      l.address == [0, 0, 0, 0, 0, 0, 0, 0, 0, 0, 0, 0, 0, 0, 0, 0]
    then
      if env.v6 == [] then x == l.(address := [0, 0, 0, 0, 0, 0, 0, 0, 0, 0, 0, 0, 0, 0, 0, 1])
      else exists i :: i in env.v6 && x == l.(address := i.address)
    else x == l
  }

  lemma IsAnyIff(l: LocatorValue)
    ensures IsV4(l.kind) ==> (IsAny(l) <==> l.address[12..] == [0, 0, 0, 0])
    ensures !IsV4(l.kind) ==> (IsAny(l) <==> l.address == [0, 0, 0, 0, 0, 0, 0, 0, 0, 0, 0, 0, 0, 0, 0, 0])
  {
  }

  /** What one locator becomes. */
  lemma OneMakes(env: Env, l: LocatorValue, x: LocatorValue)
    requires Known(env)
    ensures x in One(env, l) <==> Makes(env, l, x)
  {
    hide IsAny, One;
    IsAnyIff(l);
    OneElements(env, l, x);
    assert LOOPBACK4 == [127, 0, 0, 1] && LOOPBACK6 == [0, 0, 0, 0, 0, 0, 0, 0, 0, 0, 0, 0, 0, 0, 0, 1];
    if Wildcard(env, l) {
      forall i ensures Rewrite(l, i) ==
        if l.kind == KIND_UDPv4 then l.(address := l.address[..12] + i.address[12..]) else l.(address := i.address)
      {
      }
    }
  }

  /** A rewritten wildcard keeps kind and port; it is a wildcard again only when nothing
      changed. */
  lemma RewriteKeeps(env: Env, l: LocatorValue, x: LocatorValue)
    requires Known(env) && x in One(env, l)
    ensures x.kind == l.kind && x.port == l.port
    ensures l.kind == KIND_UDPv4 ==> x.address[..12] == l.address[..12]
    ensures Wildcard(env, x) ==> x == l
    ensures x == l || One(env, x) == [x]
  {
    OneElements(env, l, x);
    if Wildcard(env, l) && Wildcard(env, x) {
      if x.kind == KIND_UDPv4 {
        assert x.address == x.address[..12] + x.address[12..];
        assert l.address == l.address[..12] + l.address[12..];
        assert x.address[12..] == l.address[12..];
      } else {
        assert x.address == l.address;
      }
    }
  }

  // ----- idempotence -----

  lemma {:induction false} AddAllPrefix<T>(s: seq<T>, xs: seq<T>)
    ensures s <= AddAll(s, xs)
    decreases |xs|
  {
    if xs != [] { AddAllPrefix(Add(s, xs[0]), xs[1..]); }
  }

  /** Adding can be resumed from any intermediate state with the whole input. */
  lemma {:induction false} AddAllResume<T>(s: seq<T>, t: seq<T>, xs: seq<T>)
    requires s <= t <= AddAll(s, xs)
    ensures AddAll(t, xs) == AddAll(s, xs)
    decreases |xs|
  {
    if xs != [] && s != t {
      var s' := Add(s, xs[0]);
      AddAllPrefix(s', xs[1..]);
      if xs[0] !in s {
        assert t[|s|] == xs[0];
      }
      assert Add(t, xs[0]) == t;
      AddAllResume(s', t, xs[1..]);
    }
  }

  /** Adding what normalization makes of `x` to a list that lies between `base` and `all`. */
  lemma AddOne(env: Env, base: seq<LocatorValue>, all: seq<LocatorValue>, l: LocatorValue,
    s: seq<LocatorValue>, x: LocatorValue)
    requires base <= s <= all && Distinct(all) && AddAll(base, One(env, l)) == all
    requires x == l || One(env, x) == [x]
    ensures x == l ==> AddAll(s, One(env, x)) == all
    ensures x != l ==> AddAll(s, One(env, x)) == Add(s, x)
  {
    hide One;
    if x == l {
      AddAllResume(base, s, One(env, l));
    } else {
      assert [x][1..] == [];
    }
  }

  /** Normalizing again the first `k` of the locators that were added to `base` for `l`. */
  lemma {:induction false} NormalizeAdded(env: Env, base: seq<LocatorValue>, all: seq<LocatorValue>,
    l: LocatorValue, k: nat)
    requires base <= all && |base| + k <= |all|
    requires Distinct(all) && AddAll(base, One(env, l)) == all
    requires forall x :: x in all[|base|..] ==> x == l || One(env, x) == [x]
    ensures AddAll(base, Flat(env, all[|base|..|base| + k])) ==
            if l in all[|base|..|base| + k] then all else all[..|base| + k]
  {
    hide One, AddAll, Flat, Distinct;
    var n := |base|;
    if k == 0 {
      assert all[n..n] == [] && all[..n] == base;
      AddNothing(env, base);
    } else {
      NormalizeAdded(env, base, all, l, k - 1);
      var before, x := all[n..n + k - 1], all[n + k - 1];
      assert all[n..n + k] == before + [x];
      assert all[n..][k - 1] == x;
      FlatConcat(env, before, [x]);
      FlatOne(env, x);
      AddAllConcat(base, Flat(env, before), One(env, x));
      AddOne(env, base, all, l, AddAll(base, Flat(env, before)), x);
      var s := all[..n + k - 1];
      NotBefore(all, n + k - 1);
      assert all[..n + k] == s + [x];
    }
  }

  lemma NotBefore<T>(s: seq<T>, i: nat)
    requires Distinct(s) && i < |s|
    ensures s[i] !in s[..i]
  {
  }

  lemma AddNothing(env: Env, s: seq<LocatorValue>)
    ensures AddAll(s, Flat(env, [])) == s
  {
  }

  lemma FlatOne(env: Env, x: LocatorValue)
    ensures Flat(env, [x]) == One(env, x)
  {
    assert [x][1..] == [];
    assert One(env, x) + [] == One(env, x);
  }

  /** Normalizing a normalized list changes nothing, not even the order, whatever the
      interfaces are. */
  lemma {:induction false} NormalizeIdempotent(env: Env, ls: seq<LocatorValue>)
    requires Known(env)
    ensures Normalized(env, Normalized(env, ls)) == Normalized(env, ls)
  {
    hide Normalized;
    if ls == [] {
      NormalizedNone(env);
    } else {
      var init, l := ls[..|ls| - 1], ls[|ls| - 1];
      assert ls == init + [l];
      NormalizeIdempotent(env, init);
      NormalizeNext(env, init, l);
    }
  }

  lemma NormalizedNone(env: Env)
    ensures Normalized(env, []) == []
  {
  }

  lemma NormalizeNext(env: Env, ls: seq<LocatorValue>, l: LocatorValue)
    requires Known(env) && Normalized(env, Normalized(env, ls)) == Normalized(env, ls)
    ensures Normalized(env, Normalized(env, ls + [l])) == Normalized(env, ls + [l])
  {
    hide One, AddAll, Flat;
    AddAllIs([], Flat(env, ls));
    FlatSnoc(env, ls, l);
    NormalizeGrown(env, Normalized(env, ls), l);
  }

  lemma NormalizeGrown(env: Env, base: seq<LocatorValue>, l: LocatorValue)
    requires Known(env) && Distinct(base) && Normalized(env, base) == base
    ensures var all := AddAll(base, One(env, l)); Normalized(env, all) == all
  {
    hide One, AddAll, Flat, Normalized, Known;
    var all := AddAll(base, One(env, l));
    AddAllIs(base, One(env, l));
    AddAllPrefix(base, One(env, l));
    AddedFromOne(env, base, all, l);
    var k := |all| - |base|;
    NormalizeAdded(env, base, all, l, k);
    assert |base| + k == |all| && all[..|base| + k] == all;
    NormalizeResume(env, base, all);
  }

  lemma NormalizeResume(env: Env, base: seq<LocatorValue>, all: seq<LocatorValue>)
    requires base <= all && Normalized(env, base) == base
    requires AddAll(base, Flat(env, all[|base|..|all|])) == all
    ensures Normalized(env, all) == all
  {
    hide AddAll, Flat;
    var rest := all[|base|..|all|];
    assert all == base + rest;
    FlatConcat(env, base, rest);
    AddAllConcat([], Flat(env, base), Flat(env, rest));
  }

  lemma AddedFromOne(env: Env, base: seq<LocatorValue>, all: seq<LocatorValue>, l: LocatorValue)
    requires Known(env) && base <= all && Distinct(all)
    requires forall x :: x in all <==> x in base || x in One(env, l)
    ensures forall x :: x in all[|base|..] ==> x == l || One(env, x) == [x]
  {
    hide One;
    forall x | x in all[|base|..] ensures x == l || One(env, x) == [x] {
      var k :| 0 <= k < |all| - |base| && all[|base|..][k] == x;
      assert all[|base| + k] == x;
      assert x !in base;
      RewriteKeeps(env, l, x);
    }
  }

  // ----- what a normalized list holds -----

  lemma {:induction false} FlatElements(env: Env, ls: seq<LocatorValue>, x: LocatorValue)
    ensures x in Flat(env, ls) <==> exists l :: l in ls && x in One(env, l)
  {
    if ls != [] {
      FlatElements(env, ls[1..], x);
      assert ls == [ls[0]] + ls[1..];
    }
  }

  /** What a list becomes. */
  lemma NormalizedMakes(env: Env, ls: seq<LocatorValue>)
    requires Known(env)
    ensures forall x :: x in Normalized(env, ls) <==> exists l :: l in ls && Makes(env, l, x)
  {
    hide One, Makes;
    AddAllIs([], Flat(env, ls));
    forall x ensures x in Normalized(env, ls) <==> exists l :: l in ls && Makes(env, l, x) {
      FlatElements(env, ls, x);
      if l :| l in ls && x in One(env, l) { OneMakes(env, l, x); }
      if l :| l in ls && Makes(env, l, x) { OneMakes(env, l, x); }
    }
  }

  /** Order: a list is normalized part by part, and what an earlier part gives comes first. */
  lemma NormalizedConcat(env: Env, ls: seq<LocatorValue>, ms: seq<LocatorValue>)
    ensures Normalized(env, ls + ms) == FirstOccurrences(Normalized(env, ls) + Normalized(env, ms))
  {
    hide Flat, One;
    FlatConcat(env, ls, ms);
    AddAllConcat([], Flat(env, ls), Flat(env, ms));
    AddAllIs([], Flat(env, ls));
    AddAllIs(Normalized(env, ls), Normalized(env, ms));
    AddAllTwice(Normalized(env, ls), Flat(env, ms));
  }

  lemma {:induction false} AddAllTwice<T>(s: seq<T>, xs: seq<T>)
    ensures AddAll(s, AddAll([], xs)) == AddAll(s, xs)
    decreases |xs|
  {
    if xs != [] {
      var init, last := xs[..|xs| - 1], xs[|xs| - 1];
      assert xs == init + [last];
      AddAllTwice(s, init);
      AddAllSnoc([], init, last);
      AddAllSnoc(s, init, last);
      AddAllIs([], init);
      if last in init {
        assert last in AddAll([], init);
        AddAllHas(s, init, last);
      } else {
        AddAllSnoc(s, AddAll([], init), last);
      }
    }
  }

  lemma {:induction false} AddAllHas<T>(s: seq<T>, xs: seq<T>, x: T)
    requires x in s || x in xs
    ensures x in AddAll(s, xs)
    decreases |xs|
  {
    if xs != [] {
      assert xs == [xs[0]] + xs[1..];
      AddAllHas(Add(s, xs[0]), xs[1..], x);
    }
  }

  /** Order within what one locator becomes: that of the interfaces. `c` lists the wildcard
      with the address of each interface. */
  lemma NormalizedV4(env: Env, l: LocatorValue, c: seq<LocatorValue>)
    requires KIND_UDPv4 in env.kinds && l.kind == KIND_UDPv4 && l.address[12..] == [0, 0, 0, 0]
    requires |c| == |env.v4| > 0
    requires forall i :: 0 <= i < |c| ==> c[i] == l.(address := l.address[..12] + env.v4[i].address[12..])
    ensures Normalized(env, [l]) == FirstOccurrences(c)
  {
    hide IsAny, AddAll, Normalized, FirstOccurrences;
    IsAnyIff(l);
    assert Candidates4(l, env.v4) == c;
    OneInOrder(env, l, c);
  }

  lemma NormalizedV6(env: Env, l: LocatorValue, c: seq<LocatorValue>)
    requires KIND_UDPv6 in env.kinds && l.kind == KIND_UDPv6
    requires l.address == [0, 0, 0, 0, 0, 0, 0, 0, 0, 0, 0, 0, 0, 0, 0, 0]
    requires |c| == |env.v6| > 0
    requires forall i :: 0 <= i < |c| ==> c[i] == l.(address := env.v6[i].address)
    ensures Normalized(env, [l]) == FirstOccurrences(c)
  {
    hide IsAny, AddAll, Normalized, FirstOccurrences;
    IsAnyIff(l);
    assert Candidates6(l, env.v6) == c;
    OneInOrder(env, l, c);
  }

  lemma OneInOrder(env: Env, l: LocatorValue, c: seq<LocatorValue>)
    requires One(env, l) == AddAll([], c)
    ensures Normalized(env, [l]) == FirstOccurrences(c)
  {
    hide One;
    FlatOne(env, l);
    AddAllTwice([], c);
    AddAllIs([], c);
    assert [] + c == c;
  }

  /** The wildcard "::" without any interface becomes ::1. */
  lemma LoopbackExample(port: uint32)
    ensures var env := Env([KIND_UDPv4, KIND_UDPv6], [], []);
      Known(env) &&
      Normalized(env, [LocatorData(2, port, [0, 0, 0, 0, 0, 0, 0, 0, 0, 0, 0, 0, 0, 0, 0, 0])]) ==
        [LocatorData(2, port, [0, 0, 0, 0, 0, 0, 0, 0, 0, 0, 0, 0, 0, 0, 0, 1])]
  {
    var env := Env([KIND_UDPv4, KIND_UDPv6], [], []);
    var l: LocatorValue := LocatorData(2, port, [0, 0, 0, 0, 0, 0, 0, 0, 0, 0, 0, 0, 0, 0, 0, 0]);
    var x: LocatorValue := LocatorData(2, port, [0, 0, 0, 0, 0, 0, 0, 0, 0, 0, 0, 0, 0, 0, 0, 1]);
    assert One(env, l) == [x];
    OnlyOne(env, l, x);
  }

  lemma OnlyOne(env: Env, l: LocatorValue, x: LocatorValue)
    requires One(env, l) == [x]
    ensures Normalized(env, [l]) == [x]
  {
    hide One;
    FlatOne(env, l);
    AddAllOne([], x);
    assert Add([], x) == [x];
  }

  /** No duplicates; every locator comes from one of the same kind and port; and no source
      is lost. */
  lemma NormalizedSources(env: Env, ls: seq<LocatorValue>)
    requires Known(env)
    ensures Distinct(Normalized(env, ls))
    ensures forall x :: x in Normalized(env, ls) ==>
      exists l :: l in ls && x in One(env, l) && x.kind == l.kind && x.port == l.port
    ensures forall l :: l in ls ==>
      exists x :: x in Normalized(env, ls) && x in One(env, l) && x.kind == l.kind && x.port == l.port
  {
    AddAllIs([], Flat(env, ls));
    forall x | x in Normalized(env, ls)
      ensures exists l :: l in ls && x in One(env, l) && x.kind == l.kind && x.port == l.port
    {
      FlatElements(env, ls, x);
      var l :| l in ls && x in One(env, l);
      RewriteKeeps(env, l, x);
    }
    forall l | l in ls
      ensures exists x :: x in Normalized(env, ls) && x in One(env, l) && x.kind == l.kind && x.port == l.port
    {
      var x := Witness(env, l);
      FlatElements(env, ls, x);
      RewriteKeeps(env, l, x);
    }
  }

  lemma Witness(env: Env, l: LocatorValue) returns (x: LocatorValue)
    requires Known(env)
    ensures x in One(env, l)
  {
    var interfaces := Interfaces(env, l.kind);
    x := if !Wildcard(env, l) then l else if interfaces == [] then Loopback(l) else Rewrite(l, interfaces[0]);
    OneElements(env, l, x);
  }

  /** An interface without an address of its own. */
  predicate HasZeroInterface(env: Env, kind: int32) {
    exists i :: i in Interfaces(env, kind) &&
      if kind == KIND_UDPv4 then AllZero(i.address[12..]) else AllZero(i.address)
  }

  /** A wildcard of a registered kind survives exactly when it was given and the system
      reports an interface whose own address is zero. */
  lemma WildcardSurvives(env: Env, ls: seq<LocatorValue>, w: LocatorValue)
    requires Known(env) && Wildcard(env, w)
    ensures w in Normalized(env, ls) <==> w in ls && HasZeroInterface(env, w.kind)
  {
    AddAllIs([], Flat(env, ls));
    FlatElements(env, ls, w);
    WildcardItself(env, w);
    if w in Normalized(env, ls) {
      var l :| l in ls && w in One(env, l);
      RewriteKeeps(env, l, w);
    }
  }

  lemma WildcardItself(env: Env, w: LocatorValue)
    requires Known(env) && Wildcard(env, w)
    ensures w in One(env, w) <==> HasZeroInterface(env, w.kind)
  {
    OneElements(env, w, w);
    assert Loopback(w) != w by {
      assert Loopback(w).address[15] == 1;
    }
    forall i ensures Rewrite(w, i) == w <==>
      if w.kind == KIND_UDPv4 then AllZero(i.address[12..]) else AllZero(i.address)
    {
      if w.kind == KIND_UDPv4 {
        assert Rewrite(w, i).address[12..] == i.address[12..];
        assert w.address == w.address[..12] + w.address[12..];
        assert AllZero(i.address[12..]) ==> i.address[12..] == w.address[12..];
      } else {
        assert AllZero(i.address) ==> i.address == w.address;
      }
    }
  }
}
