/** IPLocator::setIPv6(Locator&, string): the reader, refining the functions of IPv6Text. */
module IPv6Reader {
  import opened Text
  import opened CharStream
  import opened IPv6Grammar
  import opened IPv6Gate
  import opened IPv6Text
  import opened IPv6Meaning
  import opened IPv6Answers
  import opened Locators

  // ----- the loops -----

  /** One turn of a reading loop towards `goal`, with `n` turns to go. */
  lemma BeforeTurn(goal: Taken, s: State, value: nat, n: nat, done: seq<nat>)
    requires n > 0 && goal == TakeBefore(s, value, n).Prepend(done)
    ensures var (u, v) := TakeHex(TakeChar(s), value);
      if v >= 65536 then goal == Taken(done, u, v)
      else goal == TakeBefore(u, v, n - 1).Prepend(done + [v]) && |done| < |goal.groups|
  {
    hide TakeHex, TakeChar;
    var (u, v) := TakeHex(TakeChar(s), value);
    if v < 65536 {
      TakeBefore(u, v, n - 1).PrependTwice([v], done);
    } else {
      assert done + [] == done;
    }
  }

  lemma AfterTurn(goal: Taken, s: State, value: nat, n: nat, done: seq<nat>)
    requires n > 0 && goal == TakeAfter(s, value, n).Prepend(done)
    ensures var (u, v) := TakeHex(s, value);
      if v >= 65536 then goal == Taken(done, TakeChar(u), v)
      else goal == TakeAfter(TakeChar(u), v, n - 1).Prepend(done + [v]) && |done| < |goal.groups|
  {
    hide TakeHex, TakeChar;
    var (u, v) := TakeHex(s, value);
    if v < 65536 {
      TakeAfter(TakeChar(u), v, n - 1).PrependTwice([v], done);
    } else {
      assert done + [] == done;
    }
  }

  lemma PrependNothing(t: Taken)
    ensures t.Prepend([]) == t
  {
    assert [] + t.groups == t.groups;
  }

  /** The bytes of `base` with those of `done` written from `start` on. */
  ghost function Over(base: seq<octet>, start: nat, done: seq<nat>): seq<octet>
    requires start + 2 * |done| <= |base|
  {
    base[..start] + Bytes(done) + base[start + 2 * |done|..]
  }

  lemma OverNone(base: seq<octet>, start: nat)
    requires start <= |base|
    ensures Over(base, start, []) == base
  {
  }

  lemma OverSnoc(base: seq<octet>, start: nat, done: seq<nat>, v: nat)
    requires start + 2 * |done| + 2 <= |base|
    ensures var i := start + 2 * |done|; var cur := Over(base, start, done);
      cur[..i] + Bytes([v]) + cur[i + 2..] == Over(base, start, done + [v])
  {
    BytesConcat(done, [v]);
    var i := start + 2 * |done|;
    var cur := Over(base, start, done);
    assert cur[..i] == base[..start] + Bytes(done);
    assert cur[i + 2..] == base[i + 2..];
    assert base[..start] + Bytes(done + [v]) == base[..start] + Bytes(done) + Bytes([v]);
  }

  /** The two bytes of a group, behind those of `done`. */
  method StoreGroup(locator: Locator, i: nat, v: nat, ghost base: seq<octet>, ghost start: nat, ghost done: seq<nat>)
    requires locator.Valid() && i + 2 <= 16 == |base| && i == start + 2 * |done|
    requires locator.address[..] == Over(base, start, done)
    modifies locator.address
    ensures locator.address[..] == Over(base, start, done + [v])
  {
    hide Over;
    OverSnoc(base, start, done, v);
    ghost var cur := locator.address[..];
    locator.address[i] := Hi(v);
    locator.address[i + 1] := Lo(v);
    assert Bytes([v]) == [Hi(v), Lo(v)];
    assert locator.address[..] == cur[..i] + Bytes([v]) + cur[i + 2..];
  }

  /** `for (; i < 16;) { ss >> punct >> input_aux; ... }`, the loop three branches end with. */
  method FillBefore(locator: Locator, ss: InputStream, start: nat, value: nat, char0: char)
    returns (complete: bool)
    requires locator.Valid() && ss.Valid() && start <= 16 && start % 2 == 0
    modifies locator.address, ss`pos, ss`failed
    ensures ss.Valid()
    ensures var t := TakeBefore(old(ss.View()), value, 8 - start / 2);
      && ss.View() == t.state
      && (complete <==> |t.groups| == 8 - start / 2)
      && locator.address[..] == Over(old(locator.address[..]), start, t.groups)
  {
    hide TakeHex, TakeChar, TakeBefore, Over, Bytes;
    var punct, inputAux, i := char0, value, start;
    ghost var n, base := 8 - start / 2, locator.address[..];
    ghost var goal, done := TakeBefore(ss.View(), value, n), [];
    OverNone(base, start);
    PrependNothing(goal);
    while i < 16
      invariant ss.Valid()
      invariant i == start + 2 * |done| <= 16
      invariant goal == TakeBefore(ss.View(), inputAux, n - |done|).Prepend(done)
      invariant locator.address[..] == Over(base, start, done)
    {
      BeforeTurn(goal, ss.View(), inputAux, n - |done|, done);
      punct := ss.ExtractChar(punct);
      inputAux := ss.ExtractHex(inputAux);
      if inputAux >= 65536 {
        return false;
      }
      StoreGroup(locator, i, inputAux, base, start, done);
      done := done + [inputAux];
      i := i + 2;
    }
    TakeNone(ss.View(), inputAux, done);
    complete := true;
  }

  function Half(limit: int): nat { if limit < 0 then 0 else limit / 2 }

  /** `for (i = 0; i < limit;) { ss >> input_aux >> punct; ... }`. The limit is an int and
      may be negative. */
  method FillAfter(locator: Locator, ss: InputStream, limit: int)
    returns (complete: bool, inputAux: nat, punct: char, i: nat)
    requires locator.Valid() && ss.Valid() && limit % 2 == 0
    requires |TakeAfter(ss.View(), 0, Half(limit)).groups| <= 8
    modifies locator.address, ss`pos, ss`failed
    ensures ss.Valid()
    ensures var t := TakeAfter(old(ss.View()), 0, Half(limit));
      && ss.View() == t.state && inputAux == t.value
      && (complete <==> |t.groups| == Half(limit)) && i == 2 * |t.groups|
      && locator.address[..] == Over(old(locator.address[..]), 0, t.groups)
  {
    hide TakeHex, TakeChar, TakeAfter, Over, Bytes;
    inputAux, punct, i := 0, ' ', 0;
    ghost var n, base := Half(limit), locator.address[..];
    ghost var goal, done := TakeAfter(ss.View(), 0, n), [];
    OverNone(base, 0);
    PrependNothing(goal);
    while i < limit
      invariant ss.Valid()
      invariant i == 2 * |done| && |done| <= n && |done| <= 8
      invariant goal == TakeAfter(ss.View(), inputAux, n - |done|).Prepend(done)
      invariant locator.address[..] == Over(base, 0, done)
    {
      AfterTurn(goal, ss.View(), inputAux, n - |done|, done);
      inputAux := ss.ExtractHex(inputAux);
      punct := ss.ExtractChar(punct);
      if inputAux >= 65536 {
        complete := false;
        return;
      }
      StoreGroup(locator, i, inputAux, base, 0, done);
      done := done + [inputAux];
      i := i + 2;
    }
    TakeNone(ss.View(), inputAux, done);
    complete := true;
  }

  /** `for (; i < limit;) { locator.address[i++] = 0; }`. */
  method FillZeros(locator: Locator, start: nat, limit: nat)
    requires locator.Valid() && start <= limit <= 16 && (limit - start) % 2 == 0
    modifies locator.address
    ensures locator.address[..] == Over(old(locator.address[..]), start, Zeros((limit - start) / 2))
  {
    var i := start;
    while i < limit
      invariant start <= i <= limit
      invariant forall j :: 0 <= j < 16 ==>
        locator.address[j] == if start <= j < i then 0 else old(locator.address[j])
    {
      locator.address[i] := 0;
      i := i + 1;
    }
    BytesZero(Zeros((limit - start) / 2));
  }

  // ----- the branches -----

  lemma OverWritten(a: seq<nat>, b: seq<nat>)
    requires |a| + |b| <= 8
    ensures Over(Bytes(a + Zeros(8 - |a|)), 2 * |a|, b) == Bytes(a + b + Zeros(8 - |a| - |b|))
  {
    hide Bytes;
    var z, y := Zeros(8 - |a| - |b|), Zeros(|b|);
    assert Zeros(8 - |a|) == y + z;
    BytesConcat(a, y + z);
    BytesConcat(y, z);
    BytesConcat(a + b, z);
    BytesConcat(a, b);
    Splice(Bytes(a), Bytes(y), Bytes(z), Bytes(b));
  }

  lemma Splice(x: seq<octet>, y: seq<octet>, z: seq<octet>, w: seq<octet>)
    requires |y| == |w|
    ensures var base := x + (y + z);
      base[..|x|] + w + base[|x| + |w|..] == (x + w) + z
  {
  }

  lemma WrittenNothing()
    ensures Bytes([] + Zeros(8)) == ZERO_ADDRESS
  {
    assert [] + Zeros(8) == Zeros(8);
    BytesZero(Zeros(8));
  }

  /** Zero block at the beginning. */
  method BuildLeading(locator: Locator, ss: InputStream, initialZeros: nat) returns (ok: bool)
    requires locator.Valid() && ss.Valid() && !ss.failed
    requires initialZeros <= 16 && initialZeros % 2 == 0 && locator.address[..] == ZERO_ADDRESS
    modifies locator.address, ss`pos, ss`failed
    ensures Outcome(ok, locator.address[..]) == ReadLeading(old(ss.Rest()), initialZeros / 2)
  {
    hide TakeHex, TakeChar, TakeBefore, Bytes, Over;
    ghost var zs := Zeros(initialZeros / 2);
    WrittenNothing();
    OverWritten([], zs);
    assert [] + zs == zs;
    FillZeros(locator, 0, initialZeros);
    var punct := ss.ExtractChar(' ');
    ghost var t := TakeBefore(ss.View(), 0, 8 - initialZeros / 2);
    OverWritten(zs, t.groups);
    var complete := FillBefore(locator, ss, initialZeros, 0, punct);
    if !complete {
      return false;
    }
    if initialZeros == 16 {
      punct := ss.ExtractChar(punct);
    }
    ok := ss.InAvail() == 0;
  }

  /** Zero block at the end. */
  method BuildTrailing(locator: Locator, ss: InputStream, finalZeros: nat) returns (ok: bool)
    requires locator.Valid() && ss.Valid() && !ss.failed
    requires finalZeros % 2 == 0 && locator.address[..] == ZERO_ADDRESS
    modifies locator.address, ss`pos, ss`failed
    ensures Outcome(ok, locator.address[..]) == ReadTrailing(old(ss.Rest()), finalZeros / 2)
  {
    hide TakeHex, TakeChar, TakeAfter, Bytes, Over, Written;
    ghost var t := TakeAfter(ss.View(), 0, Half(16 - finalZeros));
    WrittenNothing();
    OverWritten([], t.groups);
    assert [] + t.groups == t.groups;
    WrittenIs(t.groups);
    var complete, inputAux, punct, i := FillAfter(locator, ss, 16 - finalZeros);
    if !complete {
      return false;
    }
    punct := ss.ExtractChar(punct);
    ghost var zs := Zeros(8 - |t.groups|);
    OverWritten(t.groups, zs);
    assert t.groups + zs + Zeros(0) == t.groups + zs;
    FillZeros(locator, i, 16);
    ok := ss.InAvail() == 0;
  }

  lemma ReadMiddleIs(s: string, p: nat, z: nat)
    requires MiddleInside(s, p, z)
    ensures var t := TakeAfter(State(s, false), 0, p);
      && |t.groups| <= 8 && (|t.groups| == p ==> p + z <= 8)
      && if |t.groups| < p then
           ReadMiddle(s, p, z) == Outcome(false, Bytes(t.groups + Zeros(8 - |t.groups|)))
         else
           var u := TakeBefore(t.state, t.value, 8 - p - z);
           var all := t.groups + Zeros(z) + u.groups;
           ReadMiddle(s, p, z) ==
             Outcome(|u.groups| == 8 - p - z && u.state.rest == "", Bytes(all + Zeros(8 - |all|)))
  {
    hide TakeAfter, TakeBefore, Bytes;
  }

  /** Zero block in the middle. */
  method BuildMiddle(locator: Locator, ss: InputStream, positionZeros: nat, numberZeros: nat)
    returns (ok: bool)
    requires locator.Valid() && ss.Valid() && !ss.failed
    requires positionZeros % 2 == numberZeros % 2 == 0
    requires MiddleInside(ss.Rest(), positionZeros / 2, numberZeros / 2)
    requires locator.address[..] == ZERO_ADDRESS
    modifies locator.address, ss`pos, ss`failed
    ensures Outcome(ok, locator.address[..]) == ReadMiddle(old(ss.Rest()), positionZeros / 2, numberZeros / 2)
  {
    hide TakeHex, TakeChar, TakeAfter, TakeBefore, Bytes, Over, ReadMiddle, MiddleInside;
    ghost var p, z := positionZeros / 2, numberZeros / 2;
    assert positionZeros == 2 * p && numberZeros == 2 * z && (2 * p + 2 * z) / 2 == p + z;
    ghost var t := TakeAfter(ss.View(), 0, p);
    ReadMiddleIs(ss.Rest(), p, z);
    WrittenNothing();
    OverWritten([], t.groups);
    assert [] + t.groups == t.groups;
    var complete, inputAux, punct, i := FillAfter(locator, ss, positionZeros);
    if !complete {
      return false;
    }
    ok := BlockThenGroups(locator, ss, i, positionZeros + numberZeros, inputAux, punct, t.groups, z);
  }

  /** The zero block behind the groups `gs`, and the groups behind the block. */
  method BlockThenGroups(locator: Locator, ss: InputStream, start: nat, limit: nat, value: nat, char0: char,
    ghost gs: seq<nat>, ghost z: nat) returns (ok: bool)
    requires locator.Valid() && ss.Valid()
    requires start == 2 * |gs| && limit == 2 * (|gs| + z) <= 16
    requires locator.address[..] == Bytes(gs + Zeros(8 - |gs|))
    modifies locator.address, ss`pos, ss`failed
    ensures var u := TakeBefore(old(ss.View()), value, 8 - |gs| - z);
      var all := gs + Zeros(z) + u.groups;
      && ok == (|u.groups| == 8 - |gs| - z && u.state.rest == "")
      && locator.address[..] == Bytes(all + Zeros(8 - |all|))
  {
    hide TakeHex, TakeChar, TakeBefore, Bytes, Over;
    ghost var n := 8 - |gs| - z;
    assert (limit - start) / 2 == z && 8 - limit / 2 == n;
    OverWritten(gs, Zeros(z));
    FillZeros(locator, start, limit);
    ghost var u := TakeBefore(ss.View(), value, n);
    OverWritten(gs + Zeros(z), u.groups);
    var complete := FillBefore(locator, ss, limit, value, char0);
    if !complete {
      return false;
    }
    ok := ss.InAvail() == 0;
  }

  /** No zero block. The first group is stored without a range check. */
  method BuildPlain(locator: Locator, ss: InputStream) returns (ok: bool)
    requires locator.Valid() && ss.Valid() && !ss.failed
    requires locator.address[..] == ZERO_ADDRESS
    modifies locator.address, ss`pos, ss`failed
    ensures Outcome(ok, locator.address[..]) == ReadPlain(old(ss.Rest()))
  {
    hide TakeHex, TakeChar, TakeBefore, Bytes, Over, Written;
    ghost var (t, v) := TakeHex(ss.View(), 0);
    ghost var u := TakeBefore(t, v, 7);
    WrittenNothing();
    OverWritten([], [v]);
    OverWritten([v], u.groups);
    assert [] + [v] == [v];
    OverNone(ZERO_ADDRESS, 0);
    var inputAux := ss.ExtractHex(0);
    StoreGroup(locator, 0, inputAux, ZERO_ADDRESS, 0, []);
    var complete := FillBefore(locator, ss, 2, inputAux, ' ');
    WrittenIs([v] + u.groups);
    if !complete {
      return false;
    }
    ok := ss.InAvail() == 0;
  }

  lemma WrittenIs(groups: seq<nat>)
    requires |groups| <= 8
    ensures forall ok :: Written(groups, ok) == Outcome(ok, Bytes(groups + Zeros(8 - |groups|)))
  {
  }

  // ----- the reader -----

  lemma {:induction false} NoColonBetween(s: string, from: nat, to: nat)
    requires from <= to <= |s| && forall j :: from <= j < to ==> s[j] != ':'
    ensures Colons(s[..to]) == Colons(s[..from])
  {
    ColonsConcat(s[..from], s[from..to]);
    NoColons(s[from..to]);
    assert s[..to] == s[..from] + s[from..to];
  }

  /** Where the zero block is and how long, from the colons alone. At most one size is set. */
  method MeasureZeros(ipv6: string, count: nat)
    returns (initialZeros: nat, finalZeros: nat, positionZeros: nat, numberZeros: nat)
    requires ipv6 != "" && count == U16(Colons(ipv6))
    ensures match BlockOf(ipv6)
      case Leading(bytes) => initialZeros == bytes && finalZeros == positionZeros == numberZeros == 0
      case Trailing(bytes) => finalZeros == bytes && initialZeros == positionZeros == numberZeros == 0
      case Middle(position, bytes) =>
        numberZeros == bytes && positionZeros == position && initialZeros == finalZeros == 0
      case NoBlock => initialZeros == finalZeros == numberZeros == 0
  {
    hide U16, Colons;
    initialZeros, finalZeros, positionZeros, numberZeros := 0, 0, 0, 0;
    var n := |ipv6|;
    if ipv6[0] == ':' {
      if ipv6[n - 1] == ':' {
        initialZeros := 16;
      } else {
        initialZeros := U16((7 - (count - 2)) * 2);
      }
    } else if ipv6[n - 1] == ':' {
      finalZeros := U16((7 - (count - 2)) * 2);
    } else {
      positionZeros, numberZeros := MeasureMiddle(ipv6, count);
    }
  }

  /** The search for "::" from colon to colon. */
  method MeasureMiddle(ipv6: string, count: nat) returns (positionZeros: nat, numberZeros: nat)
    ensures var d := FirstDouble(ipv6);
      if d == -1 then numberZeros == 0
      else numberZeros == U16((7 - (count - 1)) * 2) && positionZeros == U16(2 * Colons(ipv6[..d + 1]))
  {
    hide U16, Colons;
    positionZeros, numberZeros := 0, 0;
    var auxPrev := |ipv6|;
    var aux := Find(ipv6, ":", 0);
    ghost var previous := -1;
    ColonsBeforeFind(ipv6, 0, aux);
    while aux != -1
      invariant -1 <= previous < |ipv6| && (previous == -1 <==> auxPrev == |ipv6|)
      invariant previous != -1 ==> auxPrev == previous && ipv6[previous] == ':'
      invariant aux != -1 ==> previous < aux < |ipv6| && ipv6[aux] == ':'
      invariant aux != -1 ==> positionZeros == U16(2 * Colons(ipv6[..aux]))
      invariant forall j :: previous < j < (if aux == -1 then |ipv6| else aux) ==> ipv6[j] != ':'
      invariant forall j :: DoubleAt(ipv6, j) ==> previous <= j
      invariant numberZeros == 0
      decreases if aux == -1 then 0 else |ipv6| - aux
    {
      if auxPrev == aux - 1 {
        numberZeros := U16((7 - (count - 1)) * 2);
        assert DoubleAt(ipv6, previous);
        break;
      }
      U16Add(2 * Colons(ipv6[..aux]), 2);
      positionZeros := U16(positionZeros + 2);
      ColonsSnoc(ipv6, aux);
      auxPrev := aux;
      previous := aux;
      aux := Find(ipv6, ":", aux + 1);
      ColonsBeforeFind(ipv6, previous + 1, aux);
    }
  }

  lemma ColonsSnoc(s: string, i: nat)
    requires i < |s| && s[i] == ':'
    ensures Colons(s[..i + 1]) == Colons(s[..i]) + 1
  {
    ColonsConcat(s[..i], ":");
    assert s[..i + 1] == s[..i] + ":";
  }

  lemma U16Add(x: nat, y: nat)
    ensures U16(U16(x) + y) == U16(x + y)
  {
  }

  lemma ColonsBeforeFind(s: string, from: nat, aux: int)
    requires from <= |s| && aux == Find(s, ":", from)
    ensures aux != -1 ==> from <= aux < |s| && s[aux] == ':'
    ensures aux != -1 ==> Colons(s[..aux]) == if from == 0 then 0 else Colons(s[..from])
    ensures forall j :: from <= j < (if aux == -1 then |s| else aux) ==> s[j] != ':'
  {
    hide At;
    AtColon(s, aux);
    var to := if aux == -1 then |s| else aux;
    forall j | from <= j < to ensures s[j] != ':' { AtColon(s, j); }
    if aux != -1 { NoColonBetween(s, from, aux); }
  }

  lemma AtColon(s: string, j: int)
    ensures At(s, ":", j) <==> 0 <= j < |s| && s[j] == ':'
  {
    if 0 <= j < |s| { assert s[j..j + 1] == [s[j]]; }
  }

  /** The part behind the gate: clear the address, measure the zero block, and run the
      branch it calls for. */
  method BuildAddress(locator: Locator, ipv6: string) returns (ok: bool)
    requires locator.Valid() && StaysInside(ipv6)
    modifies locator.address
    ensures Outcome(ok, locator.address[..]) == ReadText(ipv6)
  {
    hide ReadLeading, ReadTrailing, ReadMiddle, ReadPlain, MiddleInside, BlockOf, U16;
    locator.SetInvalidAddress();
    var colons := CountColons(ipv6);
    var count := U16(colons);
    var initialZeros, finalZeros, positionZeros, numberZeros := MeasureZeros(ipv6, count);
    BlockSizes(ipv6);
    var ss := new InputStream(ipv6);
    if initialZeros != 0 {
      ok := BuildLeading(locator, ss, initialZeros);
    } else if finalZeros != 0 {
      ok := BuildTrailing(locator, ss, finalZeros);
    } else if numberZeros != 0 {
      ok := BuildMiddle(locator, ss, positionZeros, numberZeros);
    } else {
      ok := BuildPlain(locator, ss);
    }
  }

  lemma BlockSizes(s: string)
    requires s != ""
    ensures var b := BlockOf(s);
      && (!b.NoBlock? ==> b.bytes > 0 && b.bytes % 2 == 0)
      && (b.Middle? ==> b.position % 2 == 0)
  {
  }

  lemma AddressMeaning(s: string)
    requires IsAddress(AddressPart(s)) && StaysInside(s)
    ensures var a := AddressPart(s);
      && Accepts(s)
      && (ReadText(s).ok <==> a == s)
      && (':' !in s[|a|..] ==> ReadText(s).address == Bytes(Expand(a)))
  {
    hide ReadText, StaysInside;
    var a := AddressPart(s);
    var r := s[|a|..];
    AddressZone(s);
    if ':' !in r { ReadAddress(a, r); }
    if r != "" { ZoneFlag(a, r); }
  }

  lemma SetMeaning(s: string)
    requires Accepts(s) ==> StaysInside(s)
    ensures var a := AddressPart(s);
      IsAddress(a) ==>
      && Accepts(s)
      && (ReadText(s).ok <==> a == s)
      && (':' !in s[|a|..] ==> ReadText(s).address == Bytes(Expand(a)))
    ensures Accepts(s) && AllOrdinary(s[|AddressPart(s)|..]) ==> (ReadText(s).ok <==> AnsweredTrue(s))
  {
    hide ReadText, StaysInside, AnsweredTrue, AllOrdinary;
    if IsAddress(AddressPart(s)) { AddressMeaning(s); }
    if Accepts(s) && AllOrdinary(s[|AddressPart(s)|..]) { TrueIff(s); }
  }

  /** The text is read whatever the locator held before; kind and port are not touched. The
      C++ code has no defined meaning for an accepted text whose colons, all but eight of
      them in its zone, send it beyond the array; OverrunIff says which texts these are. */
  method SetIPv6(locator: Locator, ipv6: string) returns (ok: bool)
    requires locator.Valid()
    requires IsV6(locator.kind) && Accepts(ipv6) ==> StaysInside(ipv6)
    modifies locator.address
    ensures !IsV6(locator.kind) || !Accepts(ipv6) ==> !ok && locator.address[..] == old(locator.address[..])
    ensures IsV6(locator.kind) && Accepts(ipv6) ==> Outcome(ok, locator.address[..]) == ReadText(ipv6)
    ensures var a := AddressPart(ipv6);
      IsV6(locator.kind) && IsAddress(a) ==>
      && (ok <==> a == ipv6)
      && (':' !in ipv6[|a|..] ==> locator.address[..] == Bytes(Expand(a)))
    ensures IsV6(locator.kind) && AllOrdinary(ipv6[|AddressPart(ipv6)|..]) ==>
      (ok <==> Accepts(ipv6) && AnsweredTrue(ipv6))
  {
    hide ReadText, AddressPart, Accepts, StaysInside, IsAddress, Expand, Bytes, AnsweredTrue, AllOrdinary;
    if IsV6(locator.kind) { SetMeaning(ipv6); }
    if locator.kind != KIND_TCPv6 && locator.kind != KIND_UDPv6 {
      return false;
    }
    var correct := IPv6IsCorrect(ipv6);
    if !correct {
      return false;
    }
    ok := BuildAddress(locator, ipv6);
  }
}
