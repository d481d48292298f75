/** What the three setters of dotted texts make of any numbers: white space, signs, leading
    zeros, values of any size, any separators, and whatever follows the last number. */
module IPv4Numbers {
  import opened Digits
  import opened CharStream
  import opened Locators
  import opened IPv4

  predicate Blank(c: char) { c in [' ', '\t', '\n', '\r', 11 as char, 12 as char] }

  /** A number as it may stand in a text. */
  datatype Number = Number(space: string, sign: string, digits: string) {
    predicate Valid() {
      (forall c :: c in space ==> Blank(c)) && (sign == "" || sign == "+" || sign == "-") &&
      digits != "" && AllDec(digits)
    }

    function Text(): string { space + (sign + digits) }

    function Amount(): int { if sign == "-" then -(DecValue(digits) as int) else DecValue(digits) }

    /** An int holds it, or an unsigned number of 32 bits does, sign aside. */
    predicate Fits(signed: bool) {
      if signed then -0x8000_0000 <= Amount() <= 0x7FFF_FFFF else -0xFFFF_FFFF <= Amount() <= 0xFFFF_FFFF
    }

    /** The number a variable of that type gets. */
    function Stored(signed: bool): int { if signed then Amount() else Amount() % 0x1_0000_0000 }
  }

  ghost predicate AllValid(ns: seq<Number>) { forall n :: n in ns ==> n.Valid() }

  ghost predicate AllFit(ns: seq<Number>, signed: bool) { forall n :: n in ns ==> n.Fits(signed) }

  function AllStored(ns: seq<Number>, signed: bool): (vs: seq<int>)
    ensures |vs| == |ns| && forall i :: 0 <= i < |ns| ==> vs[i] == ns[i].Stored(signed)
  {
    seq(|ns|, i requires 0 <= i < |ns| => ns[i].Stored(signed))
  }

  /** Neither a digit nor white space. */
  predicate Separators(cs: string) { forall c :: c in cs ==> !IsDec(c) && !Blank(c) }

  /** Each number behind its separator. */
  function Rest(ns: seq<Number>, cs: string): string
    requires |cs| == |ns|
  {
    if ns == [] then "" else [cs[0]] + (ns[0].Text() + Rest(ns[1..], cs[1..]))
  }

  /** The numbers with separators between neighbours. */
  function Numbers(ns: seq<Number>, cs: string): string
    requires |ns| == |cs| + 1
  {
    ns[0].Text() + Rest(ns[1..], cs)
  }

  /** The end of the text, or something no number goes on with. */
  predicate Ends(tail: string) { tail == "" || !IsDec(tail[0]) }

  // ----- one number -----

  lemma BlankSpace(c: char)
    ensures Blank(c) <==> IsSpace(c)
  {
    SpaceSet(c);
  }

  lemma SignedDigits(n: Number, r: string)
    requires n.Valid()
    ensures var t := n.sign + n.digits + r;
      t != "" && !Blank(t[0]) && SkipSign(t) == n.digits + r && (t[0] == '-' <==> n.sign == "-")
  {
    var t := n.sign + n.digits + r;
    assert n.digits[0] in n.digits;
    if n.sign == "" {
      assert t == n.digits + r;
    } else {
      assert t[0] == n.sign[0] && t[1..] == n.digits + r;
    }
  }

  lemma DigitsTaken(n: Number, r: string, signed: bool)
    requires n.Valid() && Ends(r)
    ensures var (s, v) := TakeDigits(n.digits + r, n.sign == "-", Decimal, signed);
      s == State(r, !n.Fits(signed)) && (n.Fits(signed) ==> v == n.Stored(signed))
  {
    hide Value, DecRun;
    var f := n.digits;
    DecHex(f);
    DecRunField(f, r);
    assert (f + r)[..|f|] == f && (f + r)[|f|..] == r;
  }

  lemma NumberTaken(n: Number, r: string, v0: int, signed: bool)
    requires n.Valid() && Ends(r)
    ensures var (s, v) := TakeNumber(State(n.Text() + r, false), v0, signed);
      s == State(r, !n.Fits(signed)) && (n.Fits(signed) ==> v == n.Stored(signed))
  {
    hide TakeDigits, SkipSpace, SkipSign;
    var t := n.sign + n.digits + r;
    assert n.Text() + r == n.space + t;
    SignedDigits(n, r);
    forall c | c in n.space ensures IsSpace(c) { BlankSpace(c); }
    BlankSpace(t[0]);
    SkipBlanks(n.space, t);
    DigitsTaken(n, r, signed);
  }

  // ----- all numbers -----

  lemma {:induction false} FailedMore(x: string, n: nat, signed: bool)
    ensures TakeMore(State(x, true), n, signed).1 == State(x, true)
    decreases n
  {
    if n > 0 { FailedMore(x, n - 1, signed); }
  }

  lemma RestEnds(ns: seq<Number>, cs: string, tail: string)
    requires |cs| == |ns| && Separators(cs) && Ends(tail)
    ensures Ends(Rest(ns, cs) + tail)
  {
    if ns != [] { assert cs[0] in cs; }
  }

  lemma MoreFirst(s: State, n: nat, signed: bool)
    ensures var (t, v) := TakeNumber(TakeChar(s), 0, signed);
      var (vs, u) := TakeMore(t, n, signed);
      TakeMore(s, n + 1, signed) == ([v] + vs, u)
  {
    hide TakeNumber, TakeChar;
  }

  lemma RestCons(ns: seq<Number>, cs: string, tail: string)
    requires |cs| == |ns| > 0 && Separators(cs)
    ensures TakeChar(State(Rest(ns, cs) + tail, false)) ==
      State(ns[0].Text() + (Rest(ns[1..], cs[1..]) + tail), false)
  {
    hide SkipSpace, IsSpace, Blank;
    var c, x := cs[0], ns[0].Text() + (Rest(ns[1..], cs[1..]) + tail);
    assert c in cs;
    BlankSpace(c);
    AssociateThree([c], ns[0].Text(), Rest(ns[1..], cs[1..]), tail);
    TakeOne(c, x);
  }

  lemma AssociateThree(x: string, y: string, z: string, w: string)
    ensures (x + (y + z)) + w == x + (y + (z + w))
  {
  }

  lemma TakeOne(c: char, x: string)
    requires !IsSpace(c)
    ensures TakeChar(State([c] + x, false)) == State(x, false)
  {
    assert ([c] + x)[1..] == x;
  }

  lemma ConsParts(ns: seq<Number>, cs: string, signed: bool)
    requires |cs| == |ns| > 0 && Separators(cs)
    ensures AllValid(ns) <==> ns[0].Valid() && AllValid(ns[1..])
    ensures AllFit(ns, signed) <==> ns[0].Fits(signed) && AllFit(ns[1..], signed)
    ensures Separators(cs[1..])
    ensures AllStored(ns, signed) == [ns[0].Stored(signed)] + AllStored(ns[1..], signed)
  {
    hide AllValid, AllFit, Separators;
    ConsAll(ns, signed);
    ConsSeparators(cs);
    StoredCons(ns, signed);
  }

  lemma StoredCons(ns: seq<Number>, signed: bool)
    requires ns != []
    ensures AllStored(ns, signed) == [ns[0].Stored(signed)] + AllStored(ns[1..], signed)
  {
  }

  lemma ConsAll(ns: seq<Number>, signed: bool)
    requires ns != []
    ensures AllValid(ns) <==> ns[0].Valid() && AllValid(ns[1..])
    ensures AllFit(ns, signed) <==> ns[0].Fits(signed) && AllFit(ns[1..], signed)
  {
    assert ns == [ns[0]] + ns[1..];
    assert forall n :: n in ns <==> n == ns[0] || n in ns[1..];
  }

  lemma ConsSeparators(cs: string)
    requires cs != "" && Separators(cs)
    ensures Separators(cs[1..])
  {
    assert forall c :: c in cs[1..] ==> c in cs;
  }

  lemma {:induction false} RestTaken(ns: seq<Number>, cs: string, tail: string, signed: bool)
    requires |cs| == |ns| && AllValid(ns) && Separators(cs) && Ends(tail)
    ensures var (vs, u) := TakeMore(State(Rest(ns, cs) + tail, false), |ns|, signed);
      && (u.failed <==> !AllFit(ns, signed))
      && (AllFit(ns, signed) ==> vs == AllStored(ns, signed) && u.rest == tail)
    decreases |ns|
  {
    hide TakeNumber, TakeChar, TakeMore, Rest, AllValid, AllFit, AllStored, Separators, Ends;
    if ns == [] {
      NoNumbers(tail, signed);
    } else {
      ConsParts(ns, cs, signed);
      RestCons(ns, cs, tail);
      RestEnds(ns[1..], cs[1..], tail);
      var after := Rest(ns[1..], cs[1..]) + tail;
      NumberTaken(ns[0], after, 0, signed);
      MoreFirst(State(Rest(ns, cs) + tail, false), |ns| - 1, signed);
      if ns[0].Fits(signed) {
        RestTaken(ns[1..], cs[1..], tail, signed);
      } else {
        FailedMore(after, |ns| - 1, signed);
      }
    }
  }

  lemma NoNumbers(tail: string, signed: bool)
    ensures TakeMore(State(Rest([], "") + tail, false), 0, signed) == ([], State(tail, false))
    ensures AllFit([], signed) && AllStored([], signed) == []
  {
    assert "" + tail == tail;
  }

  lemma {:induction false} NumbersTaken(ns: seq<Number>, cs: string, tail: string, signed: bool)
    requires |ns| == |cs| + 1 && AllValid(ns) && Separators(cs) && Ends(tail)
    ensures var (vs, u) := Dotted(Numbers(ns, cs) + tail, |ns|, signed);
      && (u.failed <==> !AllFit(ns, signed))
      && (AllFit(ns, signed) ==> vs == AllStored(ns, signed) && u.rest == tail)
  {
    hide TakeNumber, TakeMore, Rest, AllValid, AllFit, AllStored, Separators, Ends;
    ConsAll(ns, signed);
    StoredCons(ns, signed);
    RestEnds(ns[1..], cs, tail);
    var after := Rest(ns[1..], cs) + tail;
    assert Numbers(ns, cs) + tail == ns[0].Text() + after;
    NumberTaken(ns[0], after, 0, signed);
    if ns[0].Fits(signed) {
      RestTaken(ns[1..], cs, tail, signed);
    } else {
      FailedMore(after, |ns| - 1, signed);
    }
  }

  // ----- the setters -----

  /** setIPv4 reads four unsigned numbers: each must be at most 255 as a number of 32 bits.
      The last four bytes are stored even when more text follows, which only costs the flag. */
  lemma {:induction false} IPv4OfNumbers(kind: int32, address: seq<octet>, ns: seq<Number>, cs: string, tail: string)
    requires |address| == 16 && |ns| == 4 && |cs| == 3 && AllValid(ns) && Separators(cs) && Ends(tail)
    ensures var r := IPv4Outcome(kind, address, Numbers(ns, cs) + tail);
      if (kind == KIND_TCPv4 || kind == KIND_UDPv4) &&
         forall n :: n in ns ==> -0xFFFF_FFFF <= n.Amount() <= 0xFFFF_FFFF && n.Amount() % 0x1_0000_0000 <= 255
      then
        && r.ok == (tail == "") && r.address[..12] == address[..12]
        && forall i :: 0 <= i < 4 ==> r.address[12 + i] == ns[i].Amount() % 0x1_0000_0000
      else r == Outcome(false, address)
  {
    hide Dotted, Numbers, AllValid, Separators, Ends;
    NumbersTaken(ns, cs, tail, false);
    var vs := AllStored(ns, false);
    assert AllFit(ns, false) ==> (InRange(vs) <==> forall n :: n in ns ==> n.Stored(false) <= 255) by {
      StoredRange(ns);
    }
  }

  lemma StoredRange(ns: seq<Number>)
    ensures InRange(AllStored(ns, false)) <==> forall n :: n in ns ==> n.Stored(false) <= 255
  {
    var vs := AllStored(ns, false);
    if InRange(vs) {
      forall n | n in ns ensures n.Stored(false) <= 255 {
        var i :| 0 <= i < |ns| && ns[i] == n;
        assert vs[i] in vs;
      }
    }
  }

  /** setWan reads four ints and cuts them to octets, whatever the kind and whatever follows. */
  lemma {:induction false} WanOfNumbers(address: seq<octet>, ns: seq<Number>, cs: string, tail: string)
    requires |address| == 16 && |ns| == 4 && |cs| == 3 && AllValid(ns) && Separators(cs) && Ends(tail)
    ensures var r := WanOutcome(address, Numbers(ns, cs) + tail);
      if forall n :: n in ns ==> -0x8000_0000 <= n.Amount() <= 0x7FFF_FFFF then
        && r.ok && r.address[..8] == address[..8] && r.address[12..] == address[12..]
        && forall i :: 0 <= i < 4 ==> r.address[8 + i] == ns[i].Amount() % 256
      else r == Outcome(false, address)
  {
    hide Dotted, Numbers, AllValid, Separators, Ends;
    NumbersTaken(ns, cs, tail, true);
  }

  /** setLanID reads eight, for TCPv4 locators only. */
  lemma {:induction false} LanOfNumbers(kind: int32, address: seq<octet>, ns: seq<Number>, cs: string, tail: string)
    requires |address| == 16 && |ns| == 8 && |cs| == 7 && AllValid(ns) && Separators(cs) && Ends(tail)
    ensures var r := LanOutcome(kind, address, Numbers(ns, cs) + tail);
      if kind == KIND_TCPv4 && forall n :: n in ns ==> -0x8000_0000 <= n.Amount() <= 0x7FFF_FFFF then
        && r.ok && r.address[8..] == address[8..]
        && forall i :: 0 <= i < 8 ==> r.address[i] == ns[i].Amount() % 256
      else r == Outcome(false, address)
  {
    hide Dotted, Numbers, AllValid, Separators, Ends;
    NumbersTaken(ns, cs, tail, true);
  }

  /** Other kinds get no LAN identifier, so setting all three parts leaves zeros. */
  lemma OnlyTCPv4(kind: int32, address: seq<octet>, lan: string, wan: string, ipv4: string)
    requires |address| == 16 && kind != KIND_TCPv4
    ensures LanOutcome(kind, address, lan) == Outcome(false, address)
    ensures ThreePartOutcome(kind, address, lan, wan, ipv4) ==
      Outcome(false, [0, 0, 0, 0, 0, 0, 0, 0, 0, 0, 0, 0, 0, 0, 0, 0])
  {
    hide Dotted;
  }

  /** "192.168.1.1:80" is refused, but the address is stored. */
  lemma TrailingPort(address: seq<octet>)
    requires |address| == 16
    ensures IPv4Outcome(KIND_UDPv4, address, "192.168.1.1:80") == Outcome(false, address[..12] + [192, 168, 1, 1])
  {
    hide IPv4Outcome, Numbers, Value;
    var ns := [Number("", "", "192"), Number("", "", "168"), Number("", "", "1"), Number("", "", "1")];
    PortText(ns);
    IPv4OfNumbers(KIND_UDPv4, address, ns, "...", ":80");
    var r := IPv4Outcome(KIND_UDPv4, address, "192.168.1.1:80");
    assert r.address[12 + 0] == 192 && r.address[12 + 1] == 168 && r.address[12 + 2] == 1 && r.address[12 + 3] == 1;
    assert r.address == r.address[..12] + [192, 168, 1, 1];
  }

  lemma PortText(ns: seq<Number>)
    requires ns == [Number("", "", "192"), Number("", "", "168"), Number("", "", "1"), Number("", "", "1")]
    ensures AllValid(ns) && Numbers(ns, "...") + ":80" == "192.168.1.1:80"
    ensures ns[0].Amount() == 192 && ns[1].Amount() == 168 && ns[2].Amount() == ns[3].Amount() == 1
  {
    hide Value;
    Value3("192");
    Value3("168");
    Value3("1");
    assert ns[1..][1..] == ns[2..] && ns[2..][1..] == ns[3..] && ns[3..][1..] == [];
    assert "..."[1..] == ".." && ".."[1..] == "." && "."[1..] == "";
    assert Rest(ns[3..], ".") == ".1";
    assert Rest(ns[2..], "..") == ".1.1";
    assert Rest(ns[1..], "...") == ".168.1.1";
  }
}
