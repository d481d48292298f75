/** Dotted decimal texts in IPLocator: IPv4 addresses, WAN addresses and LAN identifiers. */
module IPv4 {
  import opened Digits
  import opened CharStream
  import opened Locators

  // ----- dotted texts -----

  function DotBefore(fs: seq<string>): string {
    if fs == [] then "" else "." + fs[0] + DotBefore(fs[1..])
  }

  /** The fields with a dot between neighbours. */
  function DotJoin(fs: seq<string>): string {
    if fs == [] then "" else fs[0] + DotBefore(fs[1..])
  }

  function Numerals(b: seq<octet>): (fs: seq<string>)
    ensures |fs| == |b| && forall i :: 0 <= i < |b| ==> fs[i] == Numeral(b[i], Decimal)
  {
    seq(|b|, i requires 0 <= i < |b| => Numeral(b[i], Decimal))
  }

  function DottedText(b: seq<octet>): string { DotJoin(Numerals(b)) }

  /** One field of IPv4_REGEX: 25[0-5] | 2[0-4][0-9] | [01]?[0-9][0-9]? */
  predicate OctetText(f: string) {
    AllDec(f) &&
    ((|f| == 3 && f[0] == '2' && f[1] == '5' && f[2] <= '5') ||
     (|f| == 3 && f[0] == '2' && f[1] <= '4') ||
     (|f| == 3 && f[0] <= '1') || |f| == 1 || |f| == 2)
  }

  ghost predicate IsIPv4Fields(s: string, fs: seq<string>) {
    |fs| == 4 && (forall f :: f in fs ==> OctetText(f)) && s == DotJoin(fs)
  }

  /** IPLocator::isIPv4, the whole text matching IPv4_REGEX. */
  ghost predicate IsIPv4(s: string) {
    exists fs :: IsIPv4Fields(s, fs)
  }

  lemma DecHex(f: string)
    requires AllDec(f)
    ensures AllHex(f)
  {
  }

  lemma Value3(f: string)
    requires AllDec(f) && AllHex(f) && 1 <= |f| <= 3
    ensures Value(f, Decimal) ==
      if |f| == 1 then DigitValue(f[0])
      else if |f| == 2 then DigitValue(f[0]) * 10 + DigitValue(f[1])
      else DigitValue(f[0]) * 100 + DigitValue(f[1]) * 10 + DigitValue(f[2])
  {
    var g := f[..|f| - 1];
    assert Value(f[..0], Decimal) == 0;
    if |f| == 3 {
      assert f[..2][..1] == f[..1] && f[..1][..0] == "";
    } else if |f| == 2 {
      assert f[..1][..0] == "";
    }
  }

  /** The regular expression's alternatives are the numbers below 256 in one to three
      digits, leading zeros included. */
  lemma OctetTextIff(f: string)
    ensures OctetText(f) <==> AllDec(f) && 1 <= |f| <= 3 && Value(f, Decimal) <= 255
  {
    if AllDec(f) && 1 <= |f| <= 3 {
      assert forall i :: 0 <= i < |f| ==> f[i] in f;
      Value3(f);
    }
  }

  // ----- what the stream reads -----

  /** `n` times a character and a number. */
  function TakeMore(s: State, n: nat, signed: bool): (r: (seq<int>, State))
    ensures |r.0| == n
    decreases n
  {
    if n == 0 then ([], s)
    else
      var (t, v) := TakeNumber(TakeChar(s), 0, signed);
      var (vs, u) := TakeMore(t, n - 1, signed);
      ([v] + vs, u)
  }

  lemma MoreNone(s: State, signed: bool)
    ensures TakeMore(s, 0, signed) == ([], s)
  {
  }

  lemma MoreStep(s: State, n: nat, signed: bool, t: State, vs: seq<int>, u: State)
    requires vs != [] && TakeNumber(TakeChar(s), 0, signed) == (t, vs[0])
    requires TakeMore(t, n, signed) == (vs[1..], u)
    ensures TakeMore(s, n + 1, signed) == (vs, u)
  {
    hide TakeNumber, TakeChar;
    assert vs == [vs[0]] + vs[1..];
  }

  /** `ss >> a >> ch >> b >> ch >> ...` for `n` numbers: what they become if nothing fails. */
  function Dotted(text: string, n: nat, signed: bool): (r: (seq<int>, State))
    requires n > 0
    ensures |r.0| == n
  {
    var (t, v) := TakeNumber(State(text, false), 0, signed);
    var (vs, u) := TakeMore(t, n - 1, signed);
    ([v] + vs, u)
  }

  function DecValue(f: string): nat {
    if AllHex(f) then Value(f, Decimal) else 0
  }

  /** Decimal digits for a number that every 32-bit type holds. */
  predicate Numeric(f: string) { AllDec(f) && f != "" && DecValue(f) <= 0x7FFF_FFFF }

  /** One to three decimal digits. */
  predicate Field(f: string) { AllDec(f) && 1 <= |f| <= 3 }

  lemma FieldNumeric(f: string)
    requires Field(f)
    ensures Numeric(f)
  {
    DecHex(f);
    ValueBound(f);
  }

  lemma TakeField(f: string, r: string, signed: bool)
    requires Numeric(f) && (r == "" || !IsDec(r[0]))
    ensures TakeNumber(State(f + r, false), 0, signed) == (State(r, false), DecValue(f))
  {
    hide TakeDigits, Numeric, DecValue;
    NumericStart(f, r);
    TakeDigitsField(f, r, signed);
  }

  lemma NumericStart(f: string, r: string)
    requires Numeric(f)
    ensures f != "" && SkipSpace(f + r) == f + r == SkipSign(f + r) && (f + r)[0] != '-'
  {
    hide SkipSpace, SkipSign, DecValue;
    assert f[0] in f;
    assert (f + r)[0] == f[0];
    SkipNothing(f + r);
  }

  lemma TakeDigitsField(f: string, r: string, signed: bool)
    requires Numeric(f) && (r == "" || !IsDec(r[0]))
    ensures TakeDigits(f + r, false, Decimal, signed) == (State(r, false), DecValue(f))
  {
    DecHex(f);
    DecRunField(f, r);
    assert (f + r)[..|f|] == f && (f + r)[|f|..] == r;
  }

  function DecValues(fs: seq<string>): (vs: seq<int>)
    ensures |vs| == |fs| && forall i :: 0 <= i < |fs| ==> vs[i] == DecValue(fs[i])
  {
    seq(|fs|, i requires 0 <= i < |fs| => DecValue(fs[i]))
  }

  lemma DotCons(fs: seq<string>)
    requires fs != []
    ensures DotBefore(fs) == "." + (fs[0] + DotBefore(fs[1..]))
    ensures DecValues(fs) == [DecValue(fs[0])] + DecValues(fs[1..])
  {
  }

  lemma FieldsCons(fs: seq<string>)
    requires fs != [] && forall f :: f in fs ==> Field(f)
    ensures Field(fs[0]) && forall f :: f in fs[1..] ==> Field(f)
  {
    assert forall g :: g in fs[1..] ==> g in fs;
  }

  lemma {:induction false} TakeMoreFields(fs: seq<string>, signed: bool)
    requires forall f :: f in fs ==> Field(f)
    ensures TakeMore(State(DotBefore(fs), false), |fs|, signed) == (DecValues(fs), State("", false))
  {
    hide TakeNumber, TakeChar, TakeMore, DecValue, Field, DotBefore, DecValues;
    if fs == [] {
      NoFields(signed);
    } else {
      var f, t := fs[0], fs[1..];
      FieldsCons(fs);
      DotCons(fs);
      TakeDot(f + DotBefore(t));
      FieldsTail(t);
      FieldNumeric(f);
      TakeField(f, DotBefore(t), signed);
      TakeMoreFields(t, signed);
      var vs := [DecValue(f)] + DecValues(t);
      assert vs[1..] == DecValues(t);
      MoreStep(State(DotBefore(fs), false), |t|, signed, State(DotBefore(t), false), vs, State("", false));
    }
  }

  lemma NoFields(signed: bool)
    ensures TakeMore(State(DotBefore([]), false), 0, signed) == (DecValues([]), State("", false))
  {
  }

  lemma FieldsTail(fs: seq<string>)
    ensures DotBefore(fs) == "" || !IsDec(DotBefore(fs)[0])
  {
  }

  lemma DottedFields(fs: seq<string>, signed: bool)
    requires fs != [] && forall f :: f in fs ==> Field(f)
    ensures Dotted(DotJoin(fs), |fs|, signed) == (DecValues(fs), State("", false))
  {
    hide TakeNumber, TakeMore, DecValue, Field, DotBefore, DecValues;
    var f, t := fs[0], fs[1..];
    FieldsCons(fs);
    DotCons(fs);
    FieldsTail(t);
    FieldNumeric(f);
    TakeField(f, DotBefore(t), signed);
    TakeMoreFields(t, signed);
  }

  lemma NumeralsFields(b: seq<octet>)
    ensures forall f :: f in Numerals(b) ==> Field(f) && OctetText(f)
    ensures DecValues(Numerals(b)) == b
  {
    forall i | 0 <= i < |b|
      ensures Field(Numerals(b)[i]) && OctetText(Numerals(b)[i]) && DecValue(Numerals(b)[i]) == b[i]
    {
      NumeralLength(b[i]);
      ValueNumeral(b[i], Decimal);
      OctetTextIff(Numerals(b)[i]);
    }
  }

  /** Any octets printed with dots are read back. */
  lemma DottedRoundTrip(b: seq<octet>, signed: bool)
    requires b != []
    ensures Dotted(DottedText(b), |b|, signed) == (b, State("", false))
  {
    NumeralsFields(b);
    DottedFields(Numerals(b), signed);
  }

  // ----- setters, as functions of kind, address and text -----

  /** The cast to unsigned char. */
  function Lo8(v: int): octet { v % 256 }

  function Octets(vs: seq<int>): (b: seq<octet>)
    ensures |b| == |vs| && forall i :: 0 <= i < |vs| ==> b[i] == Lo8(vs[i])
  {
    seq(|vs|, i requires 0 <= i < |vs| => Lo8(vs[i]))
  }

  predicate InRange(vs: seq<int>) { forall v :: v in vs ==> v <= 255 }

  /** The text decides, and everything in front of the last four bytes stays. A text that
      goes on behind the fourth number is refused after the bytes are stored. */
  function IPv4Outcome(kind: int32, address: seq<octet>, text: string): (r: Outcome)
    requires |address| == 16
    ensures |r.address| == 16
  {
    var (vs, u) := Dotted(text, 4, false);
    if !IsV4(kind) || u.failed || !InRange(vs) then Outcome(false, address)
    else Outcome(u.rest == "", address[..12] + Octets(vs))
  }

  function WanOutcome(address: seq<octet>, text: string): (r: Outcome)
    requires |address| == 16
    ensures |r.address| == 16
  {
    var (vs, u) := Dotted(text, 4, true);
    if u.failed then Outcome(false, address)
    else Outcome(true, address[..8] + Octets(vs) + address[12..])
  }

  function LanOutcome(kind: int32, address: seq<octet>, text: string): (r: Outcome)
    requires |address| == 16
    ensures |r.address| == 16
  {
    var (vs, u) := Dotted(text, 8, true);
    if kind != KIND_TCPv4 || u.failed then Outcome(false, address)
    else Outcome(true, Octets(vs) + address[8..])
  }

  /** All three parts, or an address of zeros. */
  function ThreePartOutcome(kind: int32, address: seq<octet>, lan: string, wan: string, ipv4: string): Outcome
    requires |address| == 16
  {
    var l := LanOutcome(kind, address, lan);
    var w := WanOutcome(l.address, wan);
    var i := IPv4Outcome(kind, w.address, ipv4);
    if l.ok && w.ok && i.ok then Outcome(true, i.address) else Outcome(false, ZERO_ADDRESS)
  }

  // ----- what the setters promise -----

  /** Every text the regular expression matches is accepted, with the value of each field,
      and only the last four bytes change. */
  lemma RegexAccepted(kind: int32, address: seq<octet>, s: string, fs: seq<string>)
    requires IsV4(kind) && |address| == 16 && IsIPv4Fields(s, fs)
    ensures var r := IPv4Outcome(kind, address, s);
      && r.ok && r.address[..12] == address[..12]
      && forall i :: 0 <= i < 4 ==> r.address[12 + i] == DecValue(fs[i])
  {
    hide Dotted, DotJoin, OctetText;
    forall f | f in fs ensures Field(f) && DecValue(f) <= 255 {
      OctetTextIff(f);
      DecHex(f);
    }
    DottedFields(fs, false);
    assert forall i :: 0 <= i < 4 ==> fs[i] in fs;
  }

  /** Printed addresses match the expression, are short enough for the sixteen-character
      buffer of getIpByLocatorv4, and are read back to the same four bytes. */
  lemma IPv4RoundTrip(kind: int32, address: seq<octet>, b: seq<octet>)
    requires IsV4(kind) && |address| == 16 && |b| == 4
    ensures IsIPv4(DottedText(b)) && 7 <= |DottedText(b)| <= 15
    ensures IPv4Outcome(kind, address, DottedText(b)) == Outcome(true, address[..12] + b)
  {
    hide Dotted, OctetText, Numerals, DotJoin, Field;
    NumeralsFields(b);
    assert IsIPv4Fields(DottedText(b), Numerals(b));
    DottedRoundTrip(b, false);
    assert Octets(b) == b;
    DotJoinLength(Numerals(b));
  }

  lemma {:induction false} DotBeforeLength(fs: seq<string>)
    requires forall f :: f in fs ==> Field(f)
    ensures 2 * |fs| <= |DotBefore(fs)| <= 4 * |fs|
  {
    if fs != [] {
      assert fs[0] in fs;
      assert forall f :: f in fs[1..] ==> f in fs;
      DotBeforeLength(fs[1..]);
    }
  }

  lemma DotJoinLength(fs: seq<string>)
    requires |fs| == 4 && forall f :: f in fs ==> Field(f)
    ensures 7 <= |DotJoin(fs)| <= 15
  {
    assert fs[0] in fs;
    assert forall f :: f in fs[1..] ==> f in fs;
    DotBeforeLength(fs[1..]);
  }

  /** Four fields with one and the same character between neighbours. */
  function Separated(f0: string, f1: string, f2: string, f3: string, c: char): string {
    f0 + ([c] + f1 + ([c] + f2 + ([c] + f3)))
  }

  lemma SeparatorStep(f: string, r: string, c: char, n: nat)
    requires Field(f) && (r == "" || !IsDec(r[0])) && n > 0 && !IsSpace(c)
    ensures var (vs, u) := TakeMore(State(r, false), n - 1, false);
      TakeMore(State([c] + f + r, false), n, false) == ([DecValue(f)] + vs, u)
  {
    hide TakeNumber;
    assert ([c] + f + r)[1..] == f + r;
    FieldNumeric(f);
    TakeField(f, r, false);
  }

  /** The setter is laxer than the expression: any character that is neither white space nor
      a digit separates the numbers, not only the dot. */
  lemma {:induction false} SeparatorIgnored(
    kind: int32, address: seq<octet>, f0: string, f1: string, f2: string, f3: string, c: char)
    requires IsV4(kind) && |address| == 16
    requires OctetText(f0) && OctetText(f1) && OctetText(f2) && OctetText(f3)
    requires !IsSpace(c) && !IsDec(c)
    ensures IPv4Outcome(kind, address, Separated(f0, f1, f2, f3, c)) ==
            Outcome(true, address[..12] + Octets([DecValue(f0), DecValue(f1), DecValue(f2), DecValue(f3)]))
    ensures c != '.' ==> !IsIPv4(Separated(f0, f1, f2, f3, c))
  {
    hide Dotted, Separated, OctetText;
    OctetTextIff(f0);
    OctetTextIff(f1);
    OctetTextIff(f2);
    OctetTextIff(f3);
    SeparatedRead(f0, f1, f2, f3, c);
    if fs :| c != '.' && IsIPv4Fields(Separated(f0, f1, f2, f3, c), fs) {
      assert DotBefore(fs[1..])[0] == '.';
      assert '.' in DotJoin(fs);
      SeparatedChars(f0, f1, f2, f3, c);
      assert false;
    }
  }

  lemma SeparatedChars(f0: string, f1: string, f2: string, f3: string, c: char)
    requires AllDec(f0) && AllDec(f1) && AllDec(f2) && AllDec(f3)
    ensures forall x :: x in Separated(f0, f1, f2, f3, c) ==> IsDec(x) || x == c
  {
  }

  lemma SeparatedRead(f0: string, f1: string, f2: string, f3: string, c: char)
    requires Field(f0) && Field(f1) && Field(f2) && Field(f3) && !IsSpace(c) && !IsDec(c)
    ensures Dotted(Separated(f0, f1, f2, f3, c), 4, false) ==
            ([DecValue(f0), DecValue(f1), DecValue(f2), DecValue(f3)], State("", false))
  {
    hide TakeNumber, TakeMore, Field, DecValue;
    var r3 := [c] + f3 + "";
    var r2 := [c] + f2 + r3;
    var r1 := [c] + f1 + r2;
    SeparatorStep(f3, "", c, 1);
    SeparatorStep(f2, r3, c, 2);
    SeparatorStep(f1, r2, c, 3);
    FieldNumeric(f0);
    TakeField(f0, r1, false);
    assert r3 == [c] + f3 && Separated(f0, f1, f2, f3, c) == f0 + r1;
    MoreNone(State("", false), false);
    var v0, v1, v2, v3 := DecValue(f0), DecValue(f1), DecValue(f2), DecValue(f3);
    assert [v3] + [] == [v3] && [v2] + [v3] == [v2, v3] && [v1] + [v2, v3] == [v1, v2, v3];
    assert [v0] + [v1, v2, v3] == [v0, v1, v2, v3];
  }

  lemma ThreePartRoundTrip(address: seq<octet>, target: seq<octet>)
    requires |address| == |target| == 16
    ensures ThreePartOutcome(KIND_TCPv4, target,
              DottedText(address[..8]), DottedText(address[8..12]), DottedText(address[12..]))
         == Outcome(true, address)
  {
    hide Dotted, DottedText;
    DottedRoundTrip(address[..8], true);
    DottedRoundTrip(address[8..12], true);
    var l := LanOutcome(KIND_TCPv4, target, DottedText(address[..8]));
    assert Octets(address[..8]) == address[..8];
    var w := WanOutcome(l.address, DottedText(address[8..12]));
    assert Octets(address[8..12]) == address[8..12];
    IPv4RoundTrip(KIND_TCPv4, w.address, address[12..]);
    assert w.address[..12] + address[12..] == address;
  }

  // ----- the code -----

  method ToIPv4String(locator: Locator) returns (text: string)
    requires locator.Valid()
    ensures text == DottedText(locator.address[12..])
  {
    text := PrintFour(locator, 12);
  }

  method ToWanString(locator: Locator) returns (text: string)
    requires locator.Valid()
    ensures text == DottedText(locator.address[8..12])
  {
    text := PrintFour(locator, 8);
  }

  /** sprintf("%d.%d.%d.%d") into a buffer of sixteen characters. */
  method GetIpByLocatorV4(locator: Locator) returns (text: string)
    requires locator.Valid()
    ensures text == DottedText(locator.address[12..]) && |text| < 16
  {
    IPv4RoundTrip(KIND_UDPv4, ZERO_ADDRESS, locator.address[12..]);
    text := PrintFour(locator, 12);
  }

  /** `ss << (int)address[from] << "." << ...` */
  method PrintFour(locator: Locator, from: nat) returns (text: string)
    requires locator.Valid() && from + 4 <= 16
    ensures from + 4 == 16 ==> text == DottedText(locator.address[from..])
    ensures text == DottedText(locator.address[from..from + 4])
  {
    hide DottedText;
    var b := locator.address[from..from + 4];
    assert from + 4 == 16 ==> b == locator.address[from..];
    DottedSnoc(b, 0);
    DottedSnoc(b, 1);
    DottedSnoc(b, 2);
    DottedSnoc(b, 3);
    assert b[..4] == b;
    text := Numeral(b[0], Decimal) + ("." + Numeral(b[1], Decimal)) + ("." + Numeral(b[2], Decimal))
      + ("." + Numeral(b[3], Decimal));
  }

  method ToLanIDString(locator: Locator) returns (text: string)
    requires locator.Valid()
    ensures text == if locator.kind == KIND_TCPv4 then DottedText(locator.address[..8]) else ""
  {
    hide DottedText;
    if locator.kind != KIND_TCPv4 {
      return "";
    }
    var b := locator.address[..8];
    DottedSnoc(b, 0);
    DottedSnoc(b, 1);
    DottedSnoc(b, 2);
    DottedSnoc(b, 3);
    DottedSnoc(b, 4);
    DottedSnoc(b, 5);
    DottedSnoc(b, 6);
    DottedSnoc(b, 7);
    assert b[..8] == b;
    text := Numeral(b[0], Decimal) + ("." + Numeral(b[1], Decimal)) + ("." + Numeral(b[2], Decimal))
      + ("." + Numeral(b[3], Decimal)) + ("." + Numeral(b[4], Decimal)) + ("." + Numeral(b[5], Decimal))
      + ("." + Numeral(b[6], Decimal)) + ("." + Numeral(b[7], Decimal));
  }

  lemma DottedSnoc(b: seq<octet>, i: nat)
    requires i < |b|
    ensures DottedText(b[..i + 1]) ==
      if i == 0 then Numeral(b[0], Decimal)
      else DottedText(b[..i]) + ("." + Numeral(b[i], Decimal))
  {
    var fs := Numerals(b[..i]);
    assert Numerals(b[..i + 1]) == fs + [Numeral(b[i], Decimal)];
    if i > 0 {
      assert (fs + [Numeral(b[i], Decimal)])[1..] == fs[1..] + [Numeral(b[i], Decimal)];
      DotBeforeSnoc(fs[1..], Numeral(b[i], Decimal));
    }
  }

  lemma {:induction false} DotBeforeSnoc(fs: seq<string>, f: string)
    ensures DotBefore(fs + [f]) == DotBefore(fs) + ("." + f)
  {
    if fs == [] {
      assert DotBefore([f]) == "." + f + "";
    } else {
      assert (fs + [f])[1..] == fs[1..] + [f];
      DotBeforeSnoc(fs[1..], f);
    }
  }

  /** `ss >> a >> ch >> b >> ch >> c >> ch >> d` */
  method ExtractFour(ss: InputStream, signed: bool) returns (a: int, b: int, c: int, d: int)
    requires ss.Valid() && !ss.failed
    modifies ss`pos, ss`failed
    ensures ss.Valid() && ([a, b, c, d], ss.View()) == Dotted(old(ss.Rest()), 4, signed)
  {
    hide TakeNumber, TakeChar, TakeMore;
    a := ss.ExtractNumber(0, signed);
    b, c, d := ExtractThree(ss, signed);
    assert [a] + [b, c, d] == [a, b, c, d];
  }

  /** `ss >> ch >> b >> ch >> c >> ch >> d` */
  method ExtractThree(ss: InputStream, signed: bool) returns (b: int, c: int, d: int)
    requires ss.Valid()
    modifies ss`pos, ss`failed
    ensures ss.Valid() && ([b, c, d], ss.View()) == TakeMore(old(ss.View()), 3, signed)
  {
    hide TakeNumber, TakeChar, TakeMore;
    ghost var s0 := ss.View();
    var ch := ss.ExtractChar(' ');
    b := ss.ExtractNumber(0, signed);
    ghost var s1 := ss.View();
    ch := ss.ExtractChar(ch);
    c := ss.ExtractNumber(0, signed);
    ghost var s2 := ss.View();
    ch := ss.ExtractChar(ch);
    d := ss.ExtractNumber(0, signed);
    ghost var s3 := ss.View();
    MoreThree(s0, s1, s2, s3, signed, b, c, d);
  }

  lemma MoreThree(s0: State, s1: State, s2: State, s3: State, signed: bool, b: int, c: int, d: int)
    requires TakeNumber(TakeChar(s0), 0, signed) == (s1, b)
    requires TakeNumber(TakeChar(s1), 0, signed) == (s2, c)
    requires TakeNumber(TakeChar(s2), 0, signed) == (s3, d)
    ensures TakeMore(s0, 3, signed) == ([b, c, d], s3)
  {
    hide TakeNumber, TakeChar, TakeMore;
    MoreNone(s3, signed);
    assert [d][1..] == [] && [c, d][1..] == [d] && [b, c, d][1..] == [c, d];
    MoreStep(s2, 0, signed, s3, [d], s3);
    MoreStep(s1, 1, signed, s2, [c, d], s3);
    MoreStep(s0, 2, signed, s1, [b, c, d], s3);
  }

  /** `ss >> a >> ch >> b >> ... >> h` */
  method ExtractEight(ss: InputStream) returns (vs: seq<int>)
    requires ss.Valid() && !ss.failed
    modifies ss`pos, ss`failed
    ensures ss.Valid() && (vs, ss.View()) == Dotted(old(ss.Rest()), 8, true)
  {
    hide TakeNumber, TakeChar, TakeMore;
    var a := ss.ExtractNumber(0, true);
    ghost var s0 := ss.View();
    var b, c, d := ExtractThree(ss, true);
    ghost var s3 := ss.View();
    var ch := ss.ExtractChar(' ');
    var e := ss.ExtractNumber(0, true);
    ghost var s4 := ss.View();
    var f, g, h := ExtractThree(ss, true);
    assert [e, f, g, h][1..] == [f, g, h];
    MoreStep(s3, 3, true, s4, [e, f, g, h], ss.View());
    TakeMoreSplit(s0, 3, 4, true);
    vs := [a, b, c, d, e, f, g, h];
    assert vs == [a] + ([b, c, d] + [e, f, g, h]);
  }

  lemma {:induction false} TakeMoreSplit(s: State, n: nat, m: nat, signed: bool)
    ensures var (vs, t) := TakeMore(s, n, signed); var (ws, u) := TakeMore(t, m, signed);
      TakeMore(s, n + m, signed) == (vs + ws, u)
    decreases n
  {
    hide TakeNumber, TakeChar;
    if n == 0 {
      assert [] + TakeMore(s, m, signed).0 == TakeMore(s, m, signed).0;
    } else {
      var (t, v) := TakeNumber(TakeChar(s), 0, signed);
      TakeMoreSplit(t, n - 1, m, signed);
      var (vs, w) := TakeMore(t, n - 1, signed);
      var (ws, u) := TakeMore(w, m, signed);
      assert [v] + (vs + ws) == ([v] + vs) + ws;
    }
  }

  method SetIPv4(locator: Locator, ipv4: string) returns (ok: bool)
    requires locator.Valid()
    modifies locator.address
    ensures Outcome(ok, locator.address[..]) ==
            IPv4Outcome(locator.kind, old(locator.address[..]), ipv4)
  {
    hide Dotted;
    if locator.kind != KIND_TCPv4 && locator.kind != KIND_UDPv4 {
      return false;
    }
    var ss := new InputStream(ipv4);
    var a, b, c, d := ExtractFour(ss, false);
    if !ss.failed {
      if a > 255 || b > 255 || c > 255 || d > 255 {
        assert a in [a, b, c, d] && b in [a, b, c, d] && c in [a, b, c, d] && d in [a, b, c, d];
        return false;
      }
      locator.address[12] := Lo8(a);
      locator.address[13] := Lo8(b);
      locator.address[14] := Lo8(c);
      locator.address[15] := Lo8(d);
      assert locator.address[..] == old(locator.address[..12]) + Octets([a, b, c, d]);
      return ss.InAvail() == 0;
    }
    return false;
  }

  method SetWan(locator: Locator, wan: string) returns (ok: bool)
    requires locator.Valid()
    modifies locator.address
    ensures Outcome(ok, locator.address[..]) == WanOutcome(old(locator.address[..]), wan)
  {
    hide Dotted;
    var ss := new InputStream(wan);
    var a, b, c, d := ExtractFour(ss, true);
    if !ss.failed {
      locator.address[8] := Lo8(a);
      locator.address[9] := Lo8(b);
      locator.address[10] := Lo8(c);
      locator.address[11] := Lo8(d);
      assert locator.address[..] ==
        old(locator.address[..8]) + Octets([a, b, c, d]) + old(locator.address[12..]);
      return true;
    }
    return false;
  }

  method StoreEight(locator: Locator, vs: seq<int>)
    requires locator.Valid() && |vs| == 8
    modifies locator.address
    ensures locator.address[..] == Octets(vs) + old(locator.address[8..])
  {
    locator.address[0] := Lo8(vs[0]);
    locator.address[1] := Lo8(vs[1]);
    locator.address[2] := Lo8(vs[2]);
    locator.address[3] := Lo8(vs[3]);
    locator.address[4] := Lo8(vs[4]);
    locator.address[5] := Lo8(vs[5]);
    locator.address[6] := Lo8(vs[6]);
    locator.address[7] := Lo8(vs[7]);
    assert locator.address[..8] == Octets(vs);
    assert locator.address[8..] == old(locator.address[8..]);
    assert locator.address[..] == locator.address[..8] + locator.address[8..];
  }

  method SetLanID(locator: Locator, lanId: string) returns (ok: bool)
    requires locator.Valid()
    modifies locator.address
    ensures Outcome(ok, locator.address[..]) ==
            LanOutcome(locator.kind, old(locator.address[..]), lanId)
  {
    hide Dotted, Octets;
    if locator.kind == KIND_TCPv4 {
      var ss := new InputStream(lanId);
      var vs := ExtractEight(ss);
      if !ss.failed {
        StoreEight(locator, vs);
        return true;
      }
    }
    return false;
  }

  /** A locator whose three parts are not all readable is left without an address. */
  method SetIPv4Address(locator: Locator, lan: string, wan: string, ipv4: string) returns (ok: bool)
    requires locator.Valid()
    modifies locator.address
    ensures Outcome(ok, locator.address[..]) ==
            ThreePartOutcome(locator.kind, old(locator.address[..]), lan, wan, ipv4)
    ensures !ok ==> locator.address[..] == ZERO_ADDRESS
  {
    hide LanOutcome, WanOutcome, IPv4Outcome;
    ok := SetLanID(locator, lan);
    if ok {
      ok := SetWan(locator, wan);
      if ok {
        ok := SetIPv4(locator, ipv4);
        if ok {
          return true;
        }
      }
    }
    locator.SetInvalidAddress();
    ok := false;
  }
}
