/** The gate, the reader and the printer by their numbers: which lists of groups are taken,
    and concrete texts with their sixteen bytes. */
module IPv6Examples {
  import opened Text
  import opened Digits
  import opened IPv6Grammar
  import opened IPv6Gate
  import opened IPv6Text
  import opened IPv6Meaning
  import opened IPv6Letters
  import opened IPv6Printer
  import opened IPv6Codec
  import opened Locators
  import opened ZeroRuns

  // ----- the gate -----

  /** Between three and eight fields of one to four hexadecimal digits. */
  lemma ListAccepted(fs: seq<string>)
    requires forall f :: f in fs ==> f != "" && ':' !in f && '%' !in f
    ensures Accepts(Join(fs)) <==>
      3 <= |fs| <= 8 && forall f :: f in fs ==> |f| <= 4 && forall c :: c in f ==> c in "0123456789abcdefABCDEF"
  {
    hide Join, Split;
    var s := Join(fs);
    JoinPercent(fs);
    AddressPartTail(s, "");
    assert s + "" == s;
    ChecksGrammar(s);
    HexFields(fs);
    if fs == [] {
      assert Join(fs) == "" by { JoinNone(); }
    } else {
      SplitJoin(fs);
      ColonsJoin(fs);
      SplitNoneEmpty(s);
    }
  }

  lemma HexFields(fs: seq<string>)
    ensures (forall f :: f in fs ==> Quartet(f)) <==>
      forall f :: f in fs ==> |f| <= 4 && forall c :: c in f ==> c in "0123456789abcdefABCDEF"
  {
    forall c ensures IsHex(c) <==> c in "0123456789abcdefABCDEF" { HexSet(c); }
  }

  lemma {:induction false} JoinPercent(fs: seq<string>)
    requires forall f :: f in fs ==> '%' !in f
    ensures '%' !in Join(fs) && '%' !in Before(fs)
  {
    if fs != [] {
      assert fs[0] in fs;
      assert forall f :: f in fs[1..] ==> f in fs;
      JoinPercent(fs[1..]);
    }
  }

  /** "::" between at most seven fields, all together. */
  lemma DoubleAccepted(ps: seq<string>, qs: seq<string>)
    requires forall f :: f in ps + qs ==> f != "" && ':' !in f && '%' !in f
    ensures Accepts(Join(ps) + "::" + Join(qs)) <==>
      |ps| + |qs| <= 7 && forall f :: f in ps + qs ==> |f| <= 4 && forall c :: c in f ==> c in "0123456789abcdefABCDEF"
  {
    hide Join, Split, Quartet, Colons;
    var s := Join(ps) + "::" + Join(qs);
    assert forall f :: f in ps + qs <==> f in ps || f in qs;
    JoinPercent(ps);
    JoinPercent(qs);
    AddressPartTail(s, "");
    assert s + "" == s;
    ChecksGrammar(s);
    HexFields(ps + qs);
    if |ps| + |qs| <= 7 && forall f :: f in ps + qs ==> Quartet(f) {
      FieldGroups(ps);
      FieldGroups(qs);
      assert IsForm2(s, ps, qs);
    }
    if Checks(s) { DoubleChecks(ps, qs); }
  }

  lemma FieldGroups(fs: seq<string>)
    requires forall f :: f in fs ==> f != "" && Quartet(f)
    ensures Groups(fs)
  {
  }

  lemma PlainEnds(fs: seq<string>)
    requires forall f :: f in fs ==> f != "" && ':' !in f
    ensures Colons(Join(fs)) == if fs == [] then 0 else |fs| - 1
    ensures fs != [] ==> Split(Join(fs)) == fs
    ensures Join(fs) == "" <==> fs == []
    ensures fs != [] ==> Join(fs)[0] != ':' && Join(fs)[|Join(fs)| - 1] != ':'
  {
    ColonsJoin(fs);
    if fs != [] {
      SplitJoin(fs);
      SplitNoneEmpty(Join(fs));
    }
  }

  lemma DoubleChecks(ps: seq<string>, qs: seq<string>)
    requires forall f :: f in ps || f in qs ==> f != "" && ':' !in f
    requires Checks(Join(ps) + "::" + Join(qs))
    ensures |ps| + |qs| <= 7 && forall f :: f in ps || f in qs ==> Quartet(f)
  {
    hide Join, Split, Quartet, Colons;
    var a, b := Join(ps), Join(qs);
    var s := a + "::" + b;
    PlainEnds(ps);
    PlainEnds(qs);
    SplitDouble(a, b);
    assert forall f :: f in Split(a) || f in Split(b) ==> f in Split(s);
    assert a != "" ==> s[0] == a[0];
    assert b != "" ==> s[|s| - 1] == b[|b| - 1];
  }

  // ----- texts and their bytes -----

  /** A list of fields, one in front of the others. */
  lemma JoinStep(f: string, fs: seq<string>)
    ensures Join([f] + fs) == f + Before(fs) && Before([f] + fs) == ":" + f + Before(fs)
  {
    assert ([f] + fs)[1..] == fs;
  }

  lemma FourDigits(f: string)
    requires |f| == 4 && AllHex(f)
    ensures Group(f)
    ensures GroupValue(f) == DigitValue(f[0]) * 4096 + DigitValue(f[1]) * 256 + DigitValue(f[2]) * 16 + DigitValue(f[3])
  {
    HexPlaces(f);
  }

  lemma EightFields(fs: seq<string>)
    requires fs == ["0123", "4567", "89ab", "cdef", "FEDC", "BA98", "7654", "3210"]
    ensures Groups(fs)
    ensures Values(fs) == [0x0123, 0x4567, 0x89ab, 0xcdef, 0xfedc, 0xba98, 0x7654, 0x3210]
  {
    hide GroupValue, Group;
    FourDigits("0123");
    FourDigits("4567");
    FourDigits("89ab");
    FourDigits("cdef");
    FourDigits("FEDC");
    FourDigits("BA98");
    FourDigits("7654");
    FourDigits("3210");
  }

  lemma LastFour(fs: seq<string>)
    requires fs == ["FEDC", "BA98", "7654", "3210"]
    ensures Before(fs) == ":FEDC:BA98:7654:3210"
  {
    hide Before;
    NoBefore();
    assert fs[3..] == ["3210"] + [];
    JoinStep("3210", []);
    assert fs[2..] == ["7654"] + fs[3..];
    JoinStep("7654", fs[3..]);
    assert fs[1..] == ["BA98"] + fs[2..];
    JoinStep("BA98", fs[2..]);
    assert fs == ["FEDC"] + fs[1..];
    JoinStep("FEDC", fs[1..]);
  }

  lemma EightText(fs: seq<string>)
    requires fs == ["0123", "4567", "89ab", "cdef", "FEDC", "BA98", "7654", "3210"]
    ensures Join(fs) == "0123:4567:89ab:cdef:FEDC:BA98:7654:3210"
  {
    hide Join, Before;
    var tail := Before(fs[4..]);
    LastFour(fs[4..]);
    assert fs[3..] == ["cdef"] + fs[4..];
    JoinStep("cdef", fs[4..]);
    assert fs[2..] == ["89ab"] + fs[3..];
    JoinStep("89ab", fs[3..]);
    assert fs[1..] == ["4567"] + fs[2..];
    JoinStep("4567", fs[2..]);
    assert fs == ["0123"] + fs[1..];
    JoinStep("0123", fs[1..]);
    assert "0123" + (":" + "4567" + (":" + "89ab" + (":" + "cdef" + tail))) == "0123:4567:89ab:cdef" + tail;
  }

  lemma NoBefore()
    ensures Before([]) == "" && Join([]) == ""
  {
  }

  lemma {:induction false} ReadFields(fs: seq<string>)
    requires Groups(fs) && |fs| == 8
    ensures Accepts(Join(fs)) && StaysInside(Join(fs))
    ensures ReadText(Join(fs)) == Outcome(true, Bytes(Values(fs)))
  {
    hide Join, Values, Groups, ReadText, StaysInside, Accepts, Bytes;
    var s := Join(fs);
    assert IsForm1(s, fs);
    ExpandForm1(fs);
    ReadAddress(s, "");
    assert s + "" == s;
  }

  /** Groups and digits from left to right, the high byte of a group first. */
  lemma ReadEight()
    ensures var s := "0123:4567:89ab:cdef:FEDC:BA98:7654:3210";
      Accepts(s) && StaysInside(s) && ReadText(s) == Outcome(true,
        [0x01, 0x23, 0x45, 0x67, 0x89, 0xab, 0xcd, 0xef, 0xfe, 0xdc, 0xba, 0x98, 0x76, 0x54, 0x32, 0x10])
  {
    hide Join, Before, Values, Groups, ReadText, StaysInside, Accepts, Bytes, GroupValue;
    var fs := ["0123", "4567", "89ab", "cdef", "FEDC", "BA98", "7654", "3210"];
    EightFields(fs);
    EightText(fs);
    ReadFields(fs);
    EightBytes(0x0123, 0x4567, 0x89ab, 0xcdef, 0xfedc, 0xba98, 0x7654, 0x3210);
  }

  lemma EightBytes(a: nat, b: nat, c: nat, d: nat, e: nat, f: nat, g: nat, h: nat)
    requires a < 65536 && b < 65536 && c < 65536 && d < 65536
    requires e < 65536 && f < 65536 && g < 65536 && h < 65536
    ensures Bytes([a, b, c, d, e, f, g, h]) ==
      [a / 256, a % 256, b / 256, b % 256, c / 256, c % 256, d / 256, d % 256,
       e / 256, e % 256, f / 256, f % 256, g / 256, g % 256, h / 256, h % 256]
  {
    hide Bytes;
    OneGroupBytes([a, b, c, d, e, f, g, h], 0);
    OneGroupBytes([a, b, c, d, e, f, g, h], 1);
    OneGroupBytes([a, b, c, d, e, f, g, h], 2);
    OneGroupBytes([a, b, c, d, e, f, g, h], 3);
    OneGroupBytes([a, b, c, d, e, f, g, h], 4);
    OneGroupBytes([a, b, c, d, e, f, g, h], 5);
    OneGroupBytes([a, b, c, d, e, f, g, h], 6);
    OneGroupBytes([a, b, c, d, e, f, g, h], 7);
  }

  /** Each group becomes two bytes, the high one first. */
  lemma {:induction false} OneGroupBytes(gs: seq<nat>, i: nat)
    requires i < |gs| && gs[i] < 65536
    ensures Bytes(gs)[2 * i] == gs[i] / 256 && Bytes(gs)[2 * i + 1] == gs[i] % 256
  {
    if i > 0 { OneGroupBytes(gs[1..], i - 1); }
  }

  /** "FE80::1", upper case. */
  lemma ReadLinkLocal()
    ensures var s := "FE80::1";
      Accepts(s) && StaysInside(s) &&
      ReadText(s) == Outcome(true, [0xfe, 0x80, 0, 0, 0, 0, 0, 0, 0, 0, 0, 0, 0, 0, 0, 1])
  {
    hide Join, Values, Groups, ReadText, StaysInside, Accepts, IsAddress, Expand, Bytes;
    var ps, qs := ["FE80"], ["1"];
    LinkLocalParts();
    FormTwo("FE80::1", ps, qs);
    ExpandForm2(ps, qs);
    ReadAddress("FE80::1", "");
    assert "FE80::1" + "" == "FE80::1";
    EightBytes(0xfe80, 0, 0, 0, 0, 0, 0, 1);
    assert [0xfe80] + Zeros(6) + [1] == [0xfe80, 0, 0, 0, 0, 0, 0, 1];
  }

  lemma FormTwo(s: string, ps: seq<string>, qs: seq<string>)
    requires Groups(ps) && Groups(qs) && |ps| + |qs| <= 7 && s == Join(ps) + "::" + Join(qs)
    ensures IsAddress(s)
  {
    assert IsForm2(s, ps, qs);
  }

  lemma LinkLocalParts()
    ensures var ps, qs := ["FE80"], ["1"];
      && Groups(ps) && Groups(qs) && Join(ps) + "::" + Join(qs) == "FE80::1"
      && Values(ps) == [0xfe80] && Values(qs) == [1]
  {
    hide GroupValue, Before;
    NoBefore();
    assert ["FE80"][1..] == [] && ["1"][1..] == [];
    FourDigits("FE80");
    assert GroupValue("1") == 1 by { HexPlaces("1"); OneDigit("1"); }
  }

  lemma OneDigit(f: string)
    requires |f| == 1 && AllHex(f)
    ensures GroupValue(f) == DigitValue(f[0])
  {
    HexPlaces(f);
  }

  // ----- the printer -----

  /** "::" stands for a run of two zero groups or more that is longer than any other, or the
      leftmost of those that are as long. */
  lemma PrintedRun(g: seq<nat>, a: nat, n: nat)
    requires |g| == 8 && n >= 2 && ZeroRun(g, a, n)
    requires forall b, m :: ZeroRun(g, b, m) ==> m < n || (m == n && a <= b)
    ensures CanonicalText(g) == Join(Texts(g[..a])) + "::" + Join(Texts(g[a + n..]))
  {
    var (b, m) := LongestRun(g);
    assert ZeroRun(g, b, m);
    LongestUnique(g, a, n, b, m);
  }

  lemma RunStart(g: seq<nat>, a: int, n: int)
    requires ZeroRun(g, a, n)
    ensures n >= 2 ==> g[a] == 0 && g[a + 1] == 0
    ensures n >= 3 ==> g[a + 2] == 0
  {
  }

  /** Without two zero groups side by side all eight are printed. */
  lemma PrintedFull(g: seq<nat>)
    requires |g| == 8 && forall i :: 0 <= i < 7 && g[i] == 0 ==> g[i + 1] != 0
    ensures CanonicalText(g) == Join(Texts(g))
  {
    var (a, n) := LongestRun(g);
    RunStart(g, a, n);
  }

  /** The digits of a group: lower case, and no zero in front of another digit. */
  lemma HexText(v: nat, f: string)
    ensures f == Hex(v) <==>
      && f != "" && (forall c :: c in f ==> c in "0123456789abcdef") && (f[0] == '0' ==> |f| == 1)
      && GroupValue(f) == v
  {
    NumeralCanonical(v, Hexadecimal);
    ValueNumeral(v, Hexadecimal);
    forall c ensures IsHex(c) && !('A' <= c <= 'Z') <==> c in "0123456789abcdef" { HexSet(c); }
    if f != "" && (forall c :: c in f ==> c in "0123456789abcdef") && (f[0] == '0' ==> |f| == 1) && GroupValue(f) == v {
      assert forall c :: c in f ==> IsHex(c) && !('A' <= c <= 'Z');
      NumeralValue(f, Hexadecimal);
    }
  }

  /** The example of section 4.2.3 of RFC 5952: of two runs of two, the first is compressed. */
  lemma PrintTie()
    ensures CanonicalText(GroupsOf([0x20, 0x01, 0x0d, 0xb8, 0, 0, 0, 0, 0, 1, 0, 0, 0, 0, 0, 1])) == "2001:db8::1:0:0:1"
  {
    hide CanonicalText, Texts, Join, GroupsOf, Hex;
    var g := [0x2001, 0xdb8, 0, 0, 1, 0, 0, 1];
    var b := [0x20, 0x01, 0x0d, 0xb8, 0, 0, 0, 0, 0, 1, 0, 0, 0, 0, 0, 1];
    EightGroups(b);
    assert GroupsOf(b) == g;
    forall c, m | ZeroRun(g, c, m) ensures m < 2 || (m == 2 && 2 <= c) {
      RunStart(g, c, m);
    }
    PrintedRun(g, 2, 2);
    TieTexts(g);
  }

  lemma TieTexts(g: seq<nat>)
    requires g == [0x2001, 0xdb8, 0, 0, 1, 0, 0, 1]
    ensures Join(Texts(g[..2])) == "2001:db8" && Join(Texts(g[4..])) == "1:0:0:1"
  {
    hide Hex, Before, Join;
    FourDigits("2001");
    HexText(0x2001, "2001");
    HexPlaces("db8");
    HexText(0xdb8, "db8");
    OneDigit("1");
    HexText(1, "1");
    OneDigit("0");
    HexText(0, "0");
    assert Texts(g[..2]) == ["2001", "db8"] && Texts(g[4..]) == ["1", "0", "0", "1"];
    NoBefore();
    assert ["db8"] == ["db8"] + [] && ["2001", "db8"] == ["2001"] + ["db8"];
    JoinStep("db8", []);
    JoinStep("2001", ["db8"]);
    assert ["1"] == ["1"] + [] && ["0", "1"] == ["0"] + ["1"];
    assert ["0", "0", "1"] == ["0"] + ["0", "1"] && ["1", "0", "0", "1"] == ["1"] + ["0", "0", "1"];
    JoinStep("1", []);
    JoinStep("0", ["1"]);
    JoinStep("0", ["0", "1"]);
    JoinStep("1", ["0", "0", "1"]);
  }

  lemma EightGroups(b: seq<octet>)
    requires |b| == 16
    ensures forall i :: 0 <= i < 8 ==> GroupsOf(b)[i] == b[2 * i] as int * 256 + b[2 * i + 1]
  {
    forall i | 0 <= i < 8 ensures GroupsOf(b)[i] == b[2 * i] as int * 256 + b[2 * i + 1] {
      GroupsOfAt(b, i);
    }
  }
}
