/** When setIPv4 and IPv4_REGEX agree on a text. */
module IPv4Language {
  import opened Digits
  import opened CharStream
  import opened Locators
  import opened IPv4

  /** Digits and dots only. */
  predicate Plain(s: string) { forall c :: c in s ==> IsDec(c) || c == '.' }

  predicate FourAt(s: string, i: int) {
    0 <= i && i + 4 <= |s| && IsDec(s[i]) && IsDec(s[i + 1]) && IsDec(s[i + 2]) && IsDec(s[i + 3])
  }

  /** Four digits in a row. */
  ghost predicate FourDigits(s: string) {
    exists i :: FourAt(s, i)
  }

  // ----- an accepted plain text is made of fields -----

  lemma Suffix(s: string, k: nat)
    requires k <= |s|
    ensures Plain(s) ==> Plain(s[k..])
    ensures !FourDigits(s) ==> !FourDigits(s[k..])
  {
    if i :| FourAt(s[k..], i) { assert FourAt(s, i + k); }
  }

  lemma {:induction false} FailedStays(s: State, n: nat)
    requires s.failed
    ensures TakeMore(s, n, false).1.failed
  {
    if n > 0 { FailedStays(s, n - 1); }
  }

  lemma RunPositive(t: string)
    requires Plain(t) && !TakeNumber(State(t, false), 0, false).0.failed
    ensures t != "" && DecRun(t) > 0
  {
    hide TakeDigits, DecRun;
    if t != "" {
      assert t[0] in t;
      NoRun(t);
    }
  }

  lemma NoRun(t: string)
    ensures DecRun(t) == 0 ==> TakeDigits(t, false, Decimal, false).0.failed
  {
  }

  lemma LongRun(t: string)
    requires DecRun(t) > 3
    ensures FourAt(t, 0)
  {
    var f := t[..DecRun(t)];
    assert f[0] in f && f[1] in f && f[2] in f && f[3] in f;
  }

  lemma NotFour(t: string)
    requires !FourDigits(t)
    ensures !FourAt(t, 0)
  {
  }

  /** A number read from a plain text without four digits in a row is a field. */
  lemma NumberInverse(t: string) returns (f: string, r: string)
    requires Plain(t) && !FourDigits(t) && !TakeNumber(State(t, false), 0, false).0.failed
    ensures t == f + r && Field(f) && (r == "" || !IsDec(r[0]))
    ensures TakeNumber(State(t, false), 0, false) == (State(r, false), DecValue(f))
  {
    hide TakeNumber, Plain, FourDigits;
    RunPositive(t);
    var n := DecRun(t);
    if n > 3 { LongRun(t); NotFour(t); }
    f, r := t[..n], t[n..];
    FieldNumeric(f);
    TakeField(f, r, false);
  }

  lemma {:induction false} MoreInverse(t: string, n: nat) returns (fs: seq<string>)
    requires Plain(t) && !FourDigits(t) && (t == "" || !IsDec(t[0]))
    requires var u := TakeMore(State(t, false), n, false).1; !u.failed && u.rest == ""
    ensures |fs| == n && (forall f :: f in fs ==> Field(f)) && t == DotBefore(fs)
    ensures TakeMore(State(t, false), n, false).0 == DecValues(fs)
    decreases n
  {
    hide TakeNumber, TakeMore, Field, Plain, FourDigits, DecValue, DecValues, DotBefore;
    if n == 0 {
      DotNone();
      MoreNone(State(t, false), false);
      fs := [];
    } else {
      var f, r := FirstMore(t, n);
      var gs := MoreInverse(r, n - 1);
      fs := [f] + gs;
      OneMore(f, gs);
    }
  }

  /** The first of `n` numbers stands behind a dot. */
  lemma FirstMore(t: string, n: nat) returns (f: string, r: string)
    requires Plain(t) && !FourDigits(t) && (t == "" || !IsDec(t[0])) && n > 0
    requires !TakeMore(State(t, false), n, false).1.failed
    ensures t == "." + (f + r) && Field(f)
    ensures Plain(r) && !FourDigits(r) && (r == "" || !IsDec(r[0]))
    ensures var (vs, u) := TakeMore(State(r, false), n - 1, false);
      TakeMore(State(t, false), n, false) == ([DecValue(f)] + vs, u)
  {
    hide TakeNumber, Field, Plain, FourDigits, DecValue;
    DotFirst(t, n);
    var t' := t[1..];
    assert t == "." + t';
    TakeDot(t');
    Suffix(t, 1);
    var (w, v) := TakeNumber(State(t', false), 0, false);
    if w.failed { FailedStays(w, n - 1); }
    f, r := NumberInverse(t');
    Suffix(t', |f|);
    assert t'[|f|..] == r;
  }

  lemma OneMore(f: string, fs: seq<string>)
    requires Field(f) && forall g :: g in fs ==> Field(g)
    ensures var all := [f] + fs;
      && |all| == |fs| + 1
      && (forall g :: g in all ==> Field(g))
      && DotJoin(all) == f + DotBefore(fs)
      && DotBefore(all) == "." + (f + DotBefore(fs))
      && DecValues(all) == [DecValue(f)] + DecValues(fs)
  {
    var all := [f] + fs;
    assert all[1..] == fs;
    DotCons(all);
  }

  lemma DotNone()
    ensures DotBefore([]) == "" && DecValues([]) == []
  {
  }

  lemma DotFirst(t: string, n: nat)
    requires Plain(t) && (t == "" || !IsDec(t[0])) && n > 0
    requires !TakeMore(State(t, false), n, false).1.failed
    ensures t != "" && t[0] == '.'
  {
    hide TakeNumber, TakeChar;
    if t == "" {
      NothingLeft();
      FailedStays(State("", true), n - 1);
    } else {
      assert t[0] in t;
    }
  }

  lemma NothingLeft()
    ensures TakeNumber(TakeChar(State("", false)), 0, false) == (State("", true), 0)
  {
  }

  lemma DottedInverse(s: string) returns (fs: seq<string>)
    requires Plain(s) && !FourDigits(s)
    requires var (vs, u) := Dotted(s, 4, false); !u.failed && u.rest == "" && InRange(vs)
    ensures IsIPv4Fields(s, fs)
  {
    hide TakeNumber, TakeMore, Plain, FourDigits, DecValue, Field, DotBefore, DotJoin, DecValues, InRange, OctetText;
    var (w, v) := TakeNumber(State(s, false), 0, false);
    if w.failed { FailedStays(w, 3); }
    var f, r := NumberInverse(s);
    Suffix(s, |f|);
    assert s[|f|..] == r;
    var gs := MoreInverse(r, 3);
    fs := [f] + gs;
    OneMore(f, gs);
    FieldsInRange(fs, Dotted(s, 4, false).0);
  }

  lemma FieldsInRange(fs: seq<string>, vs: seq<int>)
    requires forall f :: f in fs ==> Field(f)
    requires InRange(vs) && |vs| == |fs| && vs == DecValues(fs)
    ensures forall f :: f in fs ==> OctetText(f)
  {
    forall f | f in fs ensures OctetText(f) {
      var i :| 0 <= i < |fs| && fs[i] == f;
      assert vs[i] in vs;
      DecHex(f);
      OctetTextIff(f);
    }
  }

  // ----- an address is plain and has no four digits in a row -----

  lemma {:induction false} DotBeforePlain(fs: seq<string>)
    requires forall f :: f in fs ==> Field(f)
    ensures Plain(DotBefore(fs)) && !FourDigits(DotBefore(fs))
  {
    if fs != [] {
      FieldsCons(fs);
      DotBeforePlain(fs[1..]);
      DotCons(fs);
      FieldThenDots(fs[0], DotBefore(fs[1..]));
      var s := fs[0] + DotBefore(fs[1..]);
      if i :| FourAt("." + s, i) {
        assert i > 0;
        assert FourAt(s, i - 1);
      }
    }
  }

  lemma FieldThenDots(f: string, r: string)
    requires Field(f) && Plain(r) && !FourDigits(r) && (r == "" || !IsDec(r[0]))
    ensures Plain(f + r) && !FourDigits(f + r)
  {
    var s := f + r;
    // Four digits that begin inside the field would reach the character behind it.
    assert r != "" ==> s[|f|] == r[0];
    forall i ensures !FourAt(s, i) {
      assert i >= |f| ==> (FourAt(s, i) <==> FourAt(r, i - |f|));
    }
  }

  lemma AddressPlain(s: string)
    requires IsIPv4(s)
    ensures Plain(s) && !FourDigits(s)
  {
    var fs :| IsIPv4Fields(s, fs);
    forall f | f in fs ensures Field(f) { OctetTextIff(f); }
    FieldsCons(fs);
    DotBeforePlain(fs[1..]);
    FieldsTail(fs[1..]);
    FieldThenDots(fs[0], DotBefore(fs[1..]));
  }

  /** The exact condition, for every text: the expression matches what the setter accepts
      and what consists of digits and dots without four digits in a row. */
  lemma {:induction false} MatchesIff(kind: int32, address: seq<octet>, s: string)
    requires IsV4(kind) && |address| == 16
    ensures IsIPv4(s) <==> IPv4Outcome(kind, address, s).ok && Plain(s) && !FourDigits(s)
  {
    hide Dotted, Plain, FourDigits;
    if IsIPv4(s) {
      var fs :| IsIPv4Fields(s, fs);
      RegexAccepted(kind, address, s, fs);
      AddressPlain(s);
    }
    if IPv4Outcome(kind, address, s).ok && Plain(s) && !FourDigits(s) {
      var fs := DottedInverse(s);
    }
  }

  // ----- texts on which they differ -----

  /** Another separator, and more leading zeros than a field may have: both are accepted and
      neither is an address. */
  lemma AcceptedNotMatched()
    ensures !IsIPv4("1,2,3,4") && IPv4Outcome(KIND_UDPv4, ZERO_ADDRESS, "1,2,3,4").ok
    ensures !IsIPv4("0001.2.3.4") && IPv4Outcome(KIND_UDPv4, ZERO_ADDRESS, "0001.2.3.4").ok
  {
    hide IsIPv4, Dotted;
    SmallField("1");
    SmallField("2");
    SmallField("3");
    SmallField("4");
    SeparatorIgnored(KIND_UDPv4, ZERO_ADDRESS, "1", "2", "3", "4", ',');
    assert Separated("1", "2", "3", "4", ',') == "1,2,3,4" by {
      assert "3" + ([','] + "4") == "3,4" && "2" + ([','] + "3,4") == "2,3,4" && "1" + ([','] + "2,3,4") == "1,2,3,4";
    }
    LeadingZeros();
    assert FourAt("0001.2.3.4", 0);
    MatchesIff(KIND_UDPv4, ZERO_ADDRESS, "0001.2.3.4");
  }

  lemma SmallField(f: string)
    requires |f| == 1 && AllDec(f)
    ensures Field(f) && OctetText(f) && DecValue(f) <= 9
  {
    DecHex(f);
    Value3(f);
    assert f[0] in f;
  }

  lemma LeadingZeros()
    ensures IPv4Outcome(KIND_UDPv4, ZERO_ADDRESS, "0001.2.3.4").ok
  {
    hide TakeNumber, TakeMore;
    var f, t := "0001", ["2", "3", "4"];
    SmallField("2");
    SmallField("3");
    SmallField("4");
    FourZeros();
    assert DotBefore(t) == ".2.3.4" by {
      assert t[1..] == ["3", "4"] && t[1..][1..] == ["4"] && t[1..][1..][1..] == [];
      assert DotBefore(["4"]) == ".4" && DotBefore(["3", "4"]) == ".3.4";
    }
    assert f + ".2.3.4" == "0001.2.3.4";
    TakeField(f, ".2.3.4", false);
    TakeMoreFields(t, false);
  }

  lemma FourZeros()
    ensures Numeric("0001") && DecValue("0001") == 1
  {
    var f := "0001";
    assert f[..3] == "000" && f[..3][..2] == "00" && "00"[..1] == "0" && "0"[..0] == "";
    assert Value("0", Decimal) == 0 && Value("00", Decimal) == 0 && Value("000", Decimal) == 0;
  }
}
