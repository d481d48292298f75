/** IPLocator::IPv6isCorrect, which every text passes before the reader sees it. */
module IPv6Gate {
  import opened Text
  import opened Digits
  import opened CharStream
  import opened IPv6Grammar

  /** The text before the zone, "fe80::1%eth0" having the zone "eth0". */
  function AddressPart(s: string): (a: string)
    ensures a <= s
  {
    var p := Find(s, "%", 0);
    if p == -1 then s else s[..p]
  }

  /** IPv6_QUARTET_REGEX: up to four hexadecimal digits, possibly none. */
  predicate Quartet(f: string) { |f| <= 4 && AllHex(f) }

  ghost predicate OneDouble(s: string) {
    forall i, j :: DoubleAt(s, i) && DoubleAt(s, j) ==> i == j
  }

  /** The checks on the address part, in the order the code makes them. */
  ghost predicate Checks(s: string) {
    && 2 <= Colons(s) <= 8
    && s != ""
    && (Colons(s) == 8 ==> s[0] == ':' || s[|s| - 1] == ':')
    && OneDouble(s)
    && (s[0] == ':' ==> |s| > 1 && s[1] == ':')
    && (s[|s| - 1] == ':' ==> |s| > 1 && s[|s| - 2] == ':')
    && forall f :: f in Split(s) ==> Quartet(f)
  }

  /** The texts the gate accepts: addresses, and lists with too few groups. */
  ghost predicate Accepts(s: string) {
    IsAddress(AddressPart(s)) || Short(AddressPart(s))
  }

  // ----- the checks describe the grammar -----

  lemma ChecksSound(s: string)
    requires Checks(s)
    ensures IsAddress(s) || Short(s)
  {
    if FirstDouble(s) == -1 { ChecksSoundPlain(s); } else { ChecksSoundDouble(s, FirstDouble(s)); }
  }

  lemma ChecksSoundPlain(s: string)
    requires Checks(s) && !HasDouble(s)
    ensures Form1(s) || Short(s)
  {
    var fs := Split(s);
    SplitNoneColon(s);
    SplitNoneEmpty(s);
    JoinSplit(s);
    assert s[0] == ':' ==> DoubleAt(s, 0);
    assert s[|s| - 1] == ':' ==> DoubleAt(s, |s| - 2);
    if |fs| == 8 { assert IsForm1(s, fs); } else { assert IsShort(s, fs); }
  }

  lemma ChecksSoundDouble(s: string, d: int)
    requires Checks(s) && DoubleAt(s, d)
    ensures Form2(s)
  {
    var a, b := s[..d], s[d + 2..];
    assert s == a + "::" + b;
    SplitDouble(a, b);
    SideOfDouble(s, d);
    var ps, qs := Fields(a), Fields(b);
    JoinSplit(a);
    JoinSplit(b);
    SplitNoneColon(a);
    SplitNoneColon(b);
    assert Groups(ps) by { QuartetsAreGroups(a, Split(s)); }
    assert Groups(qs) by { QuartetsAreGroups(b, Split(s)); }
    assert |ps| + |qs| <= 7 by {
      if a != "" && b != "" {
        assert s[0] == a[0] && s[|s| - 1] == b[|b| - 1];
        SplitNoneEmpty(a);
        SplitNoneEmpty(b);
      }
    }
    assert IsForm2(s, ps, qs);
  }

  lemma QuartetsAreGroups(a: string, fs: seq<string>)
    requires forall f :: f in fs ==> Quartet(f)
    requires forall f :: f in Split(a) ==> f in fs
    requires a != "" ==> NoneEmpty(Split(a))
    ensures Groups(Fields(a))
  {
  }

  lemma SplitDouble(a: string, b: string)
    ensures Split(a + "::" + b) == Split(a) + [""] + Split(b)
    ensures Colons(a + "::" + b) == Colons(a) + 2 + Colons(b)
  {
    assert a + "::" + b == a + ":" + (":" + b);
    SplitColon(a, ":" + b);
    assert ":" + b == "" + ":" + b;
    SplitColon("", b);
    ColonsConcat(a + "::", b);
    ColonsConcat(a, "::");
    assert Colons("::") == 2;
  }

  /** Neither side of the only "::" has an empty field. */
  lemma SideOfDouble(s: string, d: int)
    requires DoubleAt(s, d) && OneDouble(s)
    requires s[0] == ':' ==> |s| > 1 && s[1] == ':'
    requires s[|s| - 1] == ':' ==> |s| > 1 && s[|s| - 2] == ':'
    ensures d > 0 ==> NoneEmpty(Split(s[..d]))
    ensures d + 2 < |s| ==> NoneEmpty(Split(s[d + 2..]))
  {
    var a, b := s[..d], s[d + 2..];
    SplitNoneEmpty(a);
    SplitNoneEmpty(b);
    assert s[0] == ':' ==> DoubleAt(s, 0);
    assert s[|s| - 1] == ':' ==> DoubleAt(s, |s| - 2);
    if d > 0 {
      assert s[d - 1] == ':' ==> DoubleAt(s, d - 1);
      assert forall i :: DoubleAt(a, i) ==> DoubleAt(s, i);
    }
    if b != "" {
      assert s[d + 2] == ':' ==> DoubleAt(s, d + 1);
      assert forall i :: DoubleAt(b, i) ==> DoubleAt(s, i + d + 2);
    }
  }

  lemma ChecksComplete(s: string)
    requires IsAddress(s) || Short(s)
    ensures Checks(s)
  {
    if Form2(s) {
      var ps, qs :| IsForm2(s, ps, qs);
      ChecksCompleteDouble(s, ps, qs);
    } else {
      var fs :| Groups(fs) && 3 <= |fs| <= 8 && s == Join(fs);
      FieldsJoin(fs);
      GroupsClean(fs);
      ColonsJoin(fs);
    }
  }

  lemma ChecksCompleteDouble(s: string, ps: seq<string>, qs: seq<string>)
    requires IsForm2(s, ps, qs)
    ensures Checks(s)
  {
    var a, b := Join(ps), Join(qs);
    FieldsJoin(ps);
    FieldsJoin(qs);
    SplitDouble(a, b);
    assert Colons(s) == (if ps == [] then 0 else |ps| - 1) + 2 + (if qs == [] then 0 else |qs| - 1) by {
      GroupsClean(ps);
      GroupsClean(qs);
      ColonsJoin(ps);
      ColonsJoin(qs);
    }
    assert OneDouble(s) by { DoubleForm2(ps, qs); }
    assert a == "" ==> Split(a) == [""];
    assert b == "" ==> Split(b) == [""];
    assert s[0] == if a == "" then ':' else a[0];
    assert s[|s| - 1] == if b == "" then ':' else b[|b| - 1];
    assert forall f :: f in Split(s) ==> Quartet(f);
  }

  /** The gate's checks accept exactly the addresses and the short lists. */
  lemma ChecksGrammar(s: string)
    ensures Checks(s) <==> IsAddress(s) || Short(s)
  {
    if Checks(s) { ChecksSound(s); }
    if IsAddress(s) || Short(s) { ChecksComplete(s); }
  }

  /** An address has a "::" or seven colons; a short list has neither. */
  lemma AddressOrShort(s: string)
    requires IsAddress(s) || Short(s)
    ensures IsAddress(s) <==> HasDouble(s) || Colons(s) == 7
    ensures Short(s) <==> !IsAddress(s)
    ensures Form1(s) <==> !HasDouble(s) && Colons(s) == 7
  {
    ChecksComplete(s);
    if Form2(s) {
      var ps, qs :| IsForm2(s, ps, qs);
      DoubleForm2(ps, qs);
      assert DoubleAt(s, |Join(ps)|);
    }
    if fs :| Groups(fs) && 3 <= |fs| <= 8 && s == Join(fs) {
      FieldsJoin(fs);
      GroupsClean(fs);
      ColonsJoin(fs);
    }
    if Form1(s) { var fs :| IsForm1(s, fs); FieldsJoin(fs); GroupsClean(fs); ColonsJoin(fs); }
    if Short(s) { var fs :| IsShort(s, fs); FieldsJoin(fs); GroupsClean(fs); ColonsJoin(fs); }
  }

  // ----- the code -----

  method CountColons(s: string) returns (count: nat)
    ensures count == Colons(s)
  {
    count := 0;
    for i := 0 to |s|
      invariant count + Colons(s[i..]) == Colons(s)
    {
      if s[i] == ':' {
        count := count + 1;
      }
    }
  }

  method IPv6IsCorrect(ipv6: string) returns (correct: bool)
    ensures correct <==> Accepts(ipv6)
  {
    var address := AddressPart(ipv6);
    ChecksGrammar(address);
    var count: int := CountColons(address);
    if count < 2 || count > 8 {
      return false;
    }
    var last := |address| - 1;
    if count == 8 && address[0] != ':' && address[last] != ':' {
      return false;
    }
    var ind := Find(address, "::", 0);
    if ind != -1 {
      var second := Find(address, "::", ind + 1);
      DoubleAtIsAt(address, ind);
      DoubleAtIsAt(address, second);
      if second != -1 {
        return false;
      }
    }
    assert OneDouble(address) by {
      forall i | DoubleAt(address, i) ensures i == ind { DoubleAtIsAt(address, i); }
    }
    if address[0] == ':' && address[1] != ':' {
      return false;
    }
    if address[last] == ':' && address[last - 1] != ':' {
      return false;
    }
    correct := QuartetsAreCorrect(address, count);
  }

  /** The final loop of IPv6isCorrect: count+1 fields taken from a stream, each matched
      against the quartet pattern. An empty field leaves the stream failed until it is
      cleared; the last extraction of a colon fails for good. */
  method QuartetsAreCorrect(address: string, colons: int) returns (correct: bool)
    requires colons == Colons(address)
    ensures correct <==> forall f :: f in Split(address) ==> Quartet(f)
  {
    hide Split, Join, TakeChar, UntilRun, Quartet;
    var s := new InputStream(address);
    var count := colons;
    var punct := ' ';
    ghost var fs := Split(address);
    SplitNoneColon(address);
    JoinSplit(address);
    assert fs[0..] == fs;
    ghost var k := 0;
    while count >= 0
      invariant s.Valid() && fresh(s)
      invariant 0 <= k <= |fs| && count == colons - k
      invariant k < |fs| ==> s.View() == State(Join(fs[k..]), false)
      invariant forall i :: 0 <= i < k ==> Quartet(fs[i])
      decreases count + 1
    {
      count := count - 1;
      FieldStep(fs, k);
      var value := s.Get(':');
      assert value == fs[k];
      if !Quartet(value) {
        return false;
      }
      punct := PastColon(s, value, punct);
      k := k + 1;
    }
    correct := true;
  }

  /** The end of the loop's body. */
  method PastColon(s: InputStream, value: string, previous: char) returns (punct: char)
    requires s.Valid() && s.failed == (value == "")
    modifies s`pos, s`failed
    ensures s.Valid() && s.View() == TakeChar(State(old(s.Rest()), false))
  {
    hide TakeChar;
    if value == "" {
      s.Clear();
    }
    punct := s.ExtractChar(previous);
  }

  lemma FieldStep(fs: seq<string>, k: nat)
    requires k < |fs| && NoneColon(fs)
    ensures var t := Join(fs[k..]); var n := UntilRun(t, ':');
      && n == |fs[k]| && t[..n] == fs[k]
      && (k < |fs| - 1 ==> TakeChar(State(t[n..], false)) == State(Join(fs[k + 1..]), false))
  {
    var r := Before(fs[k + 1..]);
    assert fs[k..][1..] == fs[k + 1..];
    assert Join(fs[k..]) == fs[k] + r;
    UntilRunField(fs[k], ':', r);
    if k < |fs| - 1 {
      JoinBefore(fs[k + 1..]);
      TakeColon(Join(fs[k + 1..]));
    }
  }
}
