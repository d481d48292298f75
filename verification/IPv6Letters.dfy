/** Upper and lower case: the gate and the reader do not tell them apart. */
module IPv6Letters {
  import opened Text
  import opened Digits
  import opened CharStream
  import opened IPv6Grammar
  import opened IPv6Gate
  import opened IPv6Text
  import opened Locators

  function LowerChar(c: char): char {
    if 'A' <= c <= 'Z' then (c as int + 32) as char else c
  }

  lemma LowerTable(k: nat)
    requires k < 26
    ensures LowerChar("ABCDEFGHIJKLMNOPQRSTUVWXYZ"[k]) == "abcdefghijklmnopqrstuvwxyz"[k]
    ensures LowerChar("abcdefghijklmnopqrstuvwxyz"[k]) == "abcdefghijklmnopqrstuvwxyz"[k]
  {
  }

  /** The text with its letters in lower case. */
  function Lower(s: string): (t: string)
    ensures |t| == |s| && forall i :: 0 <= i < |s| ==> t[i] == LowerChar(s[i])
  {
    seq(|s|, i requires 0 <= i < |s| => LowerChar(s[i]))
  }

  function LowerAll(fs: seq<string>): (gs: seq<string>)
    ensures |gs| == |fs| && forall i :: 0 <= i < |fs| ==> gs[i] == Lower(fs[i])
  {
    seq(|fs|, i requires 0 <= i < |fs| => Lower(fs[i]))
  }

  lemma CharKinds(c: char)
    ensures var d := LowerChar(c);
      && (d == ':' <==> c == ':') && (d == '%' <==> c == '%') && (d == '-' <==> c == '-')
      && (IsSpace(d) <==> IsSpace(c)) && (IsSign(d) <==> IsSign(c)) && (d == '0' <==> c == '0')
      && (IsHex(d) <==> IsHex(c)) && (IsHex(c) ==> DigitValue(d) == DigitValue(c))
      && (d == 'x' <==> c == 'x' || c == 'X') && d != 'X'
  {
  }

  // ----- the gate -----

  lemma {:induction false} ColonsLower(s: string)
    ensures Colons(Lower(s)) == Colons(s)
  {
    if s != "" {
      CharKinds(s[0]);
      ColonsLower(s[1..]);
      assert Lower(s)[1..] == Lower(s[1..]);
    }
  }

  lemma {:induction false} SplitLower(s: string)
    ensures Split(Lower(s)) == LowerAll(Split(s))
  {
    if s == "" {
      assert LowerAll([""]) == [""];
    } else {
      CharKinds(s[0]);
      SplitLower(s[1..]);
      assert Lower(s)[1..] == Lower(s[1..]);
      ExtendLower(s[0], Split(s[1..]));
    }
  }

  lemma ExtendLower(c: char, fs: seq<string>)
    requires fs != []
    ensures Extend(LowerChar(c), LowerAll(fs)) == LowerAll(Extend(c, fs))
  {
    CharKinds(c);
    if c == ':' {
      assert Lower("") == "";
    } else {
      assert Lower([c] + fs[0]) == [LowerChar(c)] + Lower(fs[0]);
    }
  }

  lemma AllHexLower(f: string)
    ensures AllHex(Lower(f)) <==> AllHex(f)
  {
    forall i | 0 <= i < |f| ensures IsHex(Lower(f)[i]) <==> IsHex(f[i]) { CharKinds(f[i]); }
    if AllHex(Lower(f)) {
      forall c | c in f ensures IsHex(c) {
        var i :| 0 <= i < |f| && f[i] == c;
        assert Lower(f)[i] in Lower(f);
      }
    }
  }

  lemma DoubleLower(s: string)
    ensures forall i :: DoubleAt(Lower(s), i) <==> DoubleAt(s, i)
    ensures HasDouble(Lower(s)) <==> HasDouble(s)
    ensures FirstDouble(Lower(s)) == FirstDouble(s)
  {
    forall i ensures DoubleAt(Lower(s), i) <==> DoubleAt(s, i) {
      if 0 <= i && i + 1 < |s| {
        CharKinds(s[i]);
        CharKinds(s[i + 1]);
      }
    }
  }

  lemma QuartetsLower(fs: seq<string>)
    ensures (forall f :: f in LowerAll(fs) ==> Quartet(f)) <==> (forall f :: f in fs ==> Quartet(f))
  {
    forall i | 0 <= i < |fs| ensures Quartet(LowerAll(fs)[i]) <==> Quartet(fs[i]) { AllHexLower(fs[i]); }
    if forall f :: f in LowerAll(fs) ==> Quartet(f) {
      forall f | f in fs ensures Quartet(f) {
        var i :| 0 <= i < |fs| && fs[i] == f;
        assert LowerAll(fs)[i] in LowerAll(fs);
      }
    }
  }

  lemma ColonAt(s: string, i: int)
    requires 0 <= i < |s|
    ensures Lower(s)[i] == ':' <==> s[i] == ':'
  {
    CharKinds(s[i]);
  }

  lemma ChecksLower(s: string)
    ensures Checks(Lower(s)) <==> Checks(s)
  {
    hide Quartet, Split, Colons;
    ColonsLower(s);
    SplitLower(s);
    DoubleLower(s);
    QuartetsLower(Split(s));
    if s != "" {
      ColonAt(s, 0);
      ColonAt(s, |s| - 1);
      if |s| > 1 {
        ColonAt(s, 1);
        ColonAt(s, |s| - 2);
      }
    }
  }

  lemma AddressLower(s: string)
    ensures AddressPart(Lower(s)) == Lower(AddressPart(s))
  {
    forall i ensures At(Lower(s), "%", i) <==> At(s, "%", i) {
      if 0 <= i < |s| {
        CharKinds(s[i]);
        assert s[i..i + 1] == [s[i]] && Lower(s)[i..i + 1] == [Lower(s)[i]];
      }
    }
    var p, q := Find(s, "%", 0), Find(Lower(s), "%", 0);
    assert p != -1 ==> At(Lower(s), "%", p);
    assert q != -1 ==> At(s, "%", q);
  }

  /** The gate takes a text exactly when it takes it in lower case. */
  lemma AcceptsLower(s: string)
    ensures Accepts(Lower(s)) <==> Accepts(s)
  {
    var a := AddressPart(s);
    AddressLower(s);
    ChecksLower(a);
    ChecksGrammar(a);
    ChecksGrammar(Lower(a));
  }

  // ----- what a text denotes -----

  lemma {:induction false} ValueLower(f: string, radix: Radix)
    requires AllHex(f)
    ensures AllHex(Lower(f)) && Value(Lower(f), radix) == Value(f, radix)
  {
    AllHexLower(f);
    if f != "" {
      var n := |f| - 1;
      CharKinds(f[n]);
      assert f[n] in f;
      assert Lower(f)[..n] == Lower(f[..n]);
      ValueLower(f[..n], radix);
    }
  }

  lemma ValuesLower(fs: seq<string>)
    ensures Values(LowerAll(fs)) == Values(fs)
  {
    forall i | 0 <= i < |fs| ensures GroupValue(Lower(fs[i])) == GroupValue(fs[i]) {
      AllHexLower(fs[i]);
      if AllHex(fs[i]) { ValueLower(fs[i], Hexadecimal); }
    }
  }

  lemma FieldsLower(s: string)
    ensures Values(Fields(Lower(s))) == Values(Fields(s))
  {
    SplitLower(s);
    ValuesLower(Split(s));
  }

  /** An address text and its lower-case form denote the same groups. */
  lemma ExpandLower(s: string)
    ensures Expand(Lower(s)) == Expand(s)
  {
    hide Fields, Values, Lower;
    DoubleLower(s);
    FieldsLower(s);
    var d := FirstDouble(s);
    if d != -1 {
      FieldsLower(s[..d]);
      FieldsLower(s[d + 2..]);
      LowerParts(s, d);
    }
  }

  lemma LowerParts(s: string, d: nat)
    requires d + 2 <= |s|
    ensures Lower(s)[..d] == Lower(s[..d]) && Lower(s)[d + 2..] == Lower(s[d + 2..])
  {
  }

  lemma IsAddressLower(s: string)
    ensures IsAddress(Lower(s)) <==> IsAddress(s)
  {
    hide Checks, IsAddress, Short, HasDouble, Colons;
    DoubleLower(s);
    ColonsLower(s);
    ChecksLower(s);
    ChecksGrammar(s);
    ChecksGrammar(Lower(s));
    if Checks(s) {
      AddressOrShort(s);
      AddressOrShort(Lower(s));
    }
  }

  // ----- the reader -----

  function LowerState(s: State): State { State(Lower(s.rest), s.failed) }

  lemma LowerDrop(s: string, n: nat)
    requires n <= |s|
    ensures Lower(s[n..]) == Lower(s)[n..] && Lower(s[..n]) == Lower(s)[..n]
  {
  }

  lemma {:induction false} SpaceLower(s: string)
    ensures SkipSpace(Lower(s)) == Lower(SkipSpace(s))
  {
    if s != "" {
      CharKinds(s[0]);
      LowerDrop(s, 1);
      SpaceLower(s[1..]);
    }
  }

  lemma {:induction false} RunLower(s: string)
    ensures HexRun(Lower(s)) == HexRun(s)
  {
    if s != "" {
      CharKinds(s[0]);
      LowerDrop(s, 1);
      RunLower(s[1..]);
    }
  }

  lemma CharLower(s: State)
    ensures TakeChar(LowerState(s)) == LowerState(TakeChar(s))
  {
    hide SkipSpace;
    SpaceLower(s.rest);
    var r := SkipSpace(s.rest);
    if r != "" { LowerDrop(r, 1); }
  }

  lemma SignLower(r: string)
    ensures SkipPrefix(SkipSign(Lower(r))) == Lower(SkipPrefix(SkipSign(r)))
    ensures r != "" ==> (Lower(r)[0] == '-' <==> r[0] == '-')
  {
    if r != "" { CharKinds(r[0]); LowerDrop(r, 1); }
    var t := SkipSign(r);
    assert SkipSign(Lower(r)) == Lower(t);
    if |t| >= 2 {
      CharKinds(t[0]);
      CharKinds(t[1]);
      LowerDrop(t, 2);
    }
  }

  lemma DigitsLower(t: string, negative: bool)
    ensures var (s, v) := TakeDigits(t, negative, Hexadecimal, false);
      TakeDigits(Lower(t), negative, Hexadecimal, false) == (LowerState(s), v)
  {
    hide Value, Represent, HexRun;
    var n := HexRun(t);
    RunLower(t);
    LowerDrop(t, n);
    ValueLower(t[..n], Hexadecimal);
  }

  lemma HexLower(s: State, v: nat)
    ensures var (u, w) := TakeHex(s, v); TakeHex(LowerState(s), v) == (LowerState(u), w)
  {
    hide SkipSpace, SkipSign, SkipPrefix, TakeDigits;
    SpaceLower(s.rest);
    var r := SkipSpace(s.rest);
    SignLower(r);
    if r != "" { DigitsLower(SkipPrefix(SkipSign(r)), r[0] == '-'); }
  }

  function LowerTaken(t: Taken): Taken { Taken(t.groups, LowerState(t.state), t.value) }

  lemma {:induction false} BeforeLower(s: State, v: nat, n: nat)
    ensures TakeBefore(LowerState(s), v, n) == LowerTaken(TakeBefore(s, v, n))
    decreases n
  {
    hide TakeHex, TakeChar, LowerState;
    if n > 0 {
      CharLower(s);
      HexLower(TakeChar(s), v);
      var (u, w) := TakeHex(TakeChar(s), v);
      if w < 65536 { BeforeLower(u, w, n - 1); }
    }
  }

  lemma {:induction false} AfterLower(s: State, v: nat, n: nat)
    ensures TakeAfter(LowerState(s), v, n) == LowerTaken(TakeAfter(s, v, n))
    decreases n
  {
    hide TakeHex, TakeChar, LowerState;
    if n > 0 {
      HexLower(s, v);
      var (u, w) := TakeHex(s, v);
      CharLower(u);
      if w < 65536 { AfterLower(TakeChar(u), w, n - 1); }
    }
  }

  lemma LeadingLower(s: string, zeros: nat)
    requires zeros <= 8
    ensures ReadLeading(Lower(s), zeros) == ReadLeading(s, zeros)
  {
    hide TakeChar, TakeBefore, Written;
    var s0 := State(s, false);
    CharLower(s0);
    BeforeLower(TakeChar(s0), 0, 8 - zeros);
    CharLower(TakeBefore(TakeChar(s0), 0, 8 - zeros).state);
  }

  lemma TrailingLower(s: string, zeros: nat)
    ensures ReadTrailing(Lower(s), zeros) == ReadTrailing(s, zeros)
  {
    hide TakeChar, TakeAfter, Written;
    var n := if zeros <= 8 then 8 - zeros else 0;
    AfterLower(State(s, false), 0, n);
    CharLower(TakeAfter(State(s, false), 0, n).state);
  }

  lemma MiddleLower(s: string, position: nat, zeros: nat)
    ensures MiddleInside(Lower(s), position, zeros) <==> MiddleInside(s, position, zeros)
    ensures MiddleInside(s, position, zeros) ==>
      ReadMiddle(Lower(s), position, zeros) == ReadMiddle(s, position, zeros)
  {
    hide TakeAfter, TakeBefore, Written;
    AfterLower(State(s, false), 0, position);
    var t := TakeAfter(State(s, false), 0, position);
    if position + zeros <= 8 { BeforeLower(t.state, t.value, 8 - position - zeros); }
  }

  lemma PlainLower(s: string)
    ensures ReadPlain(Lower(s)) == ReadPlain(s)
  {
    hide TakeHex, TakeBefore, Written;
    HexLower(State(s, false), 0);
    var (t, v) := TakeHex(State(s, false), 0);
    BeforeLower(t, v, 7);
  }

  lemma BlockLower(s: string)
    requires s != ""
    ensures BlockOf(Lower(s)) == BlockOf(s)
  {
    hide U16, Colons, FirstDouble, Lower, HasDouble;
    ColonsLower(s);
    DoubleLower(s);
    ColonAt(s, 0);
    ColonAt(s, |s| - 1);
    PrefixLower(s);
  }

  lemma PrefixLower(s: string)
    ensures var d := FirstDouble(s);
      d != -1 ==> 0 <= d < |s| && Colons(Lower(s)[..d + 1]) == Colons(s[..d + 1])
  {
    hide Colons;
    var d := FirstDouble(s);
    if d != -1 {
      LowerDrop(s, d + 1);
      ColonsLower(s[..d + 1]);
    }
  }

  /** The reader gives the same flag and the same bytes for a text in any case. */
  lemma ReadLower(s: string)
    ensures StaysInside(Lower(s)) <==> StaysInside(s)
    ensures StaysInside(s) ==> ReadText(Lower(s)) == ReadText(s)
  {
    hide BlockOf, MiddleInside, ReadLeading, ReadTrailing, ReadMiddle, ReadPlain;
    if s != "" {
      BlockLower(s);
      match BlockOf(s) {
        case Leading(bytes) => if bytes <= 16 { LeadingLower(s, bytes / 2); }
        case Trailing(bytes) => TrailingLower(s, bytes / 2);
        case Middle(position, bytes) => MiddleLower(s, position / 2, bytes / 2);
        case NoBlock => PlainLower(s);
      }
    }
  }

  /** Texts that differ only in the case of their letters are one text to setIPv6. */
  lemma SameLetters(s: string, t: string)
    requires Lower(s) == Lower(t)
    ensures Accepts(s) <==> Accepts(t)
    ensures StaysInside(s) <==> StaysInside(t)
    ensures StaysInside(s) ==> ReadText(s) == ReadText(t)
  {
    hide Accepts, StaysInside, ReadText;
    AcceptsLower(s);
    AcceptsLower(t);
    ReadLower(s);
    ReadLower(t);
  }
}
