/** What the reader's true means. It never looks for the '%', so what it answers for a text
    with a zone follows from its extractions alone. */
module IPv6Answers {
  import opened Text
  import opened Digits
  import opened CharStream
  import opened IPv6Grammar
  import opened IPv6Gate
  import opened IPv6Text
  import opened IPv6Meaning
  import opened IPv6Bounds
  import opened Locators

  // ----- characters only a character extraction removes -----

  predicate IsMark(c: char) { c == ':' || c == '%' }

  function Marks(s: string): nat {
    if s == "" then 0 else (if IsMark(s[0]) then 1 else 0) + Marks(s[1..])
  }

  lemma {:induction false} MarksColons(s: string)
    ensures Marks(s) >= Colons(s)
    ensures '%' in s ==> Marks(s) > Colons(s)
  {
    if s != "" {
      MarksColons(s[1..]);
      assert s == [s[0]] + s[1..];
    }
  }

  lemma {:induction false} MarksDrop(s: string, n: nat)
    requires n <= |s| && forall c :: c in s[..n] ==> !IsMark(c)
    ensures Marks(s[n..]) == Marks(s)
  {
    if n > 0 {
      assert s[0] in s[..n];
      assert forall c :: c in s[1..][..n - 1] ==> c in s[..n];
      MarksDrop(s[1..], n - 1);
      assert s[1..][n - 1..] == s[n..];
    }
  }

  lemma {:induction false} MarksSpace(s: string)
    ensures Marks(SkipSpace(s)) == Marks(s)
  {
    hide Marks;
    if s != "" && IsSpace(s[0]) {
      MarksSpace(s[1..]);
      MarksFirst(s);
    }
  }

  lemma MarksFirst(s: string)
    requires s != "" && !IsMark(s[0])
    ensures Marks(s) == Marks(s[1..])
  {
  }

  lemma MarksChar(s: State)
    ensures Marks(TakeChar(s).rest) + 1 >= Marks(s.rest)
  {
    hide SkipSpace;
    MarksSpace(s.rest);
  }

  lemma MarksHex(s: State, v: nat)
    ensures Marks(TakeHex(s, v).0.rest) == Marks(s.rest)
  {
    hide SkipSpace, TakeDigits, SkipPrefix, SkipSign;
    MarksSpace(s.rest);
    var r := SkipSpace(s.rest);
    if r != "" {
      MarksSign(r);
      MarksDigits(SkipPrefix(SkipSign(r)), r[0] == '-');
    }
  }

  lemma MarksSign(r: string)
    ensures Marks(SkipPrefix(SkipSign(r))) == Marks(r)
  {
    var t := SkipSign(r);
    if t != r { MarksDrop(r, 1); }
    if SkipPrefix(t) != t { MarksDrop(t, 2); }
  }

  lemma MarksDigits(t: string, negative: bool)
    ensures Marks(TakeDigits(t, negative, Hexadecimal, false).0.rest) == Marks(t)
  {
    MarksDrop(t, HexRun(t));
  }

  /** Reading `n` groups takes `n` characters besides digits, signs and prefixes. */
  lemma {:induction false} MarksBefore(s: State, v: nat, n: nat)
    ensures Marks(TakeBefore(s, v, n).state.rest) + n >= Marks(s.rest)
    decreases n
  {
    hide TakeHex, TakeChar;
    if n > 0 {
      var (u, w) := TakeHex(TakeChar(s), v);
      MarksChar(s);
      MarksHex(TakeChar(s), v);
      if w < 65536 { MarksBefore(u, w, n - 1); }
    }
  }

  lemma {:induction false} MarksAfter(s: State, v: nat, n: nat)
    ensures Marks(TakeAfter(s, v, n).state.rest) + n >= Marks(s.rest)
    decreases n
  {
    hide TakeHex, TakeChar;
    if n > 0 {
      var (u, w) := TakeHex(s, v);
      MarksHex(s, v);
      MarksChar(u);
      if w < 65536 { MarksAfter(TakeChar(u), w, n - 1); }
    }
  }

  lemma {:induction false} MarksLeading(s: string, zeros: nat)
    requires zeros <= 8 && ReadLeading(s, zeros).ok
    ensures Marks(s) <= if zeros == 8 then 2 else 9 - zeros
  {
    hide TakeBefore, TakeChar, Written, Marks;
    var u := TakeChar(State(s, false));
    MarksChar(State(s, false));
    MarksBefore(u, 0, 8 - zeros);
    MarksChar(TakeBefore(u, 0, 8 - zeros).state);
    NoMarks();
    WrittenFlag();
  }

  lemma NoMarks()
    ensures Marks("") == 0
  {
  }

  lemma WrittenFlag()
    ensures forall gs, ok :: Written(gs, ok).ok == ok
  {
  }

  lemma {:induction false} MarksTrailing(s: string, zeros: nat)
    requires ReadTrailing(s, zeros).ok
    ensures Marks(s) <= if zeros <= 8 then 9 - zeros else 1
  {
    hide TakeAfter, TakeChar, Written, Marks;
    var n := if zeros <= 8 then 8 - zeros else 0;
    MarksAfter(State(s, false), 0, n);
    MarksChar(TakeAfter(State(s, false), 0, n).state);
    NoMarks();
    WrittenFlag();
  }

  lemma {:induction false} MarksMiddle(s: string, position: nat, zeros: nat)
    requires MiddleInside(s, position, zeros) && ReadMiddle(s, position, zeros).ok
    ensures Marks(s) + zeros <= 8
  {
    hide TakeAfter, TakeBefore, Written, Marks;
    var t := TakeAfter(State(s, false), 0, position);
    MarksAfter(State(s, false), 0, position);
    WrittenFlag();
    assert |t.groups| == position;
    MarksBefore(t.state, t.value, 8 - position - zeros);
    NoMarks();
  }

  lemma {:induction false} MarksPlain(s: string)
    requires ReadPlain(s).ok
    ensures Marks(s) <= 7
  {
    hide TakeHex, TakeBefore, Written, Marks;
    var (t, v) := TakeHex(State(s, false), 0);
    MarksHex(State(s, false), 0);
    MarksBefore(t, v, 7);
    NoMarks();
    WrittenFlag();
  }

  /** Every branch takes fewer characters than a text with a '%' has colons and '%', except
      the one without a zero block. */
  lemma {:induction false} TrueIsPlain(s: string)
    requires StaysInside(s) && '%' in s && Colons(s) >= 2 && ReadText(s).ok
    ensures BlockOf(s).NoBlock? && Marks(s) <= 7 && s[0] != ':' && s[|s| - 1] != ':' && !HasDouble(s)
    ensures Colons(s) <= 6
  {
    hide ReadLeading, ReadTrailing, ReadMiddle, ReadPlain, MiddleInside, BlockOf, Marks, Colons;
    MarksColons(s);
    BlockSizesModulo(s);
    match BlockOf(s) {
      case Leading(bytes) => MarksLeading(s, bytes / 2);
      case Trailing(bytes) => MarksTrailing(s, bytes / 2);
      case Middle(position, bytes) => MarksMiddle(s, position / 2, bytes / 2);
      case NoBlock => MarksPlain(s);
    }
  }

  /** An address in front of a zone is never answered with true, whatever the zone. */
  lemma {:induction false} ZoneFlag(a: string, r: string)
    requires IsAddress(a) && r != "" && r[0] == '%' && StaysInside(a + r)
    ensures Accepts(a + r) && !ReadText(a + r).ok
  {
    hide ReadText, StaysInside, Colons, AddressPart;
    var s := a + r;
    NoPercent(a);
    AddressPartTail(a, r);
    AddressOrShort(a);
    ChecksComplete(a);
    ColonsConcat(a, r);
    assert s[|a|] == '%';
    assert forall i :: DoubleAt(a, i) ==> DoubleAt(s, i);
    if ReadText(s).ok { TrueIsPlain(s); }
  }

  // ----- short lists -----

  /** Reading on behind a short list: what the zone is worth as missing groups. */
  lemma {:induction false} ShortPlain(fs: seq<string>, r: string)
    requires Groups(fs) && 1 <= |fs| <= 7 && Stop(r)
    ensures var u := TakeBefore(State(r, false), LastValue(fs, 0), 8 - |fs|);
      ReadPlain(Join(fs) + r) == Written(Values(fs) + u.groups, |u.groups| == 8 - |fs| && u.state.rest == "")
  {
    hide TakeBefore, TakeHex, TakeChar, Written, Before, Values, Groups, GroupValue, LastValue, Stop;
    var g, t := fs[0], fs[1..];
    GroupsCons(fs);
    BeforeStops(t, r);
    Associate(g, Before(t), r);
    TakeHexField(g, Before(t) + r, 0);
    TakeBeforeFields(t, r, GroupValue(g), 8 - |fs|);
    ValuesCons(fs);
    LastCons(fs, 0);
    var u := TakeBefore(State(r, false), LastValue(t, GroupValue(g)), 8 - |fs|);
    assert [GroupValue(g)] + (Values(t) + u.groups) == Values(fs) + u.groups;
  }

  lemma ZoneEnds(a: string, r: string)
    requires a != "" && r != "" && r[0] == '%'
    ensures var s := a + r;
      && '%' in s && s[0] == a[0] && s[|s| - 1] == r[|r| - 1]
      && (HasDouble(s) <==> HasDouble(a) || HasDouble(r))
  {
    var s := a + r;
    assert s[|a|] == '%';
    assert forall i :: DoubleAt(a, i) ==> DoubleAt(s, i);
    assert forall i :: DoubleAt(r, i) ==> DoubleAt(s, i + |a|);
    assert forall i :: DoubleAt(s, i) ==> DoubleAt(a, i) || DoubleAt(r, i - |a|);
  }

  lemma NoBlockInside(s: string)
    requires s != "" && s[0] != ':' && s[|s| - 1] != ':' && !HasDouble(s)
    ensures BlockOf(s).NoBlock? && StaysInside(s) && ReadText(s) == ReadPlain(s)
  {
    hide U16, ReadPlain;
  }

  /** A short list with any zone is answered with true exactly when the zone neither ends in
      a colon nor has a "::", and reading it for the missing groups uses it up. */
  lemma {:induction false} ShortZone(fs: seq<string>, r: string)
    requires Groups(fs) && 3 <= |fs| <= 7 && r != "" && r[0] == '%'
    ensures var s := Join(fs) + r;
      var u := TakeBefore(State(r, false), LastValue(fs, 0), 8 - |fs|);
      && AddressPart(s) == Join(fs) && Short(Join(fs)) && !IsAddress(Join(fs))
      && (StaysInside(s) && ReadText(s).ok <==>
          r[|r| - 1] != ':' && !HasDouble(r) && |u.groups| == 8 - |fs| && u.state.rest == "")
      && (StaysInside(s) && ReadText(s).ok ==> ReadText(s).address == Bytes(Values(fs) + u.groups))
  {
    hide TakeBefore, ReadText, StaysInside, BlockOf, ReadPlain, Written, Colons, Join, HasDouble, Groups;
    var a := Join(fs);
    var s := a + r;
    assert IsShort(a, fs);
    AddressOrShort(a);
    NoPercent(a);
    AddressPartTail(a, r);
    FieldsJoin(fs);
    ZoneEnds(a, r);
    ColonsConcat(a, r);
    ChecksComplete(a);
    ShortPlain(fs, r);
    if StaysInside(s) && ReadText(s).ok { TrueIsPlain(s); }
    if r[|r| - 1] != ':' && !HasDouble(r) { NoBlockInside(s); }
    WrittenFlag();
    var u := TakeBefore(State(r, false), LastValue(fs, 0), 8 - |fs|);
    if |u.groups| == 8 - |fs| { WrittenAll(Values(fs) + u.groups, true); }
  }

  // ----- a zone of one number -----

  /** White space, a sign and 0x, which a hexadecimal extraction takes in front of digits. */
  ghost predicate NumberHead(space: string, sign: string, prefix: string) {
    (forall c :: c in space ==> IsSpace(c)) && (sign == "" || sign == "+" || sign == "-") &&
    (prefix == "" || prefix == "0x" || prefix == "0X")
  }

  lemma HeadSkipped(sign: string, prefix: string, f: string)
    requires NumberHead("", sign, prefix) && f != "" && AllHex(f)
    ensures var t := sign + (prefix + f);
      && t != "" && !IsSpace(t[0]) && (t[0] == '-' <==> sign == "-")
      && SkipPrefix(SkipSign(t)) == f
  {
    var t, u := sign + (prefix + f), prefix + f;
    hide SkipSign, SkipPrefix, IsHex;
    PrefixSkipped(prefix, f);
    SignSkipped(sign, u);
  }

  lemma SignSkipped(sign: string, u: string)
    requires (sign == "" || sign == "+" || sign == "-") && u != "" && IsHex(u[0])
    ensures var t := sign + u;
      t != "" && !IsSpace(t[0]) && (t[0] == '-' <==> sign == "-") && SkipSign(t) == u
  {
    var t := sign + u;
    if sign == "" {
      assert t == u;
    } else {
      assert t[0] == sign[0] && t[1..] == u;
    }
  }

  lemma PrefixSkipped(prefix: string, f: string)
    requires (prefix == "" || prefix == "0x" || prefix == "0X") && f != "" && AllHex(f)
    ensures var u := prefix + f; u != "" && IsHex(u[0]) && SkipPrefix(u) == f
  {
    var u := prefix + f;
    assert f[0] in f && (|f| > 1 ==> f[1] in f);
    if prefix == "" {
      assert u == f;
    } else {
      assert u[0] == '0' && u[1] == prefix[1] && u[2..] == f;
    }
  }

  lemma DigitsLeft(f: string, negative: bool)
    requires f != "" && AllHex(f)
    ensures var v := GroupValue(f); var (s, w) := TakeDigits(f, negative, Hexadecimal, false);
      if v > 0xFFFF_FFFF then w >= 65536
      else s == State("", false) && w == (if negative then -(v as int) else v) % 0x1_0000_0000
  {
    hide Value, HexRun;
    HexRunField(f, "");
    assert f + "" == f && f[..|f|] == f && f[|f|..] == "";
  }

  /** A zone of one number, with all that may stand in front of its digits: it is taken for
      the next group of a short list, modulo 2^32, and must then fit 16 bits. */
  lemma {:induction false} ShortZoneNumber(fs: seq<string>, space: string, sign: string, prefix: string, f: string)
    requires Groups(fs) && 3 <= |fs| <= 7 && NumberHead(space, sign, prefix) && f != "" && AllHex(f)
    ensures var s := Join(fs) + ("%" + (space + (sign + (prefix + f))));
      var v := GroupValue(f); var w := (if sign == "-" then -(v as int) else v) % 0x1_0000_0000;
      && Short(AddressPart(s))
      && (StaysInside(s) && ReadText(s).ok <==> v <= 0xFFFF_FFFF && w < 65536)
      && (StaysInside(s) && ReadText(s).ok ==>
          ReadText(s).address == Bytes(Values(fs) + Repeat(w, 8 - |fs|)))
  {
    hide TakeHex, TakeChar, TakeBefore, ReadText, StaysInside, Join, Groups, Values, GroupValue, Bytes, Short, AddressPart, NumberHead, HasDouble;
    var t := sign + (prefix + f);
    var x := space + t;
    var r := "%" + x;
    var v0, m := LastValue(fs, 0), 8 - |fs|;
    ShortZone(fs, r);
    NumberZone(space, sign, prefix, f);
    NumberTaken(space, sign, prefix, f, v0);
    assert r[0] == '%' && r[1..] == x;
    TakeSeparator(r);
    TakeBeforeMore(State(r, false), v0, m);
    var w := TakeHex(State(x, false), v0).1;
    if w < 65536 {
      TakeBeforeEnd(false, w, m - 1);
      assert [w] + Repeat(w, m - 1) == Repeat(w, m);
    } else {
      TakeBeforeLarge(State(r, false), v0, m);
    }
  }

  lemma NumberZone(space: string, sign: string, prefix: string, f: string)
    requires NumberHead(space, sign, prefix) && f != "" && AllHex(f)
    ensures var r := "%" + (space + (sign + (prefix + f))); r[|r| - 1] != ':' && !HasDouble(r)
  {
    var r := "%" + (space + (sign + (prefix + f)));
    assert f[|f| - 1] in f && r[|r| - 1] == f[|f| - 1];
    assert forall c :: c in r ==> c == '%' || c in space || c in sign || c in prefix || c in f;
    assert ':' !in r;
  }

  lemma NumberTaken(space: string, sign: string, prefix: string, f: string, v0: nat)
    requires NumberHead(space, sign, prefix) && f != "" && AllHex(f)
    ensures var v := GroupValue(f); var (s, w) := TakeHex(State(space + (sign + (prefix + f)), false), v0);
      if v > 0xFFFF_FFFF then w >= 65536
      else s == State("", false) && w == (if sign == "-" then -(v as int) else v) % 0x1_0000_0000
  {
    hide TakeDigits, SkipSpace, SkipSign, SkipPrefix, GroupValue;
    var t := sign + (prefix + f);
    HeadSkipped(sign, prefix, f);
    SkipBlanks(space, t);
    DigitsLeft(f, sign == "-");
  }

  // ----- zones without white space, signs and x -----

  predicate Ordinary(c: char) { !IsSpace(c) && !IsSign(c) && c != 'x' && c != 'X' }

  predicate AllOrdinary(s: string) { forall c :: c in s ==> Ordinary(c) }

  /** The longest hexadecimal runs, in order. */
  function Runs(s: string): seq<string>
    decreases |s|
  {
    if s == "" then []
    else if !IsHex(s[0]) then Runs(s[1..])
    else [s[..HexRun(s)]] + Runs(s[HexRun(s)..])
  }

  /** The characters between them. */
  function Separators(s: string): nat {
    if s == "" then 0 else (if IsHex(s[0]) then 0 else 1) + Separators(s[1..])
  }

  predicate AdjacentAt(s: string, i: int) {
    0 <= i && i + 1 < |s| && !IsHex(s[i]) && !IsHex(s[i + 1])
  }

  /** Numbers of at most 16 bits, each behind one separator, at most `m`; only the last
      number may be missing. */
  ghost predicate ZoneFits(r: string, m: int) {
    && Separators(r) <= m
    && (forall i :: !AdjacentAt(r, i))
    && forall f :: f in Runs(r) ==> GroupValue(f) < 65536
  }

  lemma OrdinaryTake(x: string, v: nat)
    requires x != "" && AllOrdinary(x)
    ensures var n := HexRun(x); var (u, w) := TakeHex(State(x, false), v);
      if n == 0 then u == State(x, true) && w == 0
      else
        && (w < 65536 <==> GroupValue(x[..n]) < 65536)
        && (w < 65536 ==> u == State(x[n..], false) && w == GroupValue(x[..n]))
  {
    hide HexRun, TakeDigits, GroupValue, SkipSpace, SkipSign, SkipPrefix, AllOrdinary;
    OrdinarySkip(x);
    OrdinaryDigits(x);
  }

  lemma OrdinarySkip(x: string)
    requires x != "" && AllOrdinary(x)
    ensures SkipSpace(x) == x && SkipPrefix(SkipSign(x)) == x && x[0] != '-'
  {
    hide SkipSpace, SkipSign, SkipPrefix;
    assert x[0] in x && (|x| > 1 ==> x[1] in x);
    SkipNothing(x);
  }

  lemma OrdinaryDigits(x: string)
    ensures var n := HexRun(x); var (u, w) := TakeDigits(x, false, Hexadecimal, false);
      if n == 0 then u == State(x, true) && w == 0
      else
        && (w < 65536 <==> GroupValue(x[..n]) < 65536)
        && (w < 65536 ==> u == State(x[n..], false) && w == GroupValue(x[..n]))
  {
    hide HexRun, Value;
  }

  lemma {:induction false} SeparatorsRun(x: string, n: nat)
    requires n <= |x| && AllHex(x[..n])
    ensures Separators(x) == Separators(x[n..])
  {
    if n > 0 {
      assert x[0] in x[..n];
      assert forall c :: c in x[1..][..n - 1] ==> c in x[..n];
      SeparatorsRun(x[1..], n - 1);
      assert x[1..][n - 1..] == x[n..];
    }
  }

  /** One separator and the run behind it. */
  lemma ZoneStep(r: string, m: nat)
    requires |r| > 1 && !IsHex(r[0]) && m > 0
    ensures var x := r[1..]; var n := HexRun(x);
      && Runs(r) == Runs(x)
      && (n == 0 ==> !ZoneFits(r, m))
      && (n > 0 ==> Runs(x) == [x[..n]] + Runs(x[n..]))
      && (n > 0 ==> (ZoneFits(r, m) <==> GroupValue(x[..n]) < 65536 && ZoneFits(x[n..], m - 1)))
  {
    hide HexRun, GroupValue;
    var x := r[1..];
    var n := HexRun(x);
    if n > 0 {
      assert x[0] == x[..n][0];
      SeparatorsRun(x, n);
      AdjacentRun(r, n);
    } else {
      assert AdjacentAt(r, 0);
    }
  }

  lemma AdjacentRun(r: string, n: nat)
    requires n < |r| && AllHex(r[1..][..n]) && n > 0
    ensures (forall i :: !AdjacentAt(r, i)) <==> (forall i :: !AdjacentAt(r[1..][n..], i))
  {
    var y := r[1..][n..];
    forall i ensures AdjacentAt(r, i) ==> AdjacentAt(y, i - n - 1) {
      assert 0 <= i < n ==> r[i + 1] == r[1..][..n][i];
      assert i == n ==> r[i] == r[1..][..n][i - 1];
    }
    assert forall i :: AdjacentAt(y, i) ==> AdjacentAt(r, i + n + 1);
  }

  /** A stream stuck at a text. */
  lemma {:induction false} FailedBefore(x: string, v: nat, m: nat)
    requires v < 65536
    ensures TakeBefore(State(x, true), v, m) == Taken(Repeat(v, m), State(x, true), v)
    decreases m
  {
    if m > 0 {
      FailedBefore(x, v, m - 1);
      assert [v] + Repeat(v, m - 1) == Repeat(v, m);
    }
  }

  ghost predicate UsesUp(t: Taken, m: nat) { |t.groups| == m && t.state.rest == "" }

  lemma TakeSeparator(r: string)
    requires r != "" && Ordinary(r[0])
    ensures TakeChar(State(r, false)) == State(r[1..], false)
  {
  }

  lemma {:induction false} NothingLeft(v: nat, m: nat)
    requires v < 65536
    ensures ZoneFits("", m) && Runs("") == []
    ensures Values([]) + Repeat(LastValue([], v), m) == Repeat(v, m)
    ensures TakeBefore(State("", false), v, m) == Taken(Repeat(v, m), State("", m > 0), v)
  {
    hide TakeBefore;
    TakeBeforeEnd(false, v, m);
  }

  lemma TakeHexEnd(v: nat)
    ensures TakeHex(State("", false), v) == (State("", true), v)
  {
  }

  lemma {:induction false} SeparatorLeft(r: string, v: nat, m: nat)
    requires |r| == 1 && Ordinary(r[0]) && !IsHex(r[0]) && v < 65536 && m > 0
    ensures ZoneFits(r, m) && Runs(r) == []
    ensures TakeBefore(State(r, false), v, m) == Taken(Repeat(v, m), State("", true), v)
  {
    hide TakeHex, TakeChar;
    TakeSeparator(r);
    assert r[1..] == "";
    assert Separators(r) == 1 + Separators("") && Runs(r) == Runs("");
    TakeHexEnd(v);
    TakeBeforeMore(State(r, false), v, m);
    TakeBeforeEnd(true, v, m - 1);
    assert [v] + Repeat(v, m - 1) == Repeat(v, m);
  }

  /** Reading a zone for `m` groups. */
  lemma {:induction false} ZoneReads(r: string, v: nat, m: nat)
    requires AllOrdinary(r) && v < 65536 && (r == "" || !IsHex(r[0]))
    ensures var t := TakeBefore(State(r, false), v, m); var fs := Runs(r);
      && (UsesUp(t, m) <==> ZoneFits(r, m))
      && (UsesUp(t, m) ==> |fs| <= m && t.groups == Values(fs) + Repeat(LastValue(fs, v), m - |fs|))
    decreases m
  {
    hide TakeHex, TakeChar, GroupValue, HexRun, Runs, Values, LastValue, TakeBefore, ZoneFits, Ordinary;
    assert r != "" ==> r[0] in r;
    if r == "" {
      NothingLeft(v, m);
    } else if m == 0 {
      TakeNone(State(r, false), v, []);
      ZoneTooLong(r, 0);
    } else if |r| == 1 {
      SeparatorLeft(r, v, m);
      NothingLeft(v, m);
    } else {
      var x := r[1..];
      var n := HexRun(x);
      TakeSeparator(r);
      OrdinaryTake(x, v);
      TakeBeforeMore(State(r, false), v, m);
      ZoneStep(r, m);
      if n == 0 {
        FailedBefore(x, 0, m - 1);
      } else {
        var f, y := x[..n], x[n..];
        var w := TakeHex(State(x, false), v).1;
        if w < 65536 {
          ZoneReads(y, w, m - 1);
          LastCons([f] + Runs(y), v);
          ValuesCons([f] + Runs(y));
        } else {
          TakeBeforeLarge(State(r, false), v, m);
        }
      }
    }
  }

  lemma TakeBeforeLarge(s: State, v: nat, m: nat)
    requires m > 0 && TakeHex(TakeChar(s), v).1 >= 65536
    ensures TakeBefore(s, v, m).groups == []
  {
  }

  /** A short list with a zone of ordinary characters: when it is answered with true, and
      what it is then read as. */
  lemma {:induction false} ShortZoneIff(fs: seq<string>, r: string)
    requires Groups(fs) && 3 <= |fs| <= 7 && r != "" && r[0] == '%' && AllOrdinary(r)
    ensures var s := Join(fs) + r;
      && AddressPart(s) == Join(fs) && Short(Join(fs)) && !IsAddress(Join(fs))
      && (StaysInside(s) && ReadText(s).ok <==> r[|r| - 1] != ':' && ZoneFits(r, 8 - |fs|))
      && (StaysInside(s) && ReadText(s).ok ==>
          |fs| + |Runs(r)| <= 8 &&
          var vs := Values(fs) + Values(Runs(r));
          ReadText(s).address == Bytes(vs + Repeat(vs[|vs| - 1], 8 - |vs|)))
  {
    hide TakeBefore, ReadText, StaysInside, Join, Groups, Runs, HasDouble, ZoneFits, GroupValue, Short, IsAddress, Bytes;
    var v, m := LastValue(fs, 0), 8 - |fs|;
    ShortZone(fs, r);
    LastBound(fs);
    ZoneReads(r, v, m);
    FitsNoDouble(r, m);
    if UsesUp(TakeBefore(State(r, false), v, m), m) {
      var ws := Values(Runs(r));
      var vs := Values(fs) + ws;
      assert LastValue(Runs(r), v) == vs[|vs| - 1];
      assert Values(fs) + (ws + Repeat(vs[|vs| - 1], m - |ws|)) == vs + Repeat(vs[|vs| - 1], 8 - |vs|);
    }
  }

  /** "1:2:3%" is answered with true as 1:2:3:3:3:3:3:3, "1:2:3%a.b" as 1:2:3:a:b:b:b:b. */
  lemma ShortZoneExample()
    ensures StaysInside("1:2:3%") && ReadText("1:2:3%") == Outcome(true, Bytes([1, 2, 3, 3, 3, 3, 3, 3]))
    ensures StaysInside("1:2:3%a.b")
    ensures ReadText("1:2:3%a.b") == Outcome(true, Bytes([1, 2, 3, 10, 11, 11, 11, 11]))
  {
    hide ReadText, StaysInside, Join, Bytes, Values, Short, IsAddress, Runs, ZoneFits;
    var fs := ["1", "2", "3"];
    ShortExampleFields(fs);
    ExampleZones();
    ShortZoneIff(fs, "%");
    ShortZoneIff(fs, "%a.b");
    assert "1:2:3" + "%" == "1:2:3%" && "1:2:3" + "%a.b" == "1:2:3%a.b";
    assert [1, 2, 3] + [] == [1, 2, 3] && [1, 2, 3] + Repeat(3, 5) == [1, 2, 3, 3, 3, 3, 3, 3];
    assert [1, 2, 3] + [10, 11] == [1, 2, 3, 10, 11];
    assert [1, 2, 3, 10, 11] + Repeat(11, 3) == [1, 2, 3, 10, 11, 11, 11, 11];
  }

  lemma ExampleZones()
    ensures ZoneFits("%", 5) && Values(Runs("%")) == []
    ensures ZoneFits("%a.b", 5) && Values(Runs("%a.b")) == [10, 11]
  {
    var r := "%a.b";
    assert r[1..] == "a.b" && r[2..] == ".b" && r[3..] == "b" && "%"[1..] == "";
    assert "a.b"[1..] == ".b" && ".b"[1..] == "b" && "b"[1..] == "";
    assert HexRun("a.b") == 1 && HexRun("b") == 1;
    assert "a.b"[..1] == "a" && "b"[..1] == "b" && Runs("") == [];
    assert Runs("b") == ["b"] && Runs("a.b") == ["a"] + Runs(".b");
    assert Runs(r) == ["a", "b"];
    assert GroupValue("a") == 10 && GroupValue("b") == 11;
  }

  lemma LastBound(fs: seq<string>)
    requires Groups(fs) && fs != []
    ensures LastValue(fs, 0) < 65536
  {
    ValuesBound(fs);
    assert Values(fs)[|fs| - 1] < 65536;
  }

  lemma FitsNoDouble(r: string, m: int)
    ensures ZoneFits(r, m) ==> !HasDouble(r)
  {
    if i :| DoubleAt(r, i) { assert AdjacentAt(r, i); }
  }

  lemma ShortColons(a: string, fs: seq<string>)
    requires IsShort(a, fs)
    ensures !HasDouble(a) && Colons(a) == |fs| - 1
  {
    FieldsJoin(fs);
    GroupsClean(fs);
    ColonsJoin(fs);
  }

  /** No zone, or a list of groups whose zone supplies missing ones. */
  ghost predicate AnsweredTrue(s: string) {
    var a := AddressPart(s);
    '%' !in s || (!HasDouble(a) && s[|s| - 1] != ':' && ZoneFits(s[|a|..], 7 - Colons(a)))
  }

  /** What true means. */
  lemma {:induction false} TrueIff(s: string)
    requires Accepts(s) && AllOrdinary(s[|AddressPart(s)|..])
    ensures StaysInside(s) && ReadText(s).ok <==> AnsweredTrue(s)
  {
    hide ReadText, StaysInside, Colons, HasDouble, ZoneFits, IsAddress, AddressPart, Groups, AllOrdinary, Join, Short, Form1;
    var a := AddressPart(s);
    var r := s[|a|..];
    AddressZone(s);
    if r == "" {
      AcceptedIsAddress(s);
    } else if IsAddress(a) {
      if StaysInside(s) { ZoneFlag(a, r); }
      AddressOrShort(a);
      if !HasDouble(a) { ZoneTooLong(r, 7 - Colons(a)); }
    } else {
      var fs := ShortGroups(a);
      ShortColons(a, fs);
      ShortZoneIff(fs, r);
    }
  }

  lemma AddressZone(s: string)
    ensures var a := AddressPart(s); var r := s[|a|..];
      && s == a + r && '%' !in a
      && (r == "" <==> '%' !in s) && (r != "" ==> r[0] == '%' && s[|s| - 1] == r[|r| - 1])
  {
    hide AddressPart;
    var n := |AddressPart(s)|;
    AddressEnds(s);
    assert s == s[..n] + s[n..];
    if i :| 0 <= i < |s| && s[i] == '%' { assert i >= n; }
  }

  lemma AddressEnds(s: string)
    ensures var n := |AddressPart(s)|;
      && n <= |s| && AddressPart(s) == s[..n]
      && (n < |s| ==> s[n] == '%') && forall i :: 0 <= i < n ==> s[i] != '%'
  {
    var n := |AddressPart(s)|;
    forall i | 0 <= i < n ensures s[i] != '%' {
      if s[i] == '%' { assert s[i..i + 1] == "%" && At(s, "%", i); }
    }
    if n < |s| { assert s[n..n + 1] == [s[n]]; }
  }

  lemma ZoneTooLong(r: string, m: int)
    requires r != "" && !IsHex(r[0]) && m <= 0
    ensures !ZoneFits(r, m)
  {
  }
}
