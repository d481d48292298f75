/** The bytes an address is stored as in front of any zone. The reader counts the colons of
    the zone like those of the address. */
module IPv6Zones {
  import opened Text
  import opened CharStream
  import opened IPv6Grammar
  import opened IPv6Gate
  import opened IPv6Text
  import opened IPv6Meaning
  import opened IPv6Bounds
  import opened IPv6Answers
  import opened Locators

  /** The sixteen bytes after writing these groups into an address of zeros. */
  function Stored(groups: seq<nat>): seq<octet> { Bytes(groups + Zeros(8 - |groups|)) }

  lemma WrittenStored(groups: seq<nat>, m: nat)
    requires |groups| + m <= 8
    ensures forall ok :: Written(groups, ok).address == Stored(groups)
    ensures forall ok :: Written(groups + Zeros(m), ok).address == Stored(groups)
  {
    assert groups + Zeros(m) + Zeros(8 - |groups| - m) == groups + Zeros(8 - |groups|);
  }

  lemma {:induction false} FailedAfter(x: string, v: nat, m: nat)
    requires v < 65536
    ensures TakeAfter(State(x, true), v, m).groups == Repeat(v, m)
    decreases m
  {
    if m > 0 {
      FailedAfter(x, v, m - 1);
      assert [v] + Repeat(v, m - 1) == Repeat(v, m);
    }
  }

  /** Where a number is expected before a colon or a zone, only zeros are read. */
  lemma {:induction false} ZerosBefore(x: string, v: nat, m: nat)
    requires x != "" && Stop(x)
    ensures TakeBefore(State(":" + x, false), v, m).groups == Zeros(m)
  {
    hide TakeHex, TakeChar, TakeBefore;
    if m > 0 {
      TakeColon(x);
      TakeNoHex(x, v);
      TakeBeforeMore(State(":" + x, false), v, m);
      FailedBefore(x, 0, m - 1);
      assert [0] + Repeat(0, m - 1) == Zeros(m);
    } else {
      TakeNone(State(":" + x, false), v, []);
    }
  }

  lemma {:induction false} ZerosAfter(x: string, v: nat, m: nat)
    requires x != "" && Stop(x)
    ensures TakeAfter(State(x, false), v, m).groups == Zeros(m)
  {
    hide TakeHex, TakeAfter;
    if m > 0 {
      TakeNoHex(x, v);
      TakeAfterMore(State(x, false), v, m);
      FailedAfter(x, 0, m - 1);
      assert [0] + Repeat(0, m - 1) == Zeros(m);
    } else {
      TakeNone(State(x, false), v, []);
    }
  }

  /** The branches in front of a "::" whose second colon is where a number is expected. */
  lemma {:induction false} PlainZeros(ps: seq<string>, x: string)
    requires Groups(ps) && |ps| <= 7 && x != "" && Stop(x)
    ensures ReadPlain(Join(ps) + (":" + x)).address == Stored(Values(ps))
  {
    hide TakeBefore, TakeHex, TakeChar, Written, Before, Values, Groups, GroupValue, Stored;
    if ps == [] {
      assert Join(ps) + (":" + x) == ":" + x && Values(ps) == [];
      TakeNoHex(":" + x, 0);
      FailedBefore(":" + x, 0, 7);
      assert [0] + Repeat(0, 7) == [] + Zeros(8);
      WrittenStored([], 8);
    } else {
      ShortPlain(ps, ":" + x);
      ZerosBefore(x, LastValue(ps, 0), 8 - |ps|);
      WrittenStored(Values(ps), 8 - |ps|);
    }
  }

  lemma {:induction false} TrailingZeros(ps: seq<string>, x: string, z: nat)
    requires Groups(ps) && x != "" && Stop(x) && |ps| + z <= 8
    ensures ReadTrailing(After(ps) + x, z).address == Stored(Values(ps))
  {
    hide TakeAfter, TakeHex, TakeChar, Written, After, Values, Groups, Stored;
    TakeAfterFields(ps, x, 0, 8 - z - |ps|);
    ZerosAfter(x, LastValue(ps, 0), 8 - z - |ps|);
    WrittenStored(Values(ps), 8 - z - |ps|);
  }

  lemma TrailingNone(s: string, z: nat)
    requires z > 8
    ensures ReadTrailing(s, z).address == Stored([])
  {
    hide Written, Stored;
    WrittenStored([], 0);
  }

  lemma {:induction false} MiddleZeros(ps: seq<string>, x: string, z: nat)
    requires Groups(ps) && |ps| + z <= 8 && x != "" && Stop(x)
    ensures ReadMiddle(After(ps) + (":" + x), |ps|, z).address == Stored(Values(ps))
  {
    hide TakeAfter, TakeBefore, TakeHex, TakeChar, Written, After, Values, Groups, Stored;
    var n := 8 - |ps| - z;
    TakeAfterAll(ps, ":" + x, 0);
    ZerosBefore(x, LastValue(ps, 0), n);
    assert Values(ps) + Zeros(z) + Zeros(n) == Values(ps) + Zeros(z + n);
    WrittenStored(Values(ps), z + n);
  }

  lemma {:induction false} LeadingZeros(x: string, z: nat)
    requires x != "" && Stop(x) && z <= 8
    ensures ReadLeading(":" + (":" + x), z).address == Stored([])
  {
    hide TakeBefore, TakeHex, TakeChar, Written, Stored;
    TakeColon(":" + x);
    ZerosBefore(x, 0, 8 - z);
    assert Zeros(z) + Zeros(8 - z) == [] + Zeros(8);
    WrittenStored([], 8);
  }

  /** Two parts with zeros between them, and numbers taken from a zone behind. */
  function Laid(p: seq<nat>, zeros: int, q: seq<nat>, n: seq<nat>): (w: seq<nat>)
    ensures |w| == |p| + |Zeros(zeros)| + |q| + |n|
  {
    p + Zeros(zeros) + (q + n)
  }

  lemma LaidFirst(zeros: int, q: seq<nat>, n: seq<nat>)
    ensures Laid([], zeros, q, n) == Zeros(zeros) + (q + n)
  {
    assert [] + Zeros(zeros) == Zeros(zeros);
  }

  /** The branches that go on reading behind the groups of the address. */
  lemma {:induction false} LeadingZone(qs: seq<string>, r: string, k: nat)
    requires Groups(qs) && |qs| + k <= 8 && Stop(r)
    ensures ReadLeading(":" + (Before(qs) + r), 8 - |qs| - k).address ==
      Stored(Laid([], 8 - |qs| - k, Values(qs), TakeBefore(State(r, false), LastValue(qs, 0), k).groups))
  {
    hide TakeBefore, TakeHex, TakeChar, Written, Before, Values, Groups, Stored, Stop, Laid, Zeros;
    TakeColon(Before(qs) + r);
    TakeBeforeFields(qs, r, 0, k);
    var t := TakeBefore(State(r, false), LastValue(qs, 0), k).groups;
    LaidFirst(8 - |qs| - k, Values(qs), t);
    WrittenStored(Laid([], 8 - |qs| - k, Values(qs), t), 0);
  }

  lemma {:induction false} MiddleZoneGroups(ps: seq<string>, qs: seq<string>, r: string, k: nat)
    requires Groups(ps) && Groups(qs) && |ps| + |qs| + k <= 8 && Stop(r)
    ensures ReadMiddle(After(ps) + (Before(qs) + r), |ps|, 8 - |ps| - |qs| - k).address ==
      Stored(Laid(Values(ps), 8 - |ps| - |qs| - k, Values(qs),
                  TakeBefore(State(r, false), LastValue(qs, LastValue(ps, 0)), k).groups))
  {
    hide TakeAfter, TakeBefore, TakeHex, TakeChar, Written, After, Before, Values, Groups, Stored, Stop, Zeros;
    TakeAfterAll(ps, Before(qs) + r, 0);
    TakeBeforeFields(qs, r, LastValue(ps, 0), k);
    var t := TakeBefore(State(r, false), LastValue(qs, LastValue(ps, 0)), k).groups;
    WrittenStored(Laid(Values(ps), 8 - |ps| - |qs| - k, Values(qs), t), 0);
  }

  /** The numbers a stream reads from a zone, one for each of its colons. */
  function ZoneNumbers(r: string): (vs: seq<nat>)
    ensures |vs| <= Colons(r)
  {
    TakeBefore(State(r, false), 0, Colons(r)).groups
  }

  /** A zone with a colon is not at its end behind the '%', so the first number read from it
      does not depend on earlier ones. */
  lemma ZoneNumbersFrom(r: string, v: nat)
    requires r != "" && r[0] == '%'
    ensures TakeBefore(State(r, false), v, Colons(r)).groups == ZoneNumbers(r)
  {
    hide TakeHex, TakeChar, TakeBefore, Colons;
    if Colons(r) > 0 {
      ZoneRest(r);
      HexIgnores(r[1..], v);
      FirstNumber(State(r, false), v, 0, Colons(r));
    } else {
      TakeNone(State(r, false), v, []);
      TakeNone(State(r, false), 0, []);
    }
  }

  lemma ZoneRest(r: string)
    requires r != "" && r[0] == '%' && Colons(r) > 0
    ensures TakeChar(State(r, false)) == State(r[1..], false) && SkipSpace(r[1..]) != ""
  {
    SpaceColon(r[1..]);
  }

  lemma HexIgnores(x: string, v: nat)
    requires SkipSpace(x) != ""
    ensures TakeHex(State(x, false), v) == TakeHex(State(x, false), 0)
  {
    hide SkipSpace, TakeDigits, SkipPrefix, SkipSign;
  }

  lemma FirstNumber(s: State, v: nat, w: nat, n: nat)
    requires n > 0 && TakeHex(TakeChar(s), v) == TakeHex(TakeChar(s), w)
    ensures TakeBefore(s, v, n) == TakeBefore(s, w, n)
  {
    hide TakeHex, TakeChar;
  }

  lemma {:induction false} SpaceColon(x: string)
    requires Colons(x) > 0
    ensures SkipSpace(x) != ""
  {
    if IsSpace(x[0]) { SpaceColon(x[1..]); }
  }

  /** The block from the colons, where their number does not wrap around. */
  lemma BlockColons(s: string)
    requires s != "" && Colons(s) < 32768
    ensures var c, front, back := Colons(s), s[0] == ':', s[|s| - 1] == ':';
      && (front && back ==> BlockOf(s) == Leading(16))
      && (front && !back && c < 9 ==> BlockOf(s) == Leading(2 * (9 - c)))
      && (front && !back && c == 9 ==> BlockOf(s) == NoBlock)
      && (!front && back && c < 9 ==> BlockOf(s) == Trailing(2 * (9 - c)))
      && (!front && back && c == 9 ==> BlockOf(s) == NoBlock)
      && (!front && back && c > 9 ==> BlockOf(s).Trailing? && BlockOf(s).bytes > 16)
      && (!front && !back && (c == 8 || !HasDouble(s)) ==> BlockOf(s) == NoBlock)
      && (!front && !back && c < 8 && HasDouble(s) ==>
          BlockOf(s) == Middle(2 * Colons(s[..FirstDouble(s) + 1]), 2 * (8 - c)))
  {
    hide BlockOf, Colons;
    BlockSizesModulo(s);
    NoColons(s);
    assert s[0] == ':' || s[|s| - 1] == ':' ==> ':' in s;
    if HasDouble(s) { ColonsAround(s, FirstDouble(s)); }
  }

  /** The branch from the colons. */
  lemma ReadColons(s: string)
    requires s != "" && Colons(s) < 32768
    ensures var c, front, back := Colons(s), s[0] == ':', s[|s| - 1] == ':';
      && (front && back ==> StaysInside(s) && ReadText(s) == ReadLeading(s, 8))
      && (front && !back && c < 9 ==> StaysInside(s) && ReadText(s) == ReadLeading(s, 9 - c))
      && (!front && back && c < 9 ==> StaysInside(s) && ReadText(s) == ReadTrailing(s, 9 - c))
      && (!front && back && c > 9 ==> StaysInside(s) && exists z: nat :: z > 8 && ReadText(s) == ReadTrailing(s, z))
      && (front != back && c == 9 ==> StaysInside(s) && ReadText(s) == ReadPlain(s))
      && (!front && !back && (c == 8 || !HasDouble(s)) ==> StaysInside(s) && ReadText(s) == ReadPlain(s))
  {
    hide BlockOf, Colons, HasDouble, ReadLeading, ReadTrailing, ReadMiddle, ReadPlain;
    BlockColons(s);
    NoColons(s);
    assert s[0] == ':' ==> ':' in s;
    if s[0] != ':' && s[|s| - 1] == ':' && Colons(s) > 9 {
      assert ReadText(s) == ReadTrailing(s, BlockOf(s).bytes / 2);
    }
  }

  lemma ReadColonsMiddle(s: string, p: nat)
    requires HasDouble(s) && Colons(s) < 8 && s[0] != ':' && s[|s| - 1] != ':'
    requires p == Colons(s[..FirstDouble(s) + 1])
    ensures MiddleInside(s, p, 8 - Colons(s))
    ensures StaysInside(s) && ReadText(s) == ReadMiddle(s, p, 8 - Colons(s))
  {
    hide BlockOf, Colons, ReadMiddle, ReadLeading, ReadTrailing, ReadPlain, MiddleInside;
    BlockColons(s);
    ColonsAround(s, FirstDouble(s));
    MiddleFits(s, p, 8 - Colons(s));
  }

  /** An address with "::" and its zone. */
  ghost predicate ZoneText(s: string, ps: seq<string>, qs: seq<string>, r: string) {
    && Groups(ps) && Groups(qs) && |ps| + |qs| <= 7 && r != "" && r[0] == '%'
    && s == Join(ps) + "::" + Join(qs) + r
  }

  /** The same text cut where the branches stop reading it, with what they look at. */
  ghost predicate CutText(s: string, x: string, ps: seq<string>, qs: seq<string>, r: string) {
    && Groups(ps) && Groups(qs) && |ps| + |qs| <= 7 && Stop(r) && Stop(x) && x != "" && r != ""
    && s == Join(ps) + (":" + x) && s == (if ps == [] then ":" + x else After(ps) + x)
    && x == (if qs == [] then ":" + r else Before(qs) + r) && r[0] == '%'
  }

  ghost predicate TextShape(s: string, ps: seq<string>, qs: seq<string>, r: string) {
    && s != "" && r != ""
    && (s[0] == ':' <==> ps == []) && (s[|s| - 1] == ':' <==> r[|r| - 1] == ':')
    && HasDouble(s) && (ps != [] ==> Colons(s[..FirstDouble(s) + 1]) == |ps|)
    && Colons(s) == (if ps == [] then 1 else |ps|) + (if qs == [] then 1 else |qs|) + Colons(r)
  }

  lemma Cut(s: string, ps: seq<string>, qs: seq<string>, r: string)
    requires ZoneText(s, ps, qs, r)
    ensures CutText(s, ":" + (Join(qs) + r), ps, qs, r)
  {
    hide Join, Before, After, Groups;
    Cuts(ps, qs, r);
  }

  lemma Shape(s: string, ps: seq<string>, qs: seq<string>, r: string)
    requires ZoneText(s, ps, qs, r)
    ensures TextShape(s, ps, qs, r)
  {
    hide Join, Colons, HasDouble, Groups, Accepts, NumbersFit;
    Form2ZoneShape(ps, qs, r);
    if ps != [] {
      Associate(Join(ps) + "::", Join(qs), r);
      GroupsBeforeDouble(ps, Join(qs) + r);
    }
  }

  lemma Cuts(ps: seq<string>, qs: seq<string>, r: string)
    ensures var s := Join(ps) + "::" + Join(qs) + r; var x := ":" + (Join(qs) + r);
      && s == Join(ps) + (":" + x) && s == Join(ps) + "::" + (Join(qs) + r)
      && s == (if ps == [] then ":" + x else After(ps) + x)
      && x == if qs == [] then ":" + r else Before(qs) + r
  {
    hide Join, Before, After;
    NoneFirst();
    Recut(Join(ps), Join(qs), r);
    if ps == [] { Empty(":" + (":" + (Join(qs) + r))); } else { JoinAfter(ps); }
    if qs == [] { Empty(r); } else { JoinBefore(qs); Associate(":", Join(qs), r); }
  }

  lemma Recut(a: string, b: string, r: string)
    ensures var x := ":" + (b + r);
      a + "::" + b + r == a + (":" + x) == a + "::" + (b + r) == (a + ":") + x
  {
    var x := ":" + (b + r);
    assert ":" + x == "::" + (b + r);
    Associate(a, ":", x);
    Associate(a, "::", b + r);
    Associate(a + "::", b, r);
  }

  lemma Empty(x: string)
    ensures "" + x == x
  {
  }

  lemma NoneFirst()
    ensures Join([]) == "" && Values([]) == [] && Groups([])
  {
  }

  lemma LeadingFull(s: string)
    ensures ReadLeading(s, 8).address == Stored([])
  {
    hide TakeChar, Written, Stored;
    TakeNone(TakeChar(State(s, false)), 0, []);
    assert Zeros(8) + [] == [] + Zeros(8);
    WrittenStored([], 8);
  }

  /** The groups the reader writes for an address with "::" and a zone. */
  function Form2Written(ps: seq<string>, qs: seq<string>, r: string): seq<nat>
    requires r != ""
  {
    var sum := |ps| + |qs| + Colons(r);
    if r[|r| - 1] == ':' then
      if ps != [] && sum > (if qs == [] then 8 else 9) then [] else Values(ps)
    else if qs == [] || sum == 8 then Values(ps)
    else Laid(Values(ps), 8 - sum, Values(qs), ZoneNumbers(r))
  }

  lemma PlainBranch(s: string, x: string, ps: seq<string>, qs: seq<string>, r: string)
    requires CutText(s, x, ps, qs, r)
    ensures ReadPlain(s).address == Stored(Values(ps))
  {
    hide Join, Before, After, ReadPlain, Stored, Stop, Values, Groups;
    PlainZeros(ps, x);
  }

  lemma {:induction false} EndBranch(s: string, x: string, ps: seq<string>, qs: seq<string>, r: string)
    requires CutText(s, x, ps, qs, r) && TextShape(s, ps, qs, r)
    requires r[|r| - 1] == ':' && Colons(s) < 32768
    ensures StaysInside(s) && ReadText(s).address == Stored(Form2Written(ps, qs, r))
  {
    hide ReadText, StaysInside, ReadLeading, ReadTrailing, ReadPlain, Colons, CutText, Stored, Values, HasDouble, Form2Written;
    ReadColons(s);
    EndWritten(ps, qs, r);
    if ps == [] {
      LeadingFull(s);
    } else if Colons(s) < 9 {
      EndTrailing(s, x, ps, qs, r, 9 - Colons(s));
    } else if Colons(s) == 9 {
      PlainBranch(s, x, ps, qs, r);
    } else {
      var z: nat :| z > 8 && ReadText(s) == ReadTrailing(s, z);
      TrailingNone(s, z);
    }
  }

  lemma EndTrailing(s: string, x: string, ps: seq<string>, qs: seq<string>, r: string, z: nat)
    requires CutText(s, x, ps, qs, r) && ps != [] && |ps| + z <= 8
    ensures ReadTrailing(s, z).address == Stored(Values(ps))
  {
    hide Join, Before, After, ReadTrailing, Stored, Stop, Values, Groups;
    TrailingZeros(ps, x, z);
  }

  lemma EndWritten(ps: seq<string>, qs: seq<string>, r: string)
    requires r != "" && r[|r| - 1] == ':'
    ensures var colons := |ps| + (if qs == [] then 1 else |qs|) + Colons(r);
      Form2Written(ps, qs, r) == if ps == [] || colons > 9 then [] else Values(ps)
  {
    hide Colons;
    NoneFirst();
  }

  lemma {:induction false} FrontBranch(s: string, x: string, qs: seq<string>, r: string)
    requires CutText(s, x, [], qs, r) && TextShape(s, [], qs, r)
    requires r[|r| - 1] != ':' && Colons(s) <= 9
    ensures StaysInside(s) && ReadText(s).address == Stored(Form2Written([], qs, r))
  {
    hide ReadText, StaysInside, ReadLeading, ReadPlain, Colons, CutText, Stored, Values, HasDouble, ZoneNumbers, Laid;
    ReadColons(s);
    NoneFirst();
    if Colons(s) == 9 {
      PlainBranch(s, x, [], qs, r);
    } else if qs == [] {
      FrontZeros(s, x, r, 9 - Colons(s));
    } else {
      FrontGroups(s, x, qs, r);
    }
  }

  lemma FrontZeros(s: string, x: string, r: string, z: nat)
    requires CutText(s, x, [], [], r) && z <= 8
    ensures ReadLeading(s, z).address == Stored([])
  {
    hide Join, Before, After, ReadLeading, Stored, Stop;
    LeadingZeros(r, z);
  }

  lemma FrontGroups(s: string, x: string, qs: seq<string>, r: string)
    requires CutText(s, x, [], qs, r) && qs != [] && |qs| + Colons(r) <= 8
    ensures ReadLeading(s, 8 - |qs| - Colons(r)).address ==
      Stored(Laid([], 8 - |qs| - Colons(r), Values(qs), ZoneNumbers(r)))
  {
    hide Join, Before, After, ReadLeading, Stored, Stop, ZoneNumbers, Values, Groups, Laid, TakeBefore, Colons;
    LeadingZone(qs, r, Colons(r));
    ZoneNumbersFrom(r, LastValue(qs, 0));
  }

  lemma {:induction false} MiddleBranch(s: string, x: string, ps: seq<string>, qs: seq<string>, r: string)
    requires CutText(s, x, ps, qs, r) && TextShape(s, ps, qs, r)
    requires ps != [] && r[|r| - 1] != ':' && Colons(s) <= 8
    ensures StaysInside(s) && ReadText(s).address == Stored(Form2Written(ps, qs, r))
  {
    hide ReadText, StaysInside, ReadMiddle, ReadPlain, Colons, CutText, Stored, Values, HasDouble, ZoneNumbers, Laid, MiddleInside;
    if Colons(s) == 8 {
      ReadColons(s);
      PlainBranch(s, x, ps, qs, r);
    } else {
      ReadColonsMiddle(s, |ps|);
      if qs == [] {
        MiddleNone(s, x, ps, r, 8 - Colons(s));
      } else {
        MiddleGroupsZone(s, x, ps, qs, r);
      }
    }
  }

  lemma MiddleNone(s: string, x: string, ps: seq<string>, r: string, z: nat)
    requires CutText(s, x, ps, [], r) && ps != [] && |ps| + z <= 8 && MiddleInside(s, |ps|, z)
    ensures ReadMiddle(s, |ps|, z).address == Stored(Values(ps))
  {
    hide Join, Before, After, ReadMiddle, MiddleInside, Stored, Stop, Values, Groups;
    MiddleZeros(ps, r, z);
  }

  lemma MiddleGroupsZone(s: string, x: string, ps: seq<string>, qs: seq<string>, r: string)
    requires CutText(s, x, ps, qs, r) && ps != [] && qs != [] && |ps| + |qs| + Colons(r) <= 8
    requires MiddleInside(s, |ps|, 8 - |ps| - |qs| - Colons(r))
    ensures ReadMiddle(s, |ps|, 8 - |ps| - |qs| - Colons(r)).address ==
      Stored(Laid(Values(ps), 8 - |ps| - |qs| - Colons(r), Values(qs), ZoneNumbers(r)))
  {
    hide Join, Before, After, ReadMiddle, MiddleInside, Stored, Stop, ZoneNumbers, Values, Groups, Laid, TakeBefore, Colons;
    MiddleZoneGroups(ps, qs, r, Colons(r));
    ZoneNumbersFrom(r, LastValue(qs, LastValue(ps, 0)));
  }

  /** What is written for an address with "::" and any zone. */
  lemma {:induction false} Form2Zone(s: string, ps: seq<string>, qs: seq<string>, r: string)
    requires ZoneText(s, ps, qs, r) && Colons(s) < 32768 && StaysInside(s)
    ensures ReadText(s).address == Stored(Form2Written(ps, qs, r))
    ensures r[|r| - 1] != ':' ==> |ps| + (if qs == [] then 1 else |qs|) + Colons(r) <= 8
    ensures r[|r| - 1] == ':' ==> Colons(r) > 0
  {
    hide ReadText, StaysInside, CutText, TextShape, ZoneText, Stored, Form2Written, Colons;
    var x := ":" + (Join(qs) + r);
    Cut(s, ps, qs, r);
    Shape(s, ps, qs, r);
    ShapeSizes(s, ps, qs, r);
    if r[|r| - 1] == ':' {
      EndBranch(s, x, ps, qs, r);
    } else if ps == [] {
      FrontBranch(s, x, qs, r);
    } else {
      MiddleBranch(s, x, ps, qs, r);
    }
  }

  lemma ShapeSizes(s: string, ps: seq<string>, qs: seq<string>, r: string)
    requires ZoneText(s, ps, qs, r) && TextShape(s, ps, qs, r) && Colons(s) < 32768 && StaysInside(s)
    ensures r != ""
    ensures r[|r| - 1] == ':' ==> Colons(r) > 0
    ensures r[|r| - 1] != ':' ==> Colons(s) <= if ps == [] then 9 else 8
    ensures r[|r| - 1] != ':' ==> |ps| + (if qs == [] then 1 else |qs|) + Colons(r) <= 8
  {
    hide StaysInside, Colons, HasDouble, Join, Before, After, Groups, Accepts;
    Form2Inside(ps, qs, r);
    NoColons(r);
  }

  // ----- when these are the right bytes -----

  predicate AllZero(vs: seq<nat>) { forall i :: 0 <= i < |vs| ==> vs[i] == 0 }

  predicate Fits(vs: seq<nat>) { forall i :: 0 <= i < |vs| ==> vs[i] < 65536 }

  lemma {:induction false} NumbersFitBefore(s: State, v: nat, n: nat)
    ensures Fits(TakeBefore(s, v, n).groups)
    decreases n
  {
    hide TakeHex, TakeChar;
    if n > 0 {
      var (u, w) := TakeHex(TakeChar(s), v);
      if w < 65536 { NumbersFitBefore(u, w, n - 1); }
    }
  }

  lemma SameBytes(vs: seq<nat>, ws: seq<nat>)
    requires Fits(vs) && Fits(ws)
    ensures Bytes(vs) == Bytes(ws) <==> vs == ws
  {
    GroupsBytes(vs);
    GroupsBytes(ws);
  }

  lemma CutShort(p: seq<nat>, q: seq<nat>)
    requires |p| + |q| <= 8
    ensures p + Zeros(8 - |p|) == p + Zeros(8 - |p| - |q|) + q <==> AllZero(q)
    ensures [] + Zeros(8) == p + Zeros(8 - |p| - |q|) + q <==> AllZero(p) && AllZero(q)
  {
    var w := p + Zeros(8 - |p| - |q|) + q;
    assert forall i :: 0 <= i < |p| ==> w[i] == p[i];
    assert forall i :: 0 <= i < |q| ==> w[8 - |q| + i] == q[i];
  }

  /** Groups moved to the left by others behind them stay the same only when all are zero. */
  lemma Moved(p: seq<nat>, q: seq<nat>, n: seq<nat>, k: nat)
    requires |p| + |q| + k <= 8 && |n| <= k
    ensures var w := Laid(p, 8 - |p| - |q| - k, q, n);
      |w| <= 8 &&
      (w + Zeros(8 - |w|) == p + Zeros(8 - |p| - |q|) + q <==> k == 0 || (AllZero(q) && AllZero(n)))
  {
    var m := 8 - |p| - |q| - k;
    var w := Laid(p, m, q, n);
    var v, e := w + Zeros(8 - |w|), p + Zeros(m + k) + q;
    if k > 0 && v == e {
      var y := n + Zeros(k - |n|);
      assert v[|p| + m..] == q + y && e[|p| + m..] == Zeros(k) + q;
      MovedZero(q, y);
      assert forall i :: 0 <= i < |n| ==> y[i] == n[i];
    }
  }

  lemma {:induction false} MovedZero(q: seq<nat>, y: seq<nat>)
    requires y != [] && Zeros(|y|) + q == q + y
    ensures AllZero(q) && AllZero(y)
  {
    if q == [] {
      assert q + y == y && Zeros(|y|) + q == Zeros(|y|);
    } else {
      var t := q[1..];
      assert q[0] == (q + y)[0] == 0;
      assert Zeros(|y|) + t == (Zeros(|y|) + q)[1..];
      assert t + y == (q + y)[1..];
      MovedZero(t, y);
      assert q == [0] + t;
    }
  }

  /** When an address with "::" keeps its bytes in front of a zone. */
  ghost predicate Form2Kept(ps: seq<string>, qs: seq<string>, r: string)
    requires r != ""
  {
    var sum := |ps| + |qs| + Colons(r);
    Colons(r) == 0 ||
    (AllZero(Values(qs)) &&
     if r[|r| - 1] == ':' then ps == [] || sum <= (if qs == [] then 8 else 9) || AllZero(Values(ps))
     else qs == [] || sum == 8 || AllZero(ZoneNumbers(r)))
  }

  lemma ValuesFit(fs: seq<string>)
    requires Groups(fs)
    ensures Fits(Values(fs))
  {
    ValuesBound(fs);
  }

  lemma WrittenFits(ps: seq<string>, qs: seq<string>, r: string)
    requires Groups(ps) && Groups(qs) && r != ""
    ensures Fits(Form2Written(ps, qs, r)) && Fits(Values(ps)) && Fits(Values(qs))
  {
    hide Groups, Values, Colons, ZoneNumbers;
    ValuesFit(ps);
    ValuesFit(qs);
    NumbersFitZone(r);
  }

  lemma StoredSame(w: seq<nat>, p: seq<nat>, q: seq<nat>)
    requires |w| <= 8 && |p| + |q| <= 8 && Fits(w) && Fits(p) && Fits(q)
    ensures var e := p + Zeros(8 - |p| - |q|) + q;
      Stored(w) == Bytes(e) <==> w + Zeros(8 - |w|) == e
  {
    hide Bytes;
    SameBytes(w + Zeros(8 - |w|), p + Zeros(8 - |p| - |q|) + q);
  }

  lemma {:induction false} Form2KeptIff(ps: seq<string>, qs: seq<string>, r: string)
    requires Groups(ps) && Groups(qs) && |ps| + |qs| <= 7 && r != ""
    requires r[|r| - 1] != ':' ==> |ps| + (if qs == [] then 1 else |qs|) + Colons(r) <= 8
    requires r[|r| - 1] == ':' ==> Colons(r) > 0
    ensures |Form2Written(ps, qs, r)| <= 8
    ensures Stored(Form2Written(ps, qs, r)) == Bytes(Values(ps) + Zeros(8 - |ps| - |qs|) + Values(qs)) <==>
            Form2Kept(ps, qs, r)
  {
    hide Bytes, Groups, Values, Join, Colons, ZoneNumbers, AllZero, Fits, Laid, Stored;
    var w := Form2Written(ps, qs, r);
    var p, q := Values(ps), Values(qs);
    var n, k := ZoneNumbers(r), Colons(r);
    WrittenFits(ps, qs, r);
    NoneFirst();
    StoredSame(w, p, q);
    CutShort(p, q);
    if |ps| + |qs| + k <= 8 { Moved(p, q, n, k); }
  }

  lemma NumbersFitZone(r: string)
    ensures Fits(ZoneNumbers(r))
  {
    NumbersFitBefore(State(r, false), 0, Colons(r));
  }

  /** An address with "::" and any zone: what is written, and exactly when it is what the
      address denotes. */
  lemma {:induction false} Form2ZoneIff(s: string, ps: seq<string>, qs: seq<string>, r: string)
    requires ZoneText(s, ps, qs, r) && Colons(s) < 32768 && StaysInside(s)
    ensures Accepts(s) && IsAddress(AddressPart(s))
    ensures ReadText(s) == Outcome(false, Stored(Form2Written(ps, qs, r)))
    ensures ReadText(s).address == Bytes(Expand(AddressPart(s))) <==> Form2Kept(ps, qs, r)
  {
    hide ReadText, StaysInside, Colons, Join, Stored, Accepts, Form2Written, Form2Kept, Groups, AddressPart, Bytes;
    var a := Join(ps) + "::" + Join(qs);
    assert IsForm2(a, ps, qs);
    NoPercent(a);
    AddressPartTail(a, r);
    ZoneFlag(a, r);
    ExpandForm2(ps, qs);
    Form2Zone(s, ps, qs, r);
    Form2KeptIff(ps, qs, r);
  }

  lemma ColonAtEnd(r: string)
    requires r != "" && r[|r| - 1] == ':'
    ensures Colons(r) > 0
  {
    NoColons(r);
  }

  /** The groups the reader writes for eight groups and a zone. */
  function Form1Written(fs: seq<string>, r: string): seq<nat>
    requires |fs| == 8 && r != ""
  {
    var vs, k := Values(fs), Colons(r);
    if r[|r| - 1] != ':' || k == 2 then vs else if k == 1 then vs[..7] else []
  }

  lemma {:induction false} Form1Shape(fs: seq<string>, r: string)
    requires Groups(fs) && |fs| == 8 && r != "" && r[0] == '%'
    ensures var s := Join(fs) + r;
      && Accepts(s) && AddressPart(s) == Join(fs) && IsAddress(Join(fs))
      && s != "" && s[0] != ':' && s[|s| - 1] == r[|r| - 1] && Colons(s) == 7 + Colons(r)
      && s == After(fs[..7]) + (fs[7] + r)
      && (HasDouble(s) ==> Colons(s[..FirstDouble(s) + 1]) >= 8)
  {
    hide Join, Colons, Groups, After, HasDouble, AddressPart, Short, Form2;
    var a := Join(fs);
    assert IsForm1(a, fs);
    NoPercent(a);
    AddressPartTail(a, r);
    FieldsJoin(fs);
    GroupsClean(fs);
    ColonsJoin(fs);
    ColonsConcat(a, r);
    ZoneEnds(a, r);
    assert fs[..7] + [fs[7]] == fs;
    JoinSnoc(fs[..7], fs[7]);
    Associate(After(fs[..7]), fs[7], r);
    if HasDouble(a + r) { DoubleBehind(a, r); }
  }

  lemma DoubleBehind(a: string, r: string)
    requires HasDouble(a + r) && !HasDouble(a) && r != "" && r[0] == '%'
    ensures Colons((a + r)[..FirstDouble(a + r) + 1]) >= Colons(a) + 1
  {
    hide Colons;
    var s, d := a + r, FirstDouble(a + r);
    assert d < |a| ==> !DoubleAt(a, d);
    var t := r[..d + 1 - |a|];
    assert s[..d + 1] == a + t && t[d - |a|] == ':';
    ColonsConcat(a, t);
    NoColons(t);
  }

  lemma EightGroups(fs: seq<string>, r: string, p: nat)
    requires Groups(fs) && |fs| == 8 && Stop(r)
    ensures TakeAfter(State(After(fs[..7]) + (fs[7] + r), false), 0, 7).groups == Values(fs)[..7]
    ensures p >= 8 ==> Values(fs) <= TakeAfter(State(After(fs[..7]) + (fs[7] + r), false), 0, p).groups
  {
    hide TakeHex, TakeChar, TakeAfter, Values, After, GroupValue;
    var gs, f := fs[..7], fs[7];
    assert Groups(gs) && Group(f) by {
      assert forall g :: g in gs ==> g in fs;
      assert f in fs;
    }
    TakeAfterAll(gs, f + r, 0);
    ValuesSplit(fs, 7);
    if p >= 8 {
      TakeAfterFields(gs, f + r, 0, p - 7);
      TakeHexField(f, r, LastValue(gs, 0));
      TakeAfterMore(State(f + r, false), LastValue(gs, 0), p - 7);
    }
  }

  lemma ValuesSplit(fs: seq<string>, n: nat)
    requires n < |fs|
    ensures Values(fs[..n]) == Values(fs)[..n] && Values(fs)[n] == GroupValue(fs[n])
  {
  }

  lemma {:induction false} Form1End(fs: seq<string>, s: string, r: string)
    requires Groups(fs) && |fs| == 8 && r != "" && r[0] == '%' && r[|r| - 1] == ':'
    requires s == Join(fs) + r == After(fs[..7]) + (fs[7] + r)
    requires s[0] != ':' && s[|s| - 1] == ':' && 8 <= Colons(s) == 7 + Colons(r) < 32768
    ensures StaysInside(s) && ReadText(s).address == Stored(Form1Written(fs, r))
  {
    hide ReadText, StaysInside, ReadTrailing, ReadPlain, Colons, Join, After, Stored, Values, Groups, Written, HasDouble, ReadLeading, Before;
    ReadColons(s);
    if Colons(r) == 1 {
      TrailingSeven(fs, r);
    } else if Colons(r) == 2 {
      PlainEight(fs, r);
    } else {
      var z: nat :| z > 8 && ReadText(s) == ReadTrailing(s, z);
      TrailingNone(s, z);
    }
  }

  lemma PlainEight(fs: seq<string>, r: string)
    requires Groups(fs) && |fs| == 8 && Stop(r)
    ensures ReadPlain(Join(fs) + r).address == Stored(Values(fs))
  {
    hide Written, Stored, Join, ReadPlain;
    PlainGroups(fs, r);
    WrittenStored(Values(fs), 0);
    assert Values(fs) + Repeat(LastValue(fs, 0), 0) == Values(fs);
  }

  lemma TrailingSeven(fs: seq<string>, r: string)
    requires Groups(fs) && |fs| == 8 && Stop(r)
    ensures ReadTrailing(After(fs[..7]) + (fs[7] + r), 1).address == Stored(Values(fs)[..7])
  {
    hide TakeAfter, Written, TakeChar, Stored, After, Values, Groups;
    EightGroups(fs, r, 0);
    WrittenStored(Values(fs)[..7], 0);
  }

  lemma {:induction false} Form1Inner(fs: seq<string>, s: string, r: string)
    requires Groups(fs) && |fs| == 8 && r != "" && r[0] == '%' && r[|r| - 1] != ':'
    requires s == Join(fs) + r == After(fs[..7]) + (fs[7] + r)
    requires s[0] != ':' && s[|s| - 1] != ':' && Colons(s) < 32768 && StaysInside(s)
    requires HasDouble(s) ==> Colons(s) > 8 && Colons(s[..FirstDouble(s) + 1]) >= 8
    ensures ReadText(s).address == Stored(Values(fs))
  {
    hide ReadText, StaysInside, ReadMiddle, ReadPlain, MiddleInside, BlockOf, Colons, Join, After, Stored, Values, Groups, Written, TakeAfter;
    if HasDouble(s) {
      ColonsAround(s, FirstDouble(s));
      var p, z := Colons(s[..FirstDouble(s) + 1]), 32776 - Colons(s);
      LargeMiddle(s, p, z);
      EightGroups(fs, r, p);
      MiddleStuck(s, p, z);
      assert TakeAfter(State(s, false), 0, p).groups == Values(fs);
      WrittenStored(Values(fs), 0);
    } else {
      ReadColons(s);
      PlainEight(fs, r);
    }
  }

  lemma LargeMiddle(s: string, p: nat, z: nat)
    requires HasDouble(s) && 8 < Colons(s) < 32768 && s[0] != ':' && s[|s| - 1] != ':' && StaysInside(s)
    requires p == Colons(s[..FirstDouble(s) + 1]) < Colons(s) && z == 32776 - Colons(s)
    ensures MiddleInside(s, p, z) && ReadText(s) == ReadMiddle(s, p, z)
  {
    hide BlockOf, Colons, ReadMiddle, MiddleInside, ReadLeading, ReadTrailing, ReadPlain;
    BlockSizesModulo(s);
    assert BlockOf(s) == Middle(2 * p, 2 * z);
  }

  lemma MiddleStuck(s: string, p: nat, z: nat)
    requires MiddleInside(s, p, z) && z > 8
    ensures var gs := TakeAfter(State(s, false), 0, p).groups;
      |gs| <= 8 && ReadMiddle(s, p, z) == Written(gs, false)
  {
    hide TakeAfter, Written;
  }

  /** Eight groups and any zone: what is written, and exactly when it is the address. */
  lemma {:induction false} Form1ZoneIff(fs: seq<string>, r: string)
    requires Groups(fs) && |fs| == 8 && r != "" && r[0] == '%'
    requires Colons(r) < 32761 && StaysInside(Join(fs) + r)
    ensures var s := Join(fs) + r;
      && Accepts(s)
      && ReadText(s) == Outcome(false, Stored(Form1Written(fs, r)))
      && (ReadText(s).address == Bytes(Expand(Join(fs))) <==>
          || r[|r| - 1] != ':' || Colons(r) == 2
          || (Colons(r) == 1 && Values(fs)[7] == 0) || AllZero(Values(fs)))
  {
    hide ReadText, StaysInside, Colons, Join, After, Stored, Accepts, HasDouble, Groups, Values, Bytes, AddressPart, IsAddress;
    var s := Join(fs) + r;
    Form1Shape(fs, r);
    ZoneFlag(Join(fs), r);
    ExpandForm1(fs);
    if r[|r| - 1] == ':' {
      ColonAtEnd(r);
      Form1End(fs, s, r);
    } else {
      DoubleColons(s);
      Form1Inner(fs, s, r);
    }
    Form1Same(fs, r);
  }

  lemma DoubleColons(s: string)
    ensures HasDouble(s) ==> Colons(s[..FirstDouble(s) + 1]) < Colons(s)
  {
    if HasDouble(s) { ColonsAround(s, FirstDouble(s)); }
  }

  lemma Form1Same(fs: seq<string>, r: string)
    requires Groups(fs) && |fs| == 8 && r != "" && (r[|r| - 1] == ':' ==> Colons(r) > 0)
    ensures Stored(Form1Written(fs, r)) == Bytes(Values(fs)) <==>
      || r[|r| - 1] != ':' || Colons(r) == 2
      || (Colons(r) == 1 && Values(fs)[7] == 0) || AllZero(Values(fs))
  {
    hide Colons, Bytes, Values, AllZero, Stored;
    ValuesFit(fs);
    StoredEight(Values(fs));
  }

  lemma StoredEight(vs: seq<nat>)
    requires |vs| == 8 && Fits(vs)
    ensures Stored(vs) == Bytes(vs)
    ensures Stored(vs[..7]) == Bytes(vs) <==> vs[7] == 0
    ensures Stored([]) == Bytes(vs) <==> AllZero(vs)
    ensures AllZero(vs) ==> vs[7] == 0
  {
    hide Bytes, AllZero, Fits;
    CutEight(vs);
    FitsEight(vs);
    SameBytes(vs[..7] + Zeros(1), vs);
    SameBytes([] + Zeros(8), vs);
  }

  lemma FitsEight(vs: seq<nat>)
    requires |vs| == 8 && Fits(vs)
    ensures Fits(vs[..7] + Zeros(1)) && Fits([] + Zeros(8)) && vs + Zeros(0) == vs
  {
  }

  lemma CutEight(vs: seq<nat>)
    requires |vs| == 8
    ensures vs[..7] + Zeros(1) == vs <==> vs[7] == 0
    ensures [] + Zeros(8) == vs <==> AllZero(vs)
    ensures AllZero(vs) ==> vs[7] == 0
  {
    assert vs == vs[..7] + [vs[7]];
    assert vs[7] == 0 ==> Zeros(1) == [vs[7]];
  }

  // ----- a zone of groups -----

  lemma {:induction false} BeforeConcat(fs: seq<string>, gs: seq<string>)
    ensures Before(fs + gs) == Before(fs) + Before(gs)
  {
    if fs == [] {
      assert fs + gs == gs;
    } else {
      assert (fs + gs)[1..] == fs[1..] + gs;
      BeforeConcat(fs[1..], gs);
    }
  }

  /** The numbers of a zone of groups: all but the last. */
  lemma {:induction false} NumbersOfGroups(zs: seq<string>)
    requires Groups(zs) && zs != []
    ensures var r := "%" + Join(zs);
      Colons(r) == |zs| - 1 && r[|r| - 1] != ':' && ZoneNumbers(r) == Values(zs[..|zs| - 1])
  {
    hide Join, Colons, TakeBefore, Values;
    FieldsJoin(zs);
    GroupsClean(zs);
    ColonsJoin(zs);
    ColonsConcat("%", Join(zs));
    NoColons("%");
    SameSeparator(Join(zs), 0, |zs| - 1);
    GroupsBehind(zs, |zs| - 1);
  }

  lemma {:induction false} GroupsBehind(zs: seq<string>, k: nat)
    requires Groups(zs) && k < |zs|
    ensures TakeBefore(State(":" + Join(zs), false), 0, k).groups == Values(zs[..k])
  {
    hide TakeBefore, Join, Before, Values, Stop;
    var fs, gs := zs[..k], zs[k..];
    assert zs == fs + gs && Groups(fs);
    BeforeConcat(fs, gs);
    JoinBefore(zs);
    Empty2(Before(gs));
    StopEnd();
    BeforeStops(gs, "");
    TakeBeforeAll(fs, Before(gs), 0);
  }

  lemma StopEnd()
    ensures Stop("")
  {
  }

  lemma Empty2(x: string)
    ensures x + "" == x
  {
  }

  /** Any character may stand where a colon is expected. */
  lemma SameSeparator(x: string, v: nat, n: nat)
    ensures TakeBefore(State("%" + x, false), v, n).groups == TakeBefore(State(":" + x, false), v, n).groups
  {
    hide TakeHex;
    assert ("%" + x)[1..] == x == (":" + x)[1..];
    if n > 0 {
      assert TakeChar(State("%" + x, false)) == TakeChar(State(":" + x, false));
    }
  }

  /** A zone of groups moves the second part of an address to the left and takes its place. */
  lemma {:induction false} ZoneOfGroups(ps: seq<string>, qs: seq<string>, zs: seq<string>)
    requires Groups(ps) && Groups(qs) && Groups(zs) && qs != [] && zs != []
    requires |ps| + |qs| + |zs| <= 8
    ensures var s := Join(ps) + "::" + Join(qs) + ("%" + Join(zs)); var n := |zs| - 1;
      && Accepts(s) && StaysInside(s)
      && ReadText(s) == Outcome(false,
           Bytes(Values(ps) + Zeros(8 - |ps| - |qs| - n) + Values(qs) + Values(zs[..n])))
  {
    hide ReadText, StaysInside, Colons, Join, Accepts, Values, Groups, Bytes, Form2Kept, ZoneNumbers, IsAddress, AddressPart, TextShape, Form2Written, Stored;
    var r := "%" + Join(zs);
    var s := Join(ps) + "::" + Join(qs) + r;
    NumbersOfGroups(zs);
    Shape(s, ps, qs, r);
    ShapeInside(s, ps, qs, r);
    Form2ZoneIff(s, ps, qs, r);
    WrittenEight(ps, qs, r);
  }

  lemma ShapeInside(s: string, ps: seq<string>, qs: seq<string>, r: string)
    requires ZoneText(s, ps, qs, r) && TextShape(s, ps, qs, r)
    requires qs != [] && |ps| + |qs| + Colons(r) <= 8
    ensures StaysInside(s) && Colons(s) < 32768
  {
    hide StaysInside, Colons, HasDouble, Join, Groups, Accepts;
    Form2Inside(ps, qs, r);
  }

  lemma WrittenEight(ps: seq<string>, qs: seq<string>, r: string)
    requires r != "" && r[|r| - 1] != ':' && qs != [] && |ps| + |qs| + Colons(r) < 8
    requires |ZoneNumbers(r)| == Colons(r)
    ensures Stored(Form2Written(ps, qs, r)) ==
      Bytes(Values(ps) + Zeros(8 - |ps| - |qs| - Colons(r)) + Values(qs) + ZoneNumbers(r))
  {
    hide Bytes, Values, ZoneNumbers, Colons;
    LaidEight(Values(ps), Zeros(8 - |ps| - |qs| - Colons(r)), Values(qs), ZoneNumbers(r));
  }

  lemma LaidEight(p: seq<nat>, z: seq<nat>, q: seq<nat>, n: seq<nat>)
    ensures p + z + (q + n) + Zeros(0) == p + z + q + n
  {
  }

  /** "1::2%a:b" is stored as 1:0:0:0:0:0:2:a. */
  lemma ZoneExample()
    ensures Accepts("1::2%a:b") && StaysInside("1::2%a:b")
    ensures ReadText("1::2%a:b") == Outcome(false, Bytes([1, 0, 0, 0, 0, 0, 2, 10]))
  {
    hide ReadText, StaysInside, Accepts, Join, Bytes, Values, GroupValue;
    var zs := ["a", "b"];
    OneGroup("1");
    OneGroup("2");
    TwoGroups();
    ZoneOfGroups(["1"], ["2"], zs);
    assert "1" + "::" + "2" + ("%" + "a:b") == "1::2%a:b";
    assert [1] + Zeros(5) + [2] + [10] == [1, 0, 0, 0, 0, 0, 2, 10];
  }

  lemma TwoGroups()
    ensures var zs := ["a", "b"]; Groups(zs) && Join(zs) == "a:b" && Values(zs[..1]) == [10]
    ensures Values(["1"]) == [1] && Values(["2"]) == [2]
  {
    var zs := ["a", "b"];
    assert zs[1..][1..] == [];
    assert Before(zs[1..]) == ":" + "b" + Before([]) == ":b";
    assert GroupValue("a") == 10 && GroupValue("1") == 1 && GroupValue("2") == 2;
  }
}
