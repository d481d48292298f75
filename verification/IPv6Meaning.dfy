/** The reader's function of the text agrees with the grammar: what it returns and writes
    for every address, alone or with a zone without a colon, and for the short lists the gate
    lets by. */
module IPv6Meaning {
  import opened Text
  import opened Digits
  import opened CharStream
  import opened IPv6Grammar
  import opened IPv6Gate
  import opened IPv6Text
  import opened Locators

  /** The end of the text, or a zone without colons. */
  predicate Tail(r: string) {
    r == "" || (r[0] == '%' && ':' !in r)
  }

  // ----- reading fields -----

  /** What stands behind a field: the end, a colon, or a zone. */
  predicate Stop(r: string) {
    r == "" || r[0] == ':' || r[0] == '%'
  }

  lemma TakeHexField(f: string, r: string, v: nat)
    requires Group(f) && Stop(r)
    ensures TakeHex(State(f + r, false), v) == (State(r, false), GroupValue(f))
    ensures GroupValue(f) < 65536
  {
    hide TakeDigits, SkipSpace, SkipSign, SkipPrefix, GroupValue, Group;
    GroupStart(f, r);
    TakeHexRun(f, r);
  }

  lemma GroupStart(f: string, r: string)
    requires Group(f) && Stop(r)
    ensures var x := f + r;
      x != "" && SkipSpace(x) == x && SkipPrefix(SkipSign(x)) == x && x[0] != '-'
  {
    hide SkipSpace, SkipSign, SkipPrefix;
    var x := f + r;
    assert f[0] in f && x[0] == f[0];
    assert |x| > 1 ==> x[1] == if |f| > 1 then f[1] else r[0];
    assert |f| > 1 ==> f[1] in f;
    SkipNothing(x);
  }

  lemma TakeHexRun(f: string, r: string)
    requires Group(f) && Stop(r)
    ensures TakeDigits(f + r, false, Hexadecimal, false) == (State(r, false), GroupValue(f))
    ensures GroupValue(f) < 65536
  {
    HexRunField(f, r);
    assert (f + r)[..|f|] == f && (f + r)[|f|..] == r;
    ValueBound(f);
  }

  /** A number expected before another character is read as 0 and the stream fails. */
  lemma TakeNoField(x: string, v: nat)
    requires x != "" && Stop(x)
    ensures TakeBefore(State(":" + x, false), v, 1) == Taken([0], State(x, true), 0)
  {
    TakeNoHex(x, v);
    hide TakeHex, TakeChar;
    TakeColon(x);
    assert TakeBefore(State(x, true), 0, 0) == Taken([], State(x, true), 0);
  }

  lemma TakeNoHex(x: string, v: nat)
    requires x != "" && Stop(x)
    ensures TakeHex(State(x, false), v) == (State(x, true), 0)
  {
  }

  function LastValue(fs: seq<string>, v: nat): nat {
    if fs == [] then v else GroupValue(fs[|fs| - 1])
  }

  lemma LastCons(fs: seq<string>, v: nat)
    ensures LastValue(fs, v) == if fs == [] then v else LastValue(fs[1..], GroupValue(fs[0]))
  {
  }

  lemma ValuesCons(fs: seq<string>)
    requires fs != []
    ensures Values(fs) == [GroupValue(fs[0])] + Values(fs[1..])
  {
  }

  lemma BeforeCons(fs: seq<string>, r: string)
    requires fs != []
    ensures Before(fs) + r == ":" + (fs[0] + (Before(fs[1..]) + r))
    ensures After(fs) + r == fs[0] + (":" + (After(fs[1..]) + r))
  {
    var f, b, a := fs[0], Before(fs[1..]), After(fs[1..]);
    Associate(":" + f, b, r);
    Associate(":", f, b + r);
    Associate(f + ":", a, r);
    Associate(f, ":", a + r);
  }

  lemma Associate(x: string, y: string, z: string)
    ensures (x + y) + z == x + (y + z)
  {
  }

  lemma BeforeStops(fs: seq<string>, r: string)
    requires Stop(r)
    ensures Stop(Before(fs) + r)
  {
  }

  lemma GroupsCons(fs: seq<string>)
    requires Groups(fs) && fs != []
    ensures Group(fs[0]) && Groups(fs[1..])
  {
    assert fs[0] in fs;
    assert forall g :: g in fs[1..] ==> g in fs;
  }

  lemma TakeBeforeMore(s: State, v: nat, n: nat)
    requires n > 0
    ensures var (u, w) := TakeHex(TakeChar(s), v);
      w < 65536 ==> TakeBefore(s, v, n) == TakeBefore(u, w, n - 1).Prepend([w])
  {
  }

  lemma TakeAfterMore(s: State, v: nat, n: nat)
    requires n > 0
    ensures var (u, w) := TakeHex(s, v);
      w < 65536 ==> TakeAfter(s, v, n) == TakeAfter(TakeChar(u), w, n - 1).Prepend([w])
  {
  }

  lemma {:induction false} TakeBeforeFields(fs: seq<string>, r: string, v: nat, m: nat)
    requires Groups(fs) && Stop(r)
    ensures TakeBefore(State(Before(fs) + r, false), v, |fs| + m)
         == TakeBefore(State(r, false), LastValue(fs, v), m).Prepend(Values(fs))
  {
    hide TakeHex, TakeChar, GroupValue, TakeBefore, Before, Groups, Values, LastValue;
    LastCons(fs, v);
    var last := TakeBefore(State(r, false), LastValue(fs, v), m);
    if fs == [] {
      BeforeNone(r);
      assert [] + last.groups == last.groups;
    } else {
      var f, t := fs[0], fs[1..];
      GroupsCons(fs);
      var rest := Before(t) + r;
      BeforeStops(t, r);
      BeforeCons(fs, r);
      TakeColon(f + rest);
      TakeHexField(f, rest, v);
      TakeBeforeMore(State(":" + (f + rest), false), v, |fs| + m);
      TakeBeforeFields(t, r, GroupValue(f), m);
      ValuesCons(fs);
      last.PrependTwice(Values(t), [GroupValue(f)]);
    }
  }

  lemma BeforeNone(r: string)
    ensures Before([]) + r == r && After([]) + r == r && Values([]) == []
  {
  }

  lemma {:induction false} TakeBeforeAll(fs: seq<string>, r: string, v: nat)
    requires Groups(fs) && Stop(r)
    ensures TakeBefore(State(Before(fs) + r, false), v, |fs|)
         == Taken(Values(fs), State(r, false), LastValue(fs, v))
  {
    hide TakeBefore, Before, Values;
    TakeBeforeFields(fs, r, v, 0);
    TakeNone(State(r, false), LastValue(fs, v), Values(fs));
  }

  lemma {:induction false} TakeAfterFields(fs: seq<string>, r: string, v: nat, m: nat)
    requires Groups(fs)
    ensures TakeAfter(State(After(fs) + r, false), v, |fs| + m)
         == TakeAfter(State(r, false), LastValue(fs, v), m).Prepend(Values(fs))
  {
    hide TakeHex, TakeChar, GroupValue, TakeAfter, After, Groups, Values, LastValue;
    LastCons(fs, v);
    var last := TakeAfter(State(r, false), LastValue(fs, v), m);
    if fs == [] {
      BeforeNone(r);
      assert [] + last.groups == last.groups;
    } else {
      var f, t := fs[0], fs[1..];
      GroupsCons(fs);
      var rest := After(t) + r;
      BeforeCons(fs, r);
      TakeHexField(f, ":" + rest, v);
      TakeColon(rest);
      TakeAfterMore(State(f + (":" + rest), false), v, |fs| + m);
      TakeAfterFields(t, r, GroupValue(f), m);
      ValuesCons(fs);
      last.PrependTwice(Values(t), [GroupValue(f)]);
    }
  }

  lemma {:induction false} TakeAfterAll(fs: seq<string>, r: string, v: nat)
    requires Groups(fs)
    ensures TakeAfter(State(After(fs) + r, false), v, |fs|)
         == Taken(Values(fs), State(r, false), LastValue(fs, v))
  {
    hide TakeAfter, After, Values;
    TakeAfterFields(fs, r, v, 0);
    TakeNone(State(r, false), LastValue(fs, v), Values(fs));
  }

  function Repeat(v: nat, n: nat): (vs: seq<nat>)
    ensures |vs| == n
  {
    seq(n, _ => v)
  }

  lemma AtEnd(failed: bool, v: nat)
    ensures TakeHex(TakeChar(State("", failed)), v) == (State("", true), v)
  {
  }

  /** Reading on at the end of the text: the number variable keeps its last value. */
  lemma {:induction false} TakeBeforeEnd(failed: bool, v: nat, m: nat)
    requires v < 65536
    ensures TakeBefore(State("", failed), v, m) == Taken(Repeat(v, m), State("", failed || m > 0), v)
    decreases m
  {
    hide TakeHex, TakeChar;
    if m > 0 {
      TakeBeforeEnd(true, v, m - 1);
      AtEnd(failed, v);
      assert [v] + Repeat(v, m - 1) == Repeat(v, m);
    }
  }

  // ----- where the colon arithmetic finds the zero block -----

  lemma DoubleZone(a: string, r: string)
    requires Tail(r)
    ensures forall i :: DoubleAt(a + r, i) <==> DoubleAt(a, i)
    ensures FirstDouble(a + r) == FirstDouble(a)
    ensures Colons(a + r) == Colons(a)
  {
    ColonsConcat(a, r);
    NoColons(r);
    forall i ensures DoubleAt(a + r, i) <==> DoubleAt(a, i) {
      assert i + 1 >= |a| && i + 1 < |a + r| ==> (a + r)[i + 1] in r;
    }
    assert FirstDouble(a) != -1 ==> DoubleAt(a + r, FirstDouble(a));
    assert FirstDouble(a + r) != -1 ==> DoubleAt(a, FirstDouble(a + r));
  }

  lemma Ends(s: string, a: string, r: string)
    requires s == a + r && a != "" && Tail(r)
    ensures s != "" && s[0] == a[0]
    ensures s[|s| - 1] == ':' <==> r == "" && a[|a| - 1] == ':'
  {
    assert r != "" ==> s[|s| - 1] == r[|r| - 1];
  }

  /** Colons, first "::" and both ends of a form-2 text with a tail. */
  lemma Form2Shape(ps: seq<string>, qs: seq<string>, r: string)
    requires Groups(ps) && Groups(qs) && |ps| + |qs| <= 7 && Tail(r)
    ensures var s := Join(ps) + "::" + Join(qs) + r;
      && FirstDouble(s) == |Join(ps)|
      && Colons(s) == (if ps == [] then 0 else |ps| - 1) + 2 + (if qs == [] then 0 else |qs| - 1)
      && FewColons(s)
      && (s[0] == ':' <==> ps == [])
      && (s[|s| - 1] == ':' <==> qs == [] && r == "")
  {
    var a := Join(ps) + "::" + Join(qs);
    DoubleForm2(ps, qs);
    assert DoubleAt(a, |Join(ps)|);
    DoubleZone(a, r);
    ChecksCompleteDouble(a, ps, qs);
    GroupsClean(ps);
    GroupsClean(qs);
    ColonsJoin(ps);
    ColonsJoin(qs);
    SplitDouble(Join(ps), Join(qs));
    FieldsJoin(ps);
    FieldsJoin(qs);
    Ends(a + r, a, r);
    assert ps != [] ==> a[0] == Join(ps)[0];
    assert qs != [] ==> a[|a| - 1] == Join(qs)[|Join(qs)| - 1];
  }

  /** The block of a text with few colons, from its ends, its colons and its first "::". */
  lemma BlockFew(s: string)
    requires FewColons(s)
    ensures StaysInside(s)
    ensures var c, front, back, d := Colons(s), s[0] == ':', s[|s| - 1] == ':', FirstDouble(s);
      BlockOf(s) ==
      if front then (if back then Leading(16) else Leading((9 - c) * 2))
      else if back then Trailing((9 - c) * 2)
      else if d == -1 || c == 8 then NoBlock
      else Middle(2 * Colons(s[..d + 1]), (8 - c) * 2)
  {
    hide BlockOf, MiddleInside, Colons, FirstDouble;
    if s[0] == ':' || s[|s| - 1] == ':' { BlockEdge(s); } else { BlockInner(s); }
    match BlockOf(s) {
      case Middle(position, bytes) => MiddleFits(s, position / 2, bytes / 2);
      case _ =>
    }
  }

  lemma BlockEdge(s: string)
    requires FewColons(s) && (s[0] == ':' || s[|s| - 1] == ':')
    ensures var z := (9 - Colons(s)) * 2;
      BlockOf(s) == if s[0] != ':' then Trailing(z) else if s[|s| - 1] == ':' then Leading(16) else Leading(z)
  {
    hide U16, Colons, FirstDouble;
    SmallSizes(Colons(s));
  }

  lemma BlockInner(s: string)
    requires FewColons(s) && s[0] != ':' && s[|s| - 1] != ':'
    ensures var c, d := Colons(s), FirstDouble(s);
      if d == -1 || c == 8 then BlockOf(s) == NoBlock
      else BlockOf(s) == Middle(2 * Colons(s[..d + 1]), (8 - c) * 2)
  {
    hide U16, Colons;
    var d := FirstDouble(s);
    SmallSizes(Colons(s));
    if d != -1 {
      ColonsAround(s, d);
      SmallSizes(Colons(s[..d + 1]));
    }
  }

  lemma SmallSizes(c: nat)
    requires c <= 8
    ensures U16(c) == c && U16(2 * c) == 2 * c
    ensures c >= 2 ==> U16((7 - (c - 2)) * 2) == (9 - c) * 2 && U16((7 - (c - 1)) * 2) == (8 - c) * 2
  {
  }

  lemma MiddleFits(s: string, p: nat, z: nat)
    requires p + z <= 8
    ensures MiddleInside(s, p, z)
  {
  }

  // ----- the branches -----

  lemma {:induction false} LeadingThenGroups(qs: seq<string>, r: string)
    requires Groups(qs) && 1 <= |qs| <= 7 && Tail(r)
    ensures ReadLeading(":" + (Before(qs) + r), 8 - |qs|) == Written(Zeros(8 - |qs|) + Values(qs), r == "")
  {
    hide TakeBefore, TakeHex, TakeChar, Written, Before, Values, Zeros;
    TakeColon(Before(qs) + r);
    TakeBeforeAll(qs, r, 0);
  }

  lemma {:induction false} LeadingThenZone(r: string)
    requires Tail(r) && r != ""
    ensures ReadLeading(":" + (":" + r), 7) == Written(Zeros(8), false)
  {
    hide TakeBefore, TakeHex, TakeChar, Written;
    TakeColon(":" + r);
    TakeNoField(r, 0);
    assert Zeros(7) + [0] == Zeros(8);
  }

  lemma {:induction false} ReadForm2Leading(qs: seq<string>, r: string)
    requires Groups(qs) && |qs| <= 7 && Tail(r)
    ensures var s := "::" + Join(qs) + r;
      StaysInside(s) && ReadText(s) == Written(Zeros(8 - |qs|) + Values(qs), r == "")
  {
    hide ReadLeading, Written, TakeChar, BlockOf, StaysInside;
    var s := "::" + Join(qs) + r;
    Form2Shape([], qs, r);
    assert Join([]) + "::" + Join(qs) + r == s;
    BlockFew(s);
    if qs != [] {
      JoinBefore(qs);
      assert s == ":" + (Before(qs) + r);
      LeadingThenGroups(qs, r);
    } else if r == "" {
      assert s == ":" + (Before(qs) + ":");
      LeadingAll();
      assert Zeros(8) + Values(qs) == Zeros(8);
    } else {
      assert s == ":" + (":" + r);
      LeadingThenZone(r);
      assert Zeros(8) + Values(qs) == Zeros(8);
    }
  }

  lemma LeadingAll()
    ensures ReadLeading("::", 8) == Written(Zeros(8), true)
  {
    hide TakeHex, TakeChar, Written;
    TakeColon(":");
    TakeColon("");
    assert ":" + "" == ":" && ":" + ":" == "::";
    assert Zeros(8) + [] == Zeros(8);
  }

  lemma {:induction false} ReadForm2Middle(ps: seq<string>, qs: seq<string>, r: string)
    requires Groups(ps) && Groups(qs) && |ps| + |qs| <= 7 && Tail(r)
    requires ps != [] && qs != []
    ensures var s := Join(ps) + "::" + Join(qs) + r;
      StaysInside(s) && ReadText(s) == Written(Values(ps) + Zeros(8 - |ps| - |qs|) + Values(qs), r == "")
  {
    hide ReadMiddle, Written, Join, After, Before, Values, Zeros, BlockOf, StaysInside;
    var s := Join(ps) + "::" + Join(qs) + r;
    Form2Shape(ps, qs, r);
    JoinAfter(ps);
    JoinBefore(qs);
    Regroup(Join(ps), Join(qs), r);
    BlockMiddle(s, ps, Before(qs) + r);
    MiddleGroups(ps, qs, r);
  }

  lemma Regroup(x: string, y: string, r: string)
    ensures x + "::" + y + r == (x + ":") + ((":" + y) + r)
    ensures x + "::" + r == (x + ":") + (":" + r)
  {
    assert "::" == ":" + ":";
  }

  lemma BlockMiddle(s: string, ps: seq<string>, rest: string)
    requires ps != [] && Groups(ps) && FewColons(s) && Colons(s) < 8
    requires s[0] != ':' && s[|s| - 1] != ':' && FirstDouble(s) == |Join(ps)|
    requires s == After(ps) + rest
    ensures StaysInside(s) && BlockOf(s) == Middle(2 * |ps|, (8 - Colons(s)) * 2)
  {
    hide Join, Before, After, BlockOf, StaysInside;
    BlockFew(s);
    JoinAfter(ps);
    assert s[..|Join(ps)| + 1] == After(ps);
    BeforeAfter(ps);
    GroupsClean(ps);
    ColonsBefore(ps);
    ColonsConcat(Before(ps), ":");
    ColonsConcat(":", After(ps));
  }

  lemma {:induction false} MiddleGroups(ps: seq<string>, qs: seq<string>, r: string)
    requires Groups(ps) && Groups(qs) && |ps| + |qs| <= 7 && Tail(r)
    ensures ReadMiddle(After(ps) + (Before(qs) + r), |ps|, 8 - |ps| - |qs|)
         == Written(Values(ps) + Zeros(8 - |ps| - |qs|) + Values(qs), r == "")
  {
    hide TakeBefore, TakeAfter, TakeHex, TakeChar, Written, Before, After, Values, Zeros;
    TakeAfterAll(ps, Before(qs) + r, 0);
    TakeBeforeAll(qs, r, LastValue(ps, 0));
  }

  lemma JoinNone()
    ensures Join([]) == ""
  {
  }

  lemma TrailingShape(ps: seq<string>, r: string)
    requires Groups(ps) && 1 <= |ps| <= 7 && Tail(r)
    ensures var s := Join(ps) + "::" + r;
      && FirstDouble(s) == |Join(ps)| && Colons(s) == |ps| + 1 && FewColons(s)
      && s[0] != ':' && (s[|s| - 1] == ':' <==> r == "")
  {
    hide Join, Colons;
    Form2Shape(ps, [], r);
    JoinNone();
    assert Join(ps) + "::" + "" + r == Join(ps) + "::" + r;
  }

  lemma {:induction false} ReadForm2Trailing(ps: seq<string>, r: string)
    requires Groups(ps) && 1 <= |ps| <= 7 && Tail(r)
    ensures var s := Join(ps) + "::" + r;
      StaysInside(s) && ReadText(s) == Written(Values(ps) + Zeros(8 - |ps|), r == "")
  {
    hide ReadText, StaysInside, Written, Join, Values, Zeros, BlockOf, Groups;
    var s := Join(ps) + "::" + r;
    TrailingShape(ps, r);
    BlockFew(s);
    if r == "" {
      TrailingEnd(ps, s);
    } else if |ps| < 7 {
      JoinAfter(ps);
      Regroup(Join(ps), "", r);
      TrailingInner(ps, s, r);
    } else {
      PlainZone(ps, r);
      BranchNone(s);
    }
  }

  lemma BranchNone(s: string)
    requires s != "" && BlockOf(s) == NoBlock
    ensures StaysInside(s) && ReadText(s) == ReadPlain(s)
  {
  }

  lemma TrailingEnd(ps: seq<string>, s: string)
    requires Groups(ps) && 1 <= |ps| <= 7 && s == Join(ps) + "::" + "" && BlockOf(s) == Trailing((8 - |ps|) * 2)
    ensures StaysInside(s) && ReadText(s) == Written(Values(ps) + Zeros(8 - |ps|), true)
  {
    hide ReadTrailing, Written, Join, After, Values, Zeros, BlockOf, Groups;
    JoinAfter(ps);
    Regroup(Join(ps), "", "");
    TrailingGroups(ps);
    assert ":" + "" == ":";
  }

  lemma TrailingInner(ps: seq<string>, s: string, r: string)
    requires Groups(ps) && 1 <= |ps| <= 6 && Tail(r) && r != "" && s == After(ps) + (":" + r)
    requires FewColons(s) && Colons(s) == |ps| + 1 && FirstDouble(s) == |Join(ps)|
    requires s[0] != ':' && s[|s| - 1] != ':'
    ensures StaysInside(s) && ReadText(s) == Written(Values(ps) + Zeros(8 - |ps|), false)
  {
    hide ReadText, ReadMiddle, MiddleInside, TakeAfter, Written, Join, After, Values, Zeros, BlockOf, Groups, StaysInside, Colons, FirstDouble, Tail, FewColons;
    BlockMiddle(s, ps, ":" + r);
    BranchMiddle(s, |ps|, 7 - |ps|);
    MiddleZone(ps, r);
  }

  lemma BranchMiddle(s: string, p: nat, z: nat)
    requires s != "" && BlockOf(s) == Middle(2 * p, 2 * z) && StaysInside(s)
    ensures MiddleInside(s, p, z) && ReadText(s) == ReadMiddle(s, p, z)
  {
    hide MiddleInside, ReadMiddle, BlockOf;
  }

  lemma {:induction false} TrailingGroups(ps: seq<string>)
    requires Groups(ps) && |ps| <= 7
    ensures ReadTrailing(After(ps) + ":", 8 - |ps|) == Written(Values(ps) + Zeros(8 - |ps|), true)
  {
    hide TakeAfter, TakeHex, TakeChar, Written, After, Values;
    TakeAfterAll(ps, ":", 0);
    TakeColon("");
    assert ":" + "" == ":";
    WrittenPadded(Values(ps), true);
  }

  lemma WrittenPadded(vs: seq<nat>, ok: bool)
    requires |vs| <= 8
    ensures Written(vs, ok) == Written(vs + Zeros(8 - |vs|), ok)
  {
    var all := vs + Zeros(8 - |vs|);
    assert all + Zeros(0) == all;
  }

  /** The zone makes a "::" at the end look like one in the middle; the group expected
      behind it is read as zero. */
  lemma {:induction false} MiddleZone(ps: seq<string>, r: string)
    requires Groups(ps) && 1 <= |ps| <= 6 && Tail(r) && r != ""
    ensures ReadMiddle(After(ps) + (":" + r), |ps|, 7 - |ps|)
         == Written(Values(ps) + Zeros(8 - |ps|), false)
  {
    hide TakeBefore, TakeAfter, TakeHex, TakeChar, Written, After, Values;
    TakeAfterAll(ps, ":" + r, 0);
    TakeNoField(r, LastValue(ps, 0));
    assert Values(ps) + Zeros(7 - |ps|) + [0] == Values(ps) + Zeros(8 - |ps|);
  }

  /** After seven groups it even hides the block: the eighth group is read as zero. */
  lemma {:induction false} PlainZone(ps: seq<string>, r: string)
    requires Groups(ps) && |ps| == 7 && Tail(r) && r != ""
    ensures ReadPlain(Join(ps) + "::" + r) == Written(Values(ps) + Zeros(1), false)
  {
    hide TakeBefore, TakeHex, TakeChar, Written;
    var f, t := ps[0], ps[1..];
    assert f in ps;
    assert Groups(t) by { assert forall g :: g in t ==> g in ps; }
    var rest := Before(t) + (":" + (":" + r));
    assert Join(ps) + "::" + r == f + rest;
    TakeHexField(f, rest, 0);
    TakeBeforeFields(t, ":" + (":" + r), GroupValue(f), 1);
    TakeNoField(":" + r, LastValue(t, GroupValue(f)));
    ValuesCons(ps);
    assert [GroupValue(f)] + (Values(t) + [0]) == Values(ps) + Zeros(1);
  }

  /** Groups without a "::", eight or fewer: missing ones repeat the last. */
  lemma {:induction false} PlainGroups(fs: seq<string>, r: string)
    requires Groups(fs) && 1 <= |fs| <= 8 && Stop(r) && (|fs| == 8 || r == "")
    ensures ReadPlain(Join(fs) + r)
         == Written(Values(fs) + Repeat(LastValue(fs, 0), 8 - |fs|), r == "")
  {
    hide TakeBefore, TakeHex, TakeChar, Written, Before, Values, Groups;
    var f, t := fs[0], fs[1..];
    GroupsCons(fs);
    BeforeStops(t, r);
    var rest := Before(t) + r;
    Associate(f, Before(t), r);
    TakeHexField(f, rest, 0);
    var v, m := GroupValue(f), 8 - |fs|;
    ValuesCons(fs);
    if m == 0 {
      TakeBeforeAll(t, r, v);
      assert [v] + Values(t) == Values(fs) + Repeat(LastValue(fs, 0), 0);
    } else {
      TakeBeforeFields(t, r, v, m);
      ValuesBound(fs);
      TakeBeforeEnd(false, LastValue(t, v), m);
      assert [v] + (Values(t) + Repeat(LastValue(t, v), m)) == Values(fs) + Repeat(LastValue(fs, 0), m);
    }
  }

  lemma {:induction false} ReadPlainText(fs: seq<string>, r: string)
    requires Groups(fs) && 3 <= |fs| <= 8 && Tail(r) && (|fs| == 8 || r == "")
    ensures var s := Join(fs) + r;
      StaysInside(s) && ReadText(s) == Written(Values(fs) + Repeat(LastValue(fs, 0), 8 - |fs|), r == "")
  {
    hide ReadPlain, Written, BlockOf, StaysInside, Join, Colons, Groups, Values, Tail, Stop, FirstDouble, HasDouble;
    var a := Join(fs);
    DoubleZone(a, r);
    FieldsJoin(fs);
    GroupsClean(fs);
    ColonsJoin(fs);
    ExpandForm1(fs);
    Ends(a + r, a, r);
    BlockFew(a + r);
    TailStops(r);
    PlainGroups(fs, r);
  }

  lemma TailStops(r: string)
    requires Tail(r)
    ensures Stop(r)
  {
  }

  // ----- the reader's meaning -----

  lemma NoPercent(s: string)
    requires IsAddress(s) || Short(s)
    ensures '%' !in s
  {
    ChecksComplete(s);
    JoinSplit(s);
    JoinChars(Split(s));
  }

  lemma {:induction false} JoinChars(fs: seq<string>)
    requires forall f :: f in fs ==> AllHex(f)
    ensures forall c :: c in Join(fs) ==> IsHex(c) || c == ':'
    ensures forall c :: c in Before(fs) ==> IsHex(c) || c == ':'
  {
    if fs != [] {
      assert fs[0] in fs;
      JoinChars(fs[1..]);
    }
  }

  lemma AddressPartTail(a: string, r: string)
    requires '%' !in a && (r == "" || r[0] == '%')
    ensures AddressPart(a + r) == a
  {
    var s := a + r;
    var p := Find(s, "%", 0);
    if p != -1 {
      assert s[p..p + 1] == [s[p]];
    }
    if r != "" {
      assert s[|a|..|a| + 1] == "%";
      assert At(s, "%", |a|);
    }
  }

  lemma {:induction false} ReadForm2(ps: seq<string>, qs: seq<string>, r: string)
    requires Groups(ps) && Groups(qs) && |ps| + |qs| <= 7 && Tail(r)
    ensures var s := Join(ps) + "::" + Join(qs) + r;
      && StaysInside(s)
      && ReadText(s) == Outcome(r == "", Bytes(Values(ps) + Zeros(8 - |ps| - |qs|) + Values(qs)))
  {
    hide ReadText, StaysInside, Values, GroupValue;
    var vs := Values(ps) + Zeros(8 - |ps| - |qs|) + Values(qs);
    WrittenAll(vs, r == "");
    if ps == [] {
      ReadForm2Leading(qs, r);
      assert Join(ps) + "::" + Join(qs) + r == "::" + Join(qs) + r;
      assert vs == Zeros(8 - |qs|) + Values(qs);
    } else if qs == [] {
      ReadForm2Trailing(ps, r);
      assert Join(ps) + "::" + Join(qs) + r == Join(ps) + "::" + r;
      assert vs == Values(ps) + Zeros(8 - |ps|);
    } else {
      ReadForm2Middle(ps, qs, r);
    }
  }

  lemma WrittenAll(vs: seq<nat>, ok: bool)
    requires |vs| == 8
    ensures Written(vs, ok) == Outcome(ok, Bytes(vs))
  {
    assert vs + Zeros(0) == vs;
  }

  /** Parser correctness: an address, alone or followed by a zone without a colon, is read
      to exactly the bytes the grammar gives it; the zone only costs the returned flag. */
  lemma {:induction false} ReadAddress(a: string, r: string)
    requires IsAddress(a) && Tail(r)
    ensures Accepts(a + r) && AddressPart(a + r) == a && StaysInside(a + r)
    ensures ReadText(a + r) == Outcome(r == "", Bytes(Expand(a)))
  {
    hide ReadText;
    NoPercent(a);
    AddressPartTail(a, r);
    if Form1(a) {
      var fs :| IsForm1(a, fs);
      ExpandForm1(fs);
      ReadPlainText(fs, r);
      assert Values(fs) + Repeat(LastValue(fs, 0), 0) + Zeros(0) == Values(fs);
    } else {
      var ps, qs :| IsForm2(a, ps, qs);
      ExpandForm2(ps, qs);
      ReadForm2(ps, qs, r);
    }
  }

  lemma ShortGroups(a: string) returns (fs: seq<string>)
    requires Short(a)
    ensures IsShort(a, fs)
  {
    fs :| IsShort(a, fs);
  }

  /** A list of too few groups is no address, yet it is read without complaint: the missing
      groups repeat the last one given. */
  lemma {:induction false} ReadShort(s: string)
    requires Short(s)
    ensures !IsAddress(s) && Accepts(s) && StaysInside(s)
    ensures var vs := Values(Fields(s));
      && |vs| < 8
      && ReadText(s) == Outcome(true, Bytes(vs + Repeat(vs[|vs| - 1], 8 - |vs|)))
  {
    hide ReadText, StaysInside, IsAddress, Short, Join, Bytes, Values, Groups, AddressPart;
    AddressOrShort(s);
    NoPercent(s);
    AddressPartTail(s, "");
    assert s + "" == s;
    var fs := ShortGroups(s);
    FieldsJoin(fs);
    ReadPlainText(fs, "");
    var vs := Values(fs) + Repeat(LastValue(fs, 0), 8 - |fs|);
    assert vs + Zeros(0) == vs;
  }

  /** When the reader is right to say yes: among the texts without a zone that it accepts,
      those that are addresses are those with a "::" or seven colons. */
  lemma {:induction false} AcceptedIsAddress(s: string)
    requires '%' !in s && Accepts(s)
    ensures StaysInside(s) && ReadText(s).ok
    ensures IsAddress(s) <==> HasDouble(s) || Colons(s) == 7
    ensures IsAddress(s) ==> ReadText(s).address == Bytes(Expand(s))
  {
    hide ReadText;
    AddressPartTail(s, "");
    assert s + "" == s;
    AddressOrShort(s);
    if IsAddress(s) { ReadAddress(s, ""); } else { ReadShort(s); }
  }

  lemma ShortExampleFields(fs: seq<string>)
    requires fs == ["1", "2", "3"]
    ensures IsShort("1:2:3", fs)
    ensures Values(fs) == [1, 2, 3]
  {
    assert Before(fs[2..]) == ":" + "3" + Before(fs[2..][1..]) == ":3";
    assert fs[1..][1..] == fs[2..];
    assert Before(fs[1..]) == ":" + "2" + Before(fs[2..]) == ":2:3";
    assert Join(fs) == "1" + Before(fs[1..]) == "1:2:3";
    assert GroupValue("1") == 1 && GroupValue("2") == 2 && GroupValue("3") == 3;
  }

  /** The reader accepts "1:2:3" as 1:2:3:3:3:3:3:3. */
  lemma ShortExample()
    ensures Short("1:2:3") && !IsAddress("1:2:3")
    ensures StaysInside("1:2:3") && ReadText("1:2:3") == Outcome(true, Bytes([1, 2, 3, 3, 3, 3, 3, 3]))
  {
    hide ReadText, Accepts, StaysInside, IsAddress, Values, Fields, Bytes, Join;
    var fs := ["1", "2", "3"];
    ShortExampleFields(fs);
    FieldsJoin(fs);
    ReadShort("1:2:3");
    assert [1, 2, 3] + Repeat(3, 5) == [1, 2, 3, 3, 3, 3, 3, 3];
  }
}
