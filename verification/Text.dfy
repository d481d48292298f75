/** Strings as the codec sees them: searching, counting colons, and lists of
    fields that are split at, or joined by, colons. */
module Text {

  /** `pat` occurs in `s` at index `i`. */
  predicate At(s: string, pat: string, i: int) {
    0 <= i && i + |pat| <= |s| && s[i..i + |pat|] == pat
  }

  /** The first occurrence of `pat` at or after `from`, or -1 (std::string::find). */
  function Find(s: string, pat: string, from: nat): (r: int)
    ensures r == -1 || (from <= r && At(s, pat, r))
    ensures forall j :: from <= j && At(s, pat, j) ==> r != -1 && r <= j
    decreases |s| - from
  {
    if from + |pat| > |s| then -1
    else if s[from..from + |pat|] == pat then from
    else Find(s, pat, from + 1)
  }

  /** Two adjacent colons at `i`. */
  predicate DoubleAt(s: string, i: int) {
    0 <= i && i + 1 < |s| && s[i] == ':' && s[i + 1] == ':'
  }

  lemma DoubleAtIsAt(s: string, i: int)
    ensures DoubleAt(s, i) <==> At(s, "::", i)
  {
    if 0 <= i && i + 2 <= |s| {
      assert s[i..i + 2] == [s[i], s[i + 1]];
    }
  }

  /** The index of the first "::", or -1. */
  function FirstDouble(s: string): (r: int)
    ensures r == -1 || DoubleAt(s, r)
    ensures forall j :: DoubleAt(s, j) ==> r != -1 && r <= j
  {
    var r := Find(s, "::", 0);
    assert r == -1 || DoubleAt(s, r) by { DoubleAtIsAt(s, r); }
    assert forall j :: DoubleAt(s, j) ==> r != -1 && r <= j by {
      forall j | DoubleAt(s, j) ensures r != -1 && r <= j { DoubleAtIsAt(s, j); }
    }
    r
  }

  /** The number of colons (std::count_if). */
  function Colons(s: string): nat {
    if s == "" then 0 else (if s[0] == ':' then 1 else 0) + Colons(s[1..])
  }

  lemma {:induction false} ColonsConcat(a: string, b: string)
    ensures Colons(a + b) == Colons(a) + Colons(b)
  {
    if a == "" {
      assert a + b == b;
    } else {
      assert (a + b)[1..] == a[1..] + b;
      ColonsConcat(a[1..], b);
    }
  }

  lemma {:induction false} NoColons(s: string)
    ensures Colons(s) == 0 <==> ':' !in s
  {
    if s != "" {
      NoColons(s[1..]);
      assert s == [s[0]] + s[1..];
    }
  }

  // ----- lists of fields -----

  predicate NoneColon(fs: seq<string>) {
    forall f :: f in fs ==> ':' !in f
  }

  predicate NoneEmpty(fs: seq<string>) {
    "" !in fs
  }

  /** Every field followed by a colon. */
  function After(fs: seq<string>): string {
    if fs == [] then "" else fs[0] + ":" + After(fs[1..])
  }

  /** Every field preceded by a colon. */
  function Before(fs: seq<string>): string {
    if fs == [] then "" else ":" + fs[0] + Before(fs[1..])
  }

  /** The fields with a colon between neighbours. */
  function Join(fs: seq<string>): string {
    if fs == [] then "" else fs[0] + Before(fs[1..])
  }

  /** The fields between the colons of `s`; always at least one. */
  function Split(s: string): (fs: seq<string>)
    ensures fs != []
  {
    if s == "" then [""] else Extend(s[0], Split(s[1..]))
  }

  /** The fields of a text with one more character in front. */
  function Extend(c: char, fs: seq<string>): (gs: seq<string>)
    requires fs != []
    ensures gs != []
  {
    if c == ':' then [""] + fs else [[c] + fs[0]] + fs[1..]
  }

  lemma ExtendConcat(c: char, fs: seq<string>, gs: seq<string>)
    requires fs != []
    ensures Extend(c, fs + gs) == Extend(c, fs) + gs
  {
    if c == ':' {
      assert [""] + (fs + gs) == ([""] + fs) + gs;
    } else {
      assert (fs + gs)[1..] == fs[1..] + gs;
    }
  }

  lemma {:induction false} AfterConcat(fs: seq<string>, gs: seq<string>)
    ensures After(fs + gs) == After(fs) + After(gs)
  {
    if fs == [] {
      assert fs + gs == gs;
    } else {
      assert (fs + gs)[1..] == fs[1..] + gs;
      AfterConcat(fs[1..], gs);
    }
  }

  lemma {:induction false} BeforeAfter(fs: seq<string>)
    ensures Before(fs) + ":" == ":" + After(fs)
  {
    if fs != [] {
      calc {
        Before(fs) + ":";
        (":" + fs[0] + Before(fs[1..])) + ":";
        ":" + fs[0] + (Before(fs[1..]) + ":");
        { BeforeAfter(fs[1..]); }
        ":" + fs[0] + (":" + After(fs[1..]));
        ":" + (fs[0] + ":" + After(fs[1..]));
        ":" + After(fs);
      }
    }
  }

  lemma JoinAfter(fs: seq<string>)
    requires fs != []
    ensures Join(fs) + ":" == After(fs)
  {
    calc {
      Join(fs) + ":";
      (fs[0] + Before(fs[1..])) + ":";
      fs[0] + (Before(fs[1..]) + ":");
      { BeforeAfter(fs[1..]); }
      fs[0] + (":" + After(fs[1..]));
      fs[0] + ":" + After(fs[1..]);
      After(fs);
    }
  }

  lemma JoinSnoc(fs: seq<string>, f: string)
    ensures Join(fs + [f]) == After(fs) + f
  {
    JoinAfter(fs + [f]);
    AfterConcat(fs, [f]);
    assert After([f]) == f + ":" + After([f][1..]) == f + ":";
    var s, t := Join(fs + [f]), After(fs) + f;
    assert s + ":" == t + ":";
    assert s == (s + ":")[..|s|] && t == (t + ":")[..|t|];
  }

  lemma JoinBefore(fs: seq<string>)
    requires fs != []
    ensures ":" + Join(fs) == Before(fs)
  {
    assert ":" + (fs[0] + Before(fs[1..])) == ":" + fs[0] + Before(fs[1..]);
  }

  lemma {:induction false} ColonsBefore(fs: seq<string>)
    requires NoneColon(fs)
    ensures Colons(Before(fs)) == |fs|
  {
    if fs != [] {
      ColonsBefore(fs[1..]);
      NoColons(fs[0]);
      ColonsConcat(":" + fs[0], Before(fs[1..]));
      ColonsConcat(":", fs[0]);
    }
  }

  lemma ColonsJoin(fs: seq<string>)
    requires NoneColon(fs)
    ensures Colons(Join(fs)) == if fs == [] then 0 else |fs| - 1
  {
    if fs != [] {
      NoColons(fs[0]);
      ColonsConcat(fs[0], Before(fs[1..]));
      ColonsBefore(fs[1..]);
    }
  }

  lemma {:induction false} SplitNoneColon(s: string)
    ensures NoneColon(Split(s))
    ensures |Split(s)| == Colons(s) + 1
  {
    if s != "" {
      SplitNoneColon(s[1..]);
      var rest := Split(s[1..]);
      assert rest[0] in rest;
    }
  }

  lemma {:induction false} JoinSplit(s: string)
    ensures Join(Split(s)) == s
  {
    if s != "" {
      JoinSplit(s[1..]);
      var rest := Split(s[1..]);
      assert s == [s[0]] + s[1..];
      if s[0] == ':' {
        assert ([""] + rest)[1..] == rest;
        JoinBefore(rest);
        assert Join(Split(s)) == "" + Before(rest) == ":" + Join(rest);
      } else {
        var h := [s[0]] + rest[0];
        assert ([h] + rest[1..])[1..] == rest[1..];
        assert h + Before(rest[1..]) == [s[0]] + (rest[0] + Before(rest[1..]));
      }
    }
  }

  lemma {:induction false} SplitColon(a: string, b: string)
    ensures Split(a + ":" + b) == Split(a) + Split(b)
  {
    hide Extend;
    var s := a + ":" + b;
    if a == "" {
      assert s[0] == ':' && s[1..] == b;
      ExtendColon(b);
    } else {
      assert s[0] == a[0] && s[1..] == a[1..] + ":" + b;
      SplitColon(a[1..], b);
      ExtendConcat(a[0], Split(a[1..]), Split(b));
    }
  }

  lemma ExtendColon(b: string)
    ensures Extend(':', Split(b)) == Split("") + Split(b)
  {
  }

  lemma {:induction false} SplitSingle(f: string)
    requires ':' !in f
    ensures Split(f) == [f]
  {
    if f != "" {
      SplitSingle(f[1..]);
      assert f == [f[0]] + f[1..];
    }
  }

  lemma {:induction false} SplitJoin(fs: seq<string>)
    requires fs != [] && NoneColon(fs)
    ensures Split(Join(fs)) == fs
  {
    if |fs| == 1 {
      assert Join(fs) == fs[0];
      SplitSingle(fs[0]);
    } else {
      var t := fs[1..];
      SplitJoin(t);
      JoinBefore(t);
      assert Join(fs) == fs[0] + (":" + Join(t)) == fs[0] + ":" + Join(t);
      SplitColon(fs[0], Join(t));
      SplitSingle(fs[0]);
    }
  }

  ghost predicate HasDouble(s: string) {
    exists i :: DoubleAt(s, i)
  }

  /** A field other than the first is empty when a colon is last or next to another. */
  lemma {:induction false} SplitLaterEmpty(s: string)
    ensures "" in Split(s)[1..] <==> s != "" && (s[|s| - 1] == ':' || HasDouble(s))
  {
    if s != "" {
      var t := s[1..];
      SplitLaterEmpty(t);
      SplitFirst(t);
      if t != "" { DoubleTail(s); }
      var rest := Split(t);
      assert rest == [rest[0]] + rest[1..];
      assert Split(s)[1..] == if s[0] == ':' then rest else rest[1..];
    }
  }

  /** No field of `s` is empty exactly when no colon is first, last or next to another. */
  lemma SplitNoneEmpty(s: string)
    ensures NoneEmpty(Split(s)) <==>
            s != "" && s[0] != ':' && s[|s| - 1] != ':' && !HasDouble(s)
  {
    SplitLaterEmpty(s);
    SplitFirst(s);
    assert Split(s) == [Split(s)[0]] + Split(s)[1..];
  }

  lemma DoubleTail(s: string)
    requires |s| > 1
    ensures HasDouble(s) <==> DoubleAt(s, 0) || HasDouble(s[1..])
  {
    if i :| DoubleAt(s, i) { assert i > 0 ==> DoubleAt(s[1..], i - 1); }
    if i :| DoubleAt(s[1..], i) { assert DoubleAt(s, i + 1); }
  }

  lemma SplitFirst(s: string)
    ensures Split(s)[0] == "" <==> s == "" || s[0] == ':'
  {
  }
}
