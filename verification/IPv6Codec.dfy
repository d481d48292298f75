/** The reader and the printer together: they undo each other, the printed text is the one
    RFC 5952 recommends, and it is as short as that recommendation lets it be. */
module IPv6Codec {
  import opened Text
  import opened Digits
  import opened IPv6Grammar
  import opened IPv6Gate
  import opened IPv6Text
  import opened IPv6Meaning
  import opened IPv6Printer
  import opened Locators
  import opened ZeroRuns

  /** Eight 16-bit groups. */
  predicate Address(g: seq<nat>) {
    |g| == 8 && forall i :: 0 <= i < 8 ==> g[i] < 65536
  }

  // ----- round trip -----

  lemma TextsGroups(g: seq<nat>)
    requires forall i :: 0 <= i < |g| ==> g[i] < 65536
    ensures Groups(Texts(g)) && Values(Texts(g)) == g
  {
    forall i | 0 <= i < |g| ensures Group(Hex(g[i])) && GroupValue(Hex(g[i])) == g[i] {
      NumeralLength(g[i]);
      ValueNumeral(g[i], Hexadecimal);
    }
  }

  lemma PlainReads(g: seq<nat>)
    requires Address(g)
    ensures IsForm1(Join(Texts(g)), Texts(g)) && Expand(Join(Texts(g))) == g
  {
    TextsGroups(g);
    ExpandForm1(Texts(g));
  }

  /** "::" may stand for any zero run, longest or not. */
  lemma CompressedReads(g: seq<nat>, a: nat, n: nat)
    requires Address(g) && ZeroRun(g, a, n) && n >= 1
    ensures IsForm2(Compressed(g, a, n), Texts(g[..a]), Texts(g[a + n..]))
    ensures Expand(Compressed(g, a, n)) == g
  {
    hide Texts, Values, Expand, Join;
    TextsGroups(g[..a]);
    TextsGroups(g[a + n..]);
    ExpandForm2(Texts(g[..a]), Texts(g[a + n..]));
    AroundRun(g, a, n);
  }

  lemma AroundRun(g: seq<nat>, a: nat, n: nat)
    requires ZeroRun(g, a, n)
    ensures g == g[..a] + Zeros(n) + g[a + n..]
  {
  }

  lemma CanonicalReads(g: seq<nat>)
    requires Address(g)
    ensures IsAddress(CanonicalText(g)) && Expand(CanonicalText(g)) == g
  {
    var (a, n) := LongestRun(g);
    if n >= 2 { CompressedReads(g, a, n); } else { PlainReads(g); }
  }

  /** Printing and reading back: every sixteen bytes survive, and a zone without a colon does
      not disturb them. */
  lemma {:induction false} RoundTrip(b: seq<octet>, zone: string)
    requires |b| == 16 && Tail(zone)
    ensures var s := CanonicalText(GroupsOf(b)) + zone;
      && Accepts(s) && StaysInside(s)
      && ReadText(s) == Outcome(zone == "", b)
  {
    var g := GroupsOf(b);
    CanonicalReads(g);
    ReadAddress(CanonicalText(g), zone);
    BytesGroups(b);
  }

  /** Different addresses are printed differently. */
  lemma {:induction false} PrintInjective(b: seq<octet>, c: seq<octet>)
    requires |b| == |c| == 16
    requires CanonicalText(GroupsOf(b)) == CanonicalText(GroupsOf(c))
    ensures b == c
  {
    RoundTrip(b, "");
    RoundTrip(c, "");
  }

  /** Two texts denote the same address exactly when reading and printing them gives the
      same text. */
  lemma {:induction false} SameAddress(s: string, t: string)
    requires IsAddress(s) && IsAddress(t)
    ensures StaysInside(s) && StaysInside(t)
    ensures Expand(s) == Expand(t) <==>
            CanonicalText(GroupsOf(ReadText(s).address)) == CanonicalText(GroupsOf(ReadText(t).address))
  {
    hide ReadText;
    assert s + "" == s && t + "" == t;
    ReadAddress(s, "");
    ReadAddress(t, "");
    ExpandBound(s);
    ExpandBound(t);
    GroupsBytes(Expand(s));
    GroupsBytes(Expand(t));
    CanonicalReads(Expand(s));
    CanonicalReads(Expand(t));
  }

  // ----- how long the texts are -----

  function Total(fs: seq<string>): nat {
    if fs == [] then 0 else |fs[0]| + Total(fs[1..])
  }

  lemma {:induction false} TotalConcat(fs: seq<string>, gs: seq<string>)
    ensures Total(fs + gs) == Total(fs) + Total(gs)
  {
    if fs == [] {
      assert fs + gs == gs;
    } else {
      assert (fs + gs)[1..] == fs[1..] + gs;
      TotalConcat(fs[1..], gs);
    }
  }

  lemma {:induction false} BeforeLength(fs: seq<string>)
    ensures |Before(fs)| == Total(fs) + |fs|
  {
    if fs != [] { BeforeLength(fs[1..]); }
  }

  lemma JoinLength(fs: seq<string>)
    ensures |Join(fs)| == Total(fs) + if fs == [] then 0 else |fs| - 1
  {
    if fs != [] { BeforeLength(fs[1..]); }
  }

  lemma {:induction false} TotalZeros(n: nat)
    ensures Total(Texts(Zeros(n))) == n
  {
    if n > 0 {
      assert Texts(Zeros(n))[1..] == Texts(Zeros(n - 1));
      TotalZeros(n - 1);
    }
  }

  /** The digits of all eight groups, printed without compression. */
  function DigitCount(g: seq<nat>): nat { Total(Texts(g)) }

  /** What a text that compresses `n` groups at `a` adds to the digit count. */
  function Cost(a: int, n: int): int {
    2 + (if a == 0 then 0 else a - 1) + (if a + n == 8 then 0 else 7 - a - n) - n
  }

  lemma DigitCountSplit(g: seq<nat>, a: nat, n: nat)
    requires |g| == 8 && ZeroRun(g, a, n)
    ensures DigitCount(g) == DigitCount(g[..a]) + n + DigitCount(g[a + n..])
  {
    var l, z, r := g[..a], Zeros(n), g[a + n..];
    AroundRun(g, a, n);
    assert Texts(g) == Texts(l) + Texts(z) + Texts(r);
    TotalConcat(Texts(l) + Texts(z), Texts(r));
    TotalConcat(Texts(l), Texts(z));
    TotalZeros(n);
  }

  lemma PlainLength(g: seq<nat>)
    requires |g| == 8
    ensures |Join(Texts(g))| == DigitCount(g) + 7
  {
    JoinLength(Texts(g));
  }

  lemma CompressedLength(g: seq<nat>, a: nat, n: nat)
    requires |g| == 8 && ZeroRun(g, a, n)
    ensures |Compressed(g, a, n)| == DigitCount(g) + Cost(a, n)
  {
    DigitCountSplit(g, a, n);
    JoinLength(Texts(g[..a]));
    JoinLength(Texts(g[a + n..]));
  }

  lemma {:induction false} FieldsShortest(fs: seq<string>)
    requires Groups(fs)
    ensures DigitCount(Values(fs)) <= Total(fs)
  {
    if fs != [] {
      var t := fs[1..];
      assert fs[0] in fs;
      assert Groups(t) by { assert forall g :: g in t ==> g in fs; }
      FieldsShortest(t);
      NumeralShortest(fs[0], Hexadecimal);
      ValuesCons(fs);
      assert Texts(Values(fs))[1..] == Texts(Values(t));
    }
  }

  /** Every text for an address is at least as long as one of its printed forms: the plain
      one, or the one compressing the run that the text compresses. */
  lemma NoShorterForm(t: string) returns (a: int, n: int)
    requires IsAddress(t)
    ensures var g := Expand(t);
      && |g| == 8
      && 0 <= n && ZeroRun(g, a, n)
      && |t| >= DigitCount(g) + if n == 0 then 7 else Cost(a, n)
  {
    if Form1(t) {
      var fs :| IsForm1(t, fs);
      ExpandForm1(fs);
      FieldsShortest(fs);
      JoinLength(fs);
      a, n := 0, 0;
    } else {
      var ps, qs :| IsForm2(t, ps, qs);
      ExpandForm2(ps, qs);
      a, n := |ps|, 8 - |ps| - |qs|;
      var g := Expand(t);
      assert g[..a] == Values(ps) && g[a + n..] == Values(qs);
      DigitCountSplit(g, a, n);
      FieldsShortest(ps);
      FieldsShortest(qs);
      JoinLength(ps);
      JoinLength(qs);
    }
  }

  lemma CanonicalLength(g: seq<nat>)
    requires |g| == 8
    ensures var (a, n) := LongestRun(g);
      |CanonicalText(g)| == DigitCount(g) + if n >= 2 then Cost(a, n) else 7
  {
    var (a, n) := LongestRun(g);
    if n >= 2 { CompressedLength(g, a, n); } else { PlainLength(g); }
  }

  /** A text for the same address that is shorter than the printed one. */
  ghost predicate ShorterText(g: seq<nat>, t: string) {
    IsAddress(t) && Expand(t) == g && |t| < |CanonicalText(g)|
  }

  /** Sections 4.2.2 and 4.2.3 of RFC 5952 have a price, but never more than one character: a
      text that is shorter than the printed one is shorter by just that. */
  lemma {:induction false} NearlyShortest(g: seq<nat>)
    requires |g| == 8
    ensures forall t :: ShorterText(g, t) ==> |CanonicalText(g)| == |t| + 1
  {
    hide Expand, CanonicalText, DigitCount, LongestRun;
    forall t | ShorterText(g, t) ensures |CanonicalText(g)| == |t| + 1 {
      var b, m := NoShorterForm(t);
      CanonicalLength(g);
    }
  }

  /** A run as long as the longest that touches neither end, where the printed text either
      compresses nothing or compresses a run at the start. */
  ghost predicate Beaten(g: seq<nat>)
    requires |g| == 8
  {
    var (a, n) := LongestRun(g);
    n >= 1 && (n == 1 || a == 0) && exists b :: b > 0 && b + n < 8 && ZeroRun(g, b, n)
  }

  /** The printed text is not the shortest exactly in these cases. */
  lemma {:induction false} ShortestIff(g: seq<nat>)
    requires Address(g)
    ensures (exists t :: ShorterText(g, t)) <==> Beaten(g)
  {
    hide Expand, CanonicalText, Compressed, DigitCount, LongestRun;
    var (a, n) := LongestRun(g);
    CanonicalLength(g);
    if Beaten(g) {
      var b :| b > 0 && b + n < 8 && ZeroRun(g, b, n);
      CompressedReads(g, b, n);
      CompressedLength(g, b, n);
      var t := Compressed(g, b, n);
      assert ShorterText(g, t);
    }
    if t :| ShorterText(g, t) {
      var b, m := NoShorterForm(t);
      assert ZeroRun(g, b, m);
      assert b > 0 && b + m < 8 && m == n;
    }
  }

  lemma {:induction false} DigitCountBounds(g: seq<nat>)
    requires forall i :: 0 <= i < |g| ==> g[i] < 65536
    ensures |g| <= DigitCount(g) <= 4 * |g|
  {
    if g != [] {
      NumeralLength(g[0]);
      assert Texts(g)[1..] == Texts(g[1..]);
      DigitCountBounds(g[1..]);
    }
  }

  lemma LengthBounds(g: seq<nat>)
    requires Address(g)
    ensures 2 <= |CanonicalText(g)| <= 39
  {
    var (a, n) := LongestRun(g);
    CanonicalLength(g);
    DigitCountBounds(g);
    DigitCountSplit(g, a, n);
    DigitCountBounds(g[..a]);
    DigitCountBounds(g[a + n..]);
  }
}
