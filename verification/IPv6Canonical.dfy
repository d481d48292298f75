/** The recommendations of section 4 of RFC 5952 as properties of a text. They single out
    one text for every address, and the printer prints that one. */
module IPv6Canonical {
  import opened Text
  import opened Digits
  import opened IPv6Grammar
  import opened IPv6Gate
  import opened IPv6Printer
  import opened IPv6Codec
  import opened ZeroRuns

  /** Sections 4.1 and 4.3: no leading zeros, lower case. */
  predicate Tidy(f: string) {
    AllLower(f) && Canonical(f)
  }

  predicate TidyFields(t: string) {
    forall f :: f in Split(t) && f != "" ==> Tidy(f)
  }

  /** Sections 4.2.1 to 4.2.3: "::" stands for the whole leftmost longest run of zero
      groups, and only a run of two groups or more is worth it. */
  ghost predicate TidyDouble(t: string) {
    var g, d := Expand(t), FirstDouble(t);
    if d == -1 then forall a :: !ZeroRun(g, a, 2)
    else
      var a, c := |Fields(t[..d])|, |Fields(t[d + 2..])|;
      8 - a - c >= 2 && Longest(g, a, 8 - a - c)
  }

  ghost predicate Recommended(t: string) {
    TidyFields(t) && TidyDouble(t)
  }

  lemma Form2Fields(ps: seq<string>, qs: seq<string>)
    requires Groups(ps) && Groups(qs)
    ensures var t := Join(ps) + "::" + Join(qs); var d := |Join(ps)|;
      && FirstDouble(t) == d && Fields(t[..d]) == ps && Fields(t[d + 2..]) == qs
      && (TidyFields(t) <==> forall f :: f in ps + qs ==> Tidy(f))
  {
    hide Tidy, Join, Split;
    var t := Join(ps) + "::" + Join(qs);
    var d := |Join(ps)|;
    DoubleForm2(ps, qs);
    assert DoubleAt(t, d);
    assert t[..d] == Join(ps) && t[d + 2..] == Join(qs);
    FieldsJoin(ps);
    FieldsJoin(qs);
    SplitDouble(Join(ps), Join(qs));
    assert TidyFields(t) <==> forall f :: f in ps + qs ==> Tidy(f) by {
      SplitSides(ps);
      SplitSides(qs);
      assert forall f :: f in Split(t) && f != "" <==> f in ps || f in qs;
    }
  }

  lemma SplitSides(ps: seq<string>)
    requires Groups(ps)
    ensures forall f :: f in Split(Join(ps)) && f != "" <==> f in ps
  {
    FieldsJoin(ps);
  }

  /** Tidy fields are the printed forms of their values. */
  lemma TidyTexts(fs: seq<string>)
    requires Groups(fs)
    ensures (forall f :: f in fs ==> Tidy(f)) <==> fs == Texts(Values(fs))
  {
    forall i | 0 <= i < |fs| ensures Tidy(fs[i]) <==> fs[i] == Hex(GroupValue(fs[i])) {
      assert fs[i] in fs;
      if Tidy(fs[i]) { NumeralValue(fs[i], Hexadecimal); }
      NumeralCanonical(GroupValue(fs[i]), Hexadecimal);
    }
    assert forall f :: f in fs ==> exists i :: 0 <= i < |fs| && fs[i] == f;
  }

  lemma RecommendedForm1(fs: seq<string>)
    requires Groups(fs) && |fs| == 8
    ensures var t := Join(fs); Recommended(t) <==> t == CanonicalText(Expand(t))
  {
    var t := Join(fs);
    var g := Expand(t);
    var (a, n) := LongestRun(g);
    ExpandForm1(fs);
    FieldsJoin(fs);
    TidyTexts(fs);
    GroupsClean(fs);
    assert TidyFields(t) <==> forall f :: f in fs ==> Tidy(f);
    assert (forall b :: !ZeroRun(g, b, 2)) <==> n < 2 by {
      if n >= 2 { assert ZeroRun(g, a, 2); }
    }
    if n >= 2 {
      ValuesBound(fs);
      CompressedReads(g, a, n);
      DoubleForm2(Texts(g[..a]), Texts(g[a + n..]));
      assert DoubleAt(CanonicalText(g), |Join(Texts(g[..a]))|);
    } else if t == Join(Texts(g)) {
      ValuesBound(fs);
      TextsGroups(g);
      FieldsJoin(Texts(g));
    }
  }

  /** Following the recommendation leaves no choice. */
  lemma RecommendedIsPrinted(ps: seq<string>, qs: seq<string>)
    requires Groups(ps) && Groups(qs) && |ps| + |qs| <= 7
    requires Recommended(Join(ps) + "::" + Join(qs))
    ensures var t := Join(ps) + "::" + Join(qs); t == CanonicalText(Expand(t))
  {
    hide Join, Expand, Fields, LongestRun, Values, TidyFields, Texts;
    var t := Join(ps) + "::" + Join(qs);
    var g, a, n := Expand(t), |ps|, 8 - |ps| - |qs|;
    ExpandForm2(ps, qs);
    Form2Fields(ps, qs);
    assert g[..a] == Values(ps) && g[a + n..] == Values(qs);
    LongestUnique(g, a, n, LongestRun(g).0, LongestRun(g).1);
    assert ps == Texts(Values(ps)) by {
      assert forall f :: f in ps ==> f in ps + qs;
      TidyTexts(ps);
    }
    assert qs == Texts(Values(qs)) by {
      assert forall f :: f in qs ==> f in ps + qs;
      TidyTexts(qs);
    }
  }

  /** What is printed for an address with a run of two zero groups follows it. */
  lemma CompressedRecommended(g: seq<nat>)
    requires Address(g) && LongestRun(g).1 >= 2
    ensures HasDouble(CanonicalText(g)) && Recommended(CanonicalText(g))
  {
    hide Join, Expand, Fields, LongestRun, Values, TidyFields, Texts;
    var (a, n) := LongestRun(g);
    var ps, qs := Texts(g[..a]), Texts(g[a + n..]);
    CompressedReads(g, a, n);
    Form2Fields(ps, qs);
    assert DoubleAt(CanonicalText(g), |Join(ps)|);
    TextsGroups(g[..a]);
    TextsGroups(g[a + n..]);
    TidyTexts(ps);
    TidyTexts(qs);
  }

  lemma RecommendedForm2(ps: seq<string>, qs: seq<string>)
    requires Groups(ps) && Groups(qs) && |ps| + |qs| <= 7
    ensures var t := Join(ps) + "::" + Join(qs);
      Recommended(t) <==> t == CanonicalText(Expand(t))
  {
    var t := Join(ps) + "::" + Join(qs);
    assert IsForm2(t, ps, qs);
    ExpandBound(t);
    if Recommended(t) { RecommendedIsPrinted(ps, qs); }
    if t == CanonicalText(Expand(t)) {
      DoubleForm2(ps, qs);
      assert DoubleAt(t, |Join(ps)|);
      if LongestRun(Expand(t)).1 >= 2 {
        CompressedRecommended(Expand(t));
      } else {
        TextsGroups(Expand(t));
        FieldsJoin(Texts(Expand(t)));
      }
    }
  }

  /** Printing is the one way to follow the recommendation: an address text follows it
      exactly when it is what the printer prints for its address. */
  lemma RecommendedIff(t: string)
    requires IsAddress(t)
    ensures Recommended(t) <==> t == CanonicalText(Expand(t))
  {
    if Form1(t) {
      var fs :| IsForm1(t, fs);
      RecommendedForm1(fs);
    } else {
      var ps, qs :| IsForm2(t, ps, qs);
      RecommendedForm2(ps, qs);
    }
  }

  /** Every printed text follows the recommendation. */
  lemma PrintedRecommended(g: seq<nat>)
    requires Address(g)
    ensures Recommended(CanonicalText(g))
  {
    CanonicalReads(g);
    RecommendedIff(CanonicalText(g));
  }
}
