/** The text forms of an IPv6 address: forms 1 and 2 of section 2.2 of RFC 4291, without
    the dotted-quad form, and the eight groups each text denotes. Nothing here follows the
    code: the gate and the reader are proved against it. */
module IPv6Grammar {
  import opened Text
  import opened Digits

  /** One to four hexadecimal digits. */
  predicate Group(f: string) { 1 <= |f| <= 4 && AllHex(f) }

  predicate Groups(fs: seq<string>) { forall f :: f in fs ==> Group(f) }

  /** Form 1: eight groups. */
  ghost predicate Form1(s: string) {
    exists fs :: IsForm1(s, fs)
  }

  ghost predicate IsForm1(s: string, fs: seq<string>) {
    Groups(fs) && |fs| == 8 && s == Join(fs)
  }

  /** Form 2: "::" stands for the groups that are missing, at least one. */
  ghost predicate Form2(s: string) {
    exists ps, qs :: IsForm2(s, ps, qs)
  }

  ghost predicate IsForm2(s: string, ps: seq<string>, qs: seq<string>) {
    Groups(ps) && Groups(qs) && |ps| + |qs| <= 7 && s == Join(ps) + "::" + Join(qs)
  }

  ghost predicate IsAddress(s: string) { Form1(s) || Form2(s) }

  /** What the gate also lets through: three to seven groups and no "::". */
  ghost predicate Short(s: string) {
    exists fs :: IsShort(s, fs)
  }

  ghost predicate IsShort(s: string, fs: seq<string>) {
    Groups(fs) && 3 <= |fs| <= 7 && s == Join(fs)
  }

  function Fields(s: string): seq<string> {
    if s == "" then [] else Split(s)
  }

  function GroupValue(f: string): nat {
    if AllHex(f) then Value(f, Hexadecimal) else 0
  }

  function Values(fs: seq<string>): (vs: seq<nat>)
    ensures |vs| == |fs|
    ensures forall i :: 0 <= i < |fs| ==> vs[i] == GroupValue(fs[i])
  {
    seq(|fs|, i requires 0 <= i < |fs| => GroupValue(fs[i]))
  }

  function Zeros(n: int): (vs: seq<nat>)
    ensures |vs| == if n < 0 then 0 else n
    ensures forall i :: 0 <= i < |vs| ==> vs[i] == 0
  {
    seq(if n < 0 then 0 else n, _ => 0)
  }

  /** The groups a text denotes: the values of its fields, "::" filled up to eight with zeros. */
  function Expand(s: string): seq<nat> {
    var d := FirstDouble(s);
    if d == -1 then Values(Fields(s))
    else
      var ps, qs := Values(Fields(s[..d])), Values(Fields(s[d + 2..]));
      ps + Zeros(8 - |ps| - |qs|) + qs
  }

  // ----- groups carry no colon and are never empty -----

  lemma GroupsClean(fs: seq<string>)
    requires Groups(fs)
    ensures NoneColon(fs) && NoneEmpty(fs)
  {
    forall f | f in fs ensures ':' !in f {
      assert ':' in f ==> IsHex(':');
    }
  }

  lemma FieldsJoin(fs: seq<string>)
    requires Groups(fs)
    ensures Fields(Join(fs)) == fs
    ensures Join(fs) == "" <==> fs == []
    ensures !HasDouble(Join(fs))
    ensures fs != [] ==> Join(fs)[0] != ':' && Join(fs)[|Join(fs)| - 1] != ':'
  {
    if fs != [] {
      GroupsClean(fs);
      SplitJoin(fs);
      assert fs[0] in fs;
      SplitNoneEmpty(Join(fs));
    }
  }

  lemma ExpandForm1(fs: seq<string>)
    requires Groups(fs)
    ensures FirstDouble(Join(fs)) == -1
    ensures Expand(Join(fs)) == Values(fs)
  {
    FieldsJoin(fs);
  }

  /** The first "::" of a form-2 text is the one the groups leave out, and it is the only one. */
  lemma DoubleForm2(ps: seq<string>, qs: seq<string>)
    requires Groups(ps) && Groups(qs)
    ensures forall i :: DoubleAt(Join(ps) + "::" + Join(qs), i) <==> i == |Join(ps)|
  {
    var a, b := Join(ps), Join(qs);
    var s := a + "::" + b;
    FieldsJoin(ps);
    FieldsJoin(qs);
    forall i ensures DoubleAt(s, i) <==> i == |a| {
      if DoubleAt(s, i) {
        assert i < |a| - 1 ==> DoubleAt(a, i);
        assert i > |a| + 1 ==> DoubleAt(b, i - |a| - 2);
      }
    }
  }

  lemma ExpandForm2(ps: seq<string>, qs: seq<string>)
    requires Groups(ps) && Groups(qs)
    ensures Expand(Join(ps) + "::" + Join(qs)) == Values(ps) + Zeros(8 - |ps| - |qs|) + Values(qs)
  {
    hide Join, Groups, Fields, Values, Zeros;
    var s := Join(ps) + "::" + Join(qs);
    DoubleForm2(ps, qs);
    var d := FirstDouble(s);
    assert DoubleAt(s, |Join(ps)|);
    assert d == |Join(ps)|;
    assert s[..d] == Join(ps) && s[d + 2..] == Join(qs);
    FieldsJoin(ps);
    FieldsJoin(qs);
  }

  lemma ValuesBound(fs: seq<string>)
    requires Groups(fs)
    ensures forall i :: 0 <= i < |fs| ==> Values(fs)[i] < 65536
  {
    forall i | 0 <= i < |fs| ensures Values(fs)[i] < 65536 {
      assert fs[i] in fs;
      ValueBound(fs[i]);
    }
  }

  /** Every address text denotes eight 16-bit groups. */
  lemma ExpandBound(s: string)
    requires IsAddress(s)
    ensures |Expand(s)| == 8 && forall i :: 0 <= i < 8 ==> Expand(s)[i] < 65536
  {
    if Form1(s) {
      var fs :| IsForm1(s, fs);
      ExpandForm1(fs);
      ValuesBound(fs);
    } else {
      var ps, qs :| IsForm2(s, ps, qs);
      ExpandForm2(ps, qs);
      ValuesBound(ps);
      ValuesBound(qs);
    }
  }
}
