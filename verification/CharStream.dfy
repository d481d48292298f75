/** The part of std::stringstream the codec uses: a text, a read position and a fail flag.
    A stream at its end behaves like a failed one for every later extraction, so the
    separate end-of-file flag of the C++ class needs no counterpart here. */
module CharStream {
  import opened Digits
  import opened Locators

  predicate IsSpace(c: char) {
    c == ' ' || c == '\t' || c == '\n' || c == '\r' || c == 11 as char || c == 12 as char
  }

  lemma SpaceSet(c: char)
    ensures IsSpace(c) <==> c in [' ', '\t', '\n', '\r', 11 as char, 12 as char]
  {
  }

  /** The text after its leading white space, which every formatted extraction skips. */
  function SkipSpace(s: string): (r: string)
    ensures |r| <= |s| && r == s[|s| - |r|..]
    ensures r == "" || !IsSpace(r[0])
    ensures s == "" || !IsSpace(s[0]) ==> r == s
  {
    if s != "" && IsSpace(s[0]) then SkipSpace(s[1..]) else s
  }

  lemma SkipFirst(c: char, r: string)
    requires IsSpace(c)
    ensures SkipSpace([c] + r) == SkipSpace(r)
  {
    assert ([c] + r)[1..] == r;
  }

  lemma SkipSame(r: string)
    requires r != "" && !IsSpace(r[0])
    ensures SkipSpace("" + r) == r
  {
    assert "" + r == r;
  }

  lemma FirstFront(s: string, r: string)
    requires s != ""
    ensures s + r == [s[0]] + (s[1..] + r)
  {
  }

  predicate AllSpace(s: string) { forall c :: c in s ==> IsSpace(c) }

  lemma AllSpaceCons(s: string)
    requires AllSpace(s) && s != ""
    ensures IsSpace(s[0]) && AllSpace(s[1..])
  {
  }

  lemma {:induction false} SkipBlanks(space: string, r: string)
    requires AllSpace(space) && r != "" && !IsSpace(r[0])
    ensures SkipSpace(space + r) == r
  {
    hide SkipSpace, IsSpace, AllSpace;
    if space == "" {
      SkipSame(r);
    } else {
      AllSpaceCons(space);
      SkipBlanks(space[1..], r);
      FirstFront(space, r);
      SkipFirst(space[0], space[1..] + r);
    }
  }

  /** The length of the longest prefix of hexadecimal digits. */
  function HexRun(s: string): (n: nat)
    ensures n <= |s| && AllHex(s[..n])
    ensures n < |s| ==> !IsHex(s[n])
  {
    if s == "" || !IsHex(s[0]) then 0
    else
      assert s[..1 + HexRun(s[1..])] == [s[0]] + s[1..][..HexRun(s[1..])];
      1 + HexRun(s[1..])
  }

  lemma {:induction false} HexRunField(f: string, r: string)
    requires AllHex(f) && (r == "" || !IsHex(r[0]))
    ensures HexRun(f + r) == |f|
  {
    if f == "" {
      assert f + r == r;
    } else {
      assert f[0] in f;
      assert (f + r)[1..] == f[1..] + r;
      HexRunField(f[1..], r);
    }
  }

  /** The length of the longest prefix free of the delimiter. */
  function UntilRun(s: string, delim: char): (n: nat)
    ensures n <= |s| && delim !in s[..n]
    ensures n < |s| ==> s[n] == delim
  {
    if s == "" || s[0] == delim then 0
    else
      assert s[..1 + UntilRun(s[1..], delim)] == [s[0]] + s[1..][..UntilRun(s[1..], delim)];
      1 + UntilRun(s[1..], delim)
  }

  lemma {:induction false} UntilRunField(f: string, delim: char, r: string)
    requires delim !in f && (r == "" || r[0] == delim)
    ensures UntilRun(f + r, delim) == |f|
  {
    if f == "" {
      assert f + r == r;
    } else {
      assert (f + r)[1..] == f[1..] + r;
      UntilRunField(f[1..], delim, r);
    }
  }

  /** What is left to read and the fail flag. */
  datatype State = State(rest: string, failed: bool)

  /** `>> punct`: one character that is not white space. */
  function TakeChar(s: State): State {
    var r := SkipSpace(s.rest);
    if s.failed then s
    else if r == "" then State(r, true)
    else State(r[1..], false)
  }

  lemma TakeColon(r: string)
    ensures TakeChar(State(":" + r, false)) == State(r, false)
  {
    assert (":" + r)[1..] == r;
  }

  lemma TakeDot(r: string)
    ensures TakeChar(State("." + r, false)) == State(r, false)
  {
    assert ("." + r)[1..] == r;
  }

  function DecRun(s: string): (n: nat)
    ensures n <= |s| && AllDec(s[..n]) && AllHex(s[..n])
    ensures n < |s| ==> !IsDec(s[n])
  {
    if s == "" || !IsDec(s[0]) then 0
    else
      assert s[..1 + DecRun(s[1..])] == [s[0]] + s[1..][..DecRun(s[1..])];
      1 + DecRun(s[1..])
  }

  lemma {:induction false} DecRunField(f: string, r: string)
    requires AllDec(f) && (r == "" || !IsDec(r[0]))
    ensures DecRun(f + r) == |f|
  {
    if f == "" {
      assert f + r == r;
    } else {
      assert f[0] in f;
      assert (f + r)[1..] == f[1..] + r;
      DecRunField(f[1..], r);
    }
  }

  /** The number a sign and a magnitude give, and whether the type holds it: a signed 32-bit
      type saturates, an unsigned one saturates and negates modulo 2^32. */
  function Represent(negative: bool, v: int, signed: bool): (int, bool) {
    if signed then
      if negative then (if v > 0x8000_0000 then (-0x8000_0000, false) else (-v, true))
      else (if v > 0x7FFF_FFFF then (0x7FFF_FFFF, false) else (v, true))
    else if v > UINT32_MAX then (UINT32_MAX, false)
    else if negative && v > 0 then (UINT32_MAX + 1 - v, true)
    else (v, true)
  }

  predicate IsSign(c: char) { c == '-' || c == '+' }

  /** The longest run of digits of the radix, as a number of the extracted type. */
  function TakeDigits(t: string, negative: bool, radix: Radix, signed: bool): (r: (State, int))
    ensures !signed ==> r.1 >= 0
  {
    var n := if radix.Decimal? then DecRun(t) else HexRun(t);
    if n == 0 then (State(t, true), 0)
    else
      var (v, fits) := Represent(negative, Value(t[..n], radix), signed);
      (State(t[n..], !fits), v)
  }

  function SkipSign(r: string): string { if r != "" && IsSign(r[0]) then r[1..] else r }

  /** Hexadecimal numbers may begin with 0x. */
  function SkipPrefix(t: string): string {
    if |t| >= 2 && t[0] == '0' && (t[1] == 'x' || t[1] == 'X') then t[2..] else t
  }

  /** `>> value` for a decimal int or uint32_t: an optional sign and the longest run of digits.
      At the end of the text the variable keeps its value, before a character that is no digit
      it becomes 0, and a number the type cannot hold saturates; all three set the fail flag. */
  function TakeNumber(s: State, value: int, signed: bool): (State, int) {
    var r := SkipSpace(s.rest);
    if s.failed then (s, value)
    else if r == "" then (State(r, true), value)
    else TakeDigits(SkipSign(r), r[0] == '-', Decimal, signed)
  }

  /** `>> std::hex >> value` for a uint32_t. */
  function TakeHex(s: State, value: nat): (State, nat) {
    var r := SkipSpace(s.rest);
    if s.failed then (s, value)
    else if r == "" then (State(r, true), value)
    else TakeDigits(SkipPrefix(SkipSign(r)), r[0] == '-', Hexadecimal, false)
  }

  /** Nothing is skipped in front of a digit that no x follows. */
  lemma SkipNothing(x: string)
    requires x != "" && !IsSpace(x[0]) && !IsSign(x[0])
    ensures SkipSpace(x) == x && SkipSign(x) == x
    ensures |x| == 1 || (x[1] != 'x' && x[1] != 'X') ==> SkipPrefix(x) == x
  {
  }

  lemma SkipLength(r: string)
    ensures var t := SkipSign(r); |t| <= |r| && t == r[|r| - |t|..]
    ensures var t := SkipPrefix(SkipSign(r)); |t| <= |r| && t == r[|r| - |t|..]
  {
  }

  class InputStream {
    const text: string
    var pos: nat
    var failed: bool

    ghost predicate Valid()
      reads this
    {
      pos <= |text|
    }

    function Rest(): string
      reads this
      requires Valid()
    {
      text[pos..]
    }

    ghost function View(): State
      reads this
      requires Valid()
    {
      State(Rest(), failed)
    }

    constructor (text: string)
      ensures Valid() && View() == State(text, false)
    {
      this.text := text;
      pos := 0;
      failed := false;
    }

    method ExtractChar(previous: char) returns (c: char)
      requires Valid()
      modifies this`pos, this`failed
      ensures Valid() && View() == TakeChar(old(View()))
      ensures c == if failed then previous else SkipSpace(old(Rest()))[0]
    {
      hide SkipSpace;
      c := previous;
      if !failed {
        var r := SkipSpace(Rest());
        pos := |text| - |r|;
        assert Rest() == r;
        if r == "" {
          failed := true;
        } else {
          c := r[0];
          pos := pos + 1;
          assert Rest() == r[1..];
        }
      }
    }

    method ExtractHex(previous: nat) returns (value: nat)
      requires Valid()
      modifies this`pos, this`failed
      ensures Valid() && (View(), value) == TakeHex(old(View()), previous)
    {
      hide TakeDigits, SkipSpace, SkipSign, SkipPrefix;
      value := previous;
      if !failed {
        var r := SkipSpace(Rest());
        if r == "" {
          SkipTo(r);
          failed := true;
        } else {
          SkipLength(r);
          SkipTo(SkipPrefix(SkipSign(r)));
          value := ExtractDigits(r[0] == '-', Hexadecimal, false);
        }
      }
    }

    method ExtractNumber(previous: int, signed: bool) returns (value: int)
      requires Valid()
      modifies this`pos, this`failed
      ensures Valid() && (View(), value) == TakeNumber(old(View()), previous, signed)
    {
      hide TakeDigits, SkipSpace, SkipSign, SkipPrefix;
      value := previous;
      if !failed {
        var r := SkipSpace(Rest());
        if r == "" {
          SkipTo(r);
          failed := true;
        } else {
          SkipLength(r);
          SkipTo(SkipSign(r));
          value := ExtractDigits(r[0] == '-', Decimal, signed);
        }
      }
    }

    /** Move to a suffix of the rest. */
    method SkipTo(r: string)
      requires Valid() && |r| <= |Rest()| && r == Rest()[|Rest()| - |r|..]
      modifies this`pos
      ensures Valid() && Rest() == r
    {
      pos := |text| - |r|;
    }

    method ExtractDigits(negative: bool, radix: Radix, signed: bool) returns (value: int)
      requires Valid()
      modifies this`pos, this`failed
      ensures Valid() && (View(), value) == TakeDigits(old(Rest()), negative, radix, signed)
    {
      var t := Rest();
      var n := if radix.Decimal? then DecRun(t) else HexRun(t);
      pos := pos + n;
      assert Rest() == t[n..];
      if n == 0 {
        failed, value := true, 0;
      } else {
        var (v, fits) := Represent(negative, Value(t[..n], radix), signed);
        value, failed := v, !fits;
      }
    }

    /** `get(buffer, delim)`: everything before the delimiter, white space included.
        Copying nothing sets the fail flag. */
    method Get(delim: char) returns (copied: string)
      requires Valid()
      modifies this`pos, this`failed
      ensures Valid()
      ensures old(failed) ==> copied == "" && View() == old(View())
      ensures !old(failed) ==> var n := UntilRun(old(Rest()), delim);
        copied == old(Rest())[..n] && View() == State(old(Rest())[n..], n == 0)
    {
      copied := "";
      if !failed {
        var n := UntilRun(Rest(), delim);
        copied := Rest()[..n];
        failed := n == 0;
        pos := pos + n;
      }
    }

    method Clear()
      requires Valid()
      modifies this`failed
      ensures Valid() && View() == State(old(Rest()), false)
    {
      failed := false;
    }

    /** `rdbuf()->in_avail()`: the number of characters left. */
    function InAvail(): nat
      reads this
      requires Valid()
    {
      |text| - pos
    }
  }
}
