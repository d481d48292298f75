/** Hexadecimal and decimal digits: the numbers they denote and how a stream prints them. */
module Digits {

  predicate IsDec(c: char) { '0' <= c <= '9' }

  predicate IsHex(c: char) { IsDec(c) || 'a' <= c <= 'f' || 'A' <= c <= 'F' }

  predicate AllHex(s: string) { forall c :: c in s ==> IsHex(c) }

  predicate AllDec(s: string) { forall c :: c in s ==> IsDec(c) }

  predicate AllLower(s: string) { forall c :: c in s ==> !('A' <= c <= 'Z') }

  function DigitValue(c: char): (v: nat)
    requires IsHex(c)
    ensures v < 16
    ensures IsDec(c) ==> v < 10
  {
    if IsDec(c) then (c - '0') as int
    else if 'a' <= c <= 'f' then (c - 'a') as int + 10
    else (c - 'A') as int + 10
  }

  /** The two bases the codec reads and prints. */
  datatype Radix = Decimal | Hexadecimal {
    function Base(): nat { if Decimal? then 10 else 16 }

    /** Append the digit `d` to the number `q`. */
    function Push(q: nat, d: nat): nat { if Decimal? then q * 10 + d else q * 16 + d }

    function Last(v: nat): (d: nat)
      ensures d < Base()
    {
      if Decimal? then v % 10 else v % 16
    }

    function Init(v: nat): (q: nat)
      ensures v == Push(q, Last(v))
      ensures v >= Base() ==> 0 < q < v
    {
      if Decimal? then v / 10 else v / 16
    }
  }

  lemma PushInverse(radix: Radix, q: nat, d: nat)
    requires d < radix.Base()
    ensures radix.Init(radix.Push(q, d)) == q && radix.Last(radix.Push(q, d)) == d
    ensures radix.Push(q, d) < radix.Base() <==> q == 0
  {
  }

  /** The number a digit string denotes, most significant digit first. */
  function Value(s: string, radix: Radix): nat
    requires AllHex(s)
  {
    if s == "" then 0 else radix.Push(Value(s[..|s| - 1], radix), DigitValue(s[|s| - 1]))
  }

  /** The digit a stream prints: lower case (section 4.3 of RFC 5952). */
  function Digit(v: nat): (c: char)
    requires v < 16
    ensures IsHex(c) && DigitValue(c) == v
    ensures !('A' <= c <= 'Z')
    ensures v < 10 ==> IsDec(c)
    ensures c == '0' <==> v == 0
  {
    if v < 10 then '0' + v as char else 'a' + (v - 10) as char
  }

  /** The characters the class [A-Fa-f0-9] holds. */
  lemma HexSet(c: char)
    ensures IsHex(c) <==> c in "0123456789abcdefABCDEF"
    ensures IsDec(c) <==> c in "0123456789"
  {
  }

  /** What each digit is worth, and which one is printed. */
  lemma DigitTable(k: nat)
    requires k < 16
    ensures IsHex("0123456789abcdef"[k]) && DigitValue("0123456789abcdef"[k]) == k
    ensures IsHex("0123456789ABCDEF"[k]) && DigitValue("0123456789ABCDEF"[k]) == k
    ensures Digit(k) == "0123456789abcdef"[k]
  {
  }

  /** A number in its digits: each one counts the base times the next. */
  lemma ValuePlaces(s: string, c: char, radix: Radix)
    requires AllHex(s) && IsHex(c)
    ensures AllHex(s + [c]) && Value(s + [c], radix) == Value(s, radix) * (if radix.Decimal? then 10 else 16) + DigitValue(c)
    ensures Value("", radix) == 0
  {
    assert (s + [c])[..|s|] == s;
  }

  /** Up to four hexadecimal digits by their places. */
  lemma HexPlaces(f: string)
    requires AllHex(f) && 1 <= |f| <= 4
    ensures Value(f, Hexadecimal) ==
      if |f| == 1 then DigitValue(f[0])
      else if |f| == 2 then DigitValue(f[0]) * 16 + DigitValue(f[1])
      else if |f| == 3 then DigitValue(f[0]) * 256 + DigitValue(f[1]) * 16 + DigitValue(f[2])
      else DigitValue(f[0]) * 4096 + DigitValue(f[1]) * 256 + DigitValue(f[2]) * 16 + DigitValue(f[3])
  {
    var n := |f| - 1;
    assert f == f[..n] + [f[n]];
    ValuePlaces("", f[0], Hexadecimal);
    assert f[..1] == "" + [f[0]];
    if n >= 1 { HexPlaces(f[..n]); }
  }

  /** A number as a stream prints it. */
  function Numeral(v: nat, radix: Radix): (s: string)
    ensures s != "" && AllHex(s) && AllLower(s)
    ensures radix.Decimal? ==> AllDec(s)
    decreases v
  {
    if v < radix.Base() then [Digit(v)] else Numeral(radix.Init(v), radix) + [Digit(radix.Last(v))]
  }

  /** Reading a printed number gives it back. */
  lemma {:induction false} ValueNumeral(v: nat, radix: Radix)
    ensures Value(Numeral(v, radix), radix) == v
    decreases v
  {
    var s := Numeral(v, radix);
    if v < radix.Base() {
      assert Value(s[..0], radix) == 0;
    } else {
      ValueNumeral(radix.Init(v), radix);
      assert s[..|s| - 1] == Numeral(radix.Init(v), radix);
    }
  }

  /** No leading zero, "0" itself excepted (section 4.1 of RFC 5952). */
  predicate Canonical(s: string) {
    |s| == 1 || (s != "" && s[0] != '0')
  }

  /** Every character is a digit of the radix. */
  predicate DigitsOf(s: string, radix: Radix) {
    if radix.Decimal? then AllDec(s) else AllHex(s)
  }

  lemma {:induction false} NumeralCanonical(v: nat, radix: Radix)
    ensures Canonical(Numeral(v, radix))
    ensures v > 0 ==> Numeral(v, radix)[0] != '0'
    decreases v
  {
    if v >= radix.Base() {
      NumeralCanonical(radix.Init(v), radix);
    }
  }

  lemma {:induction false} CanonicalPositive(s: string, radix: Radix)
    requires AllHex(s) && s != "" && s[0] != '0'
    ensures Value(s, radix) > 0
  {
    if |s| == 1 {
      assert Value(s[..0], radix) == 0;
    } else {
      CanonicalPositive(s[..|s| - 1], radix);
    }
  }

  lemma DigitOfValue(c: char)
    requires IsHex(c) && !('A' <= c <= 'Z')
    ensures Digit(DigitValue(c)) == c
  {
  }

  /** A lower-case digit string without leading zeros is the printed form of its value. */
  lemma {:induction false} NumeralValue(s: string, radix: Radix)
    requires AllHex(s) && AllLower(s) && Canonical(s) && DigitsOf(s, radix)
    ensures Numeral(Value(s, radix), radix) == s
  {
    var n := |s| - 1;
    var init, last := s[..n], s[n];
    assert last in s;
    DigitOfValue(last);
    PushInverse(radix, Value(init, radix), DigitValue(last));
    assert s == init + [last];
    if n > 0 {
      assert forall c :: c in init ==> c in s;
      CanonicalPositive(init, radix);
      NumeralValue(init, radix);
    }
  }

  /** No string of digits for a number is shorter than its printed form. */
  lemma {:induction false} NumeralShortest(s: string, radix: Radix)
    requires AllHex(s) && s != "" && DigitsOf(s, radix)
    ensures |Numeral(Value(s, radix), radix)| <= |s|
  {
    var n := |s| - 1;
    var init, last := s[..n], s[n];
    assert last in s;
    PushInverse(radix, Value(init, radix), DigitValue(last));
    if n > 0 {
      assert forall c :: c in init ==> c in s;
      NumeralShortest(init, radix);
    }
  }

  /** At most four hexadecimal digits stay below 65536, at most three decimal ones below 1000. */
  lemma ValueBound(s: string)
    requires AllHex(s)
    ensures |s| <= 4 ==> Value(s, Hexadecimal) < 65536
    ensures |s| <= 3 && AllDec(s) ==> Value(s, Decimal) < 1000
  {
    if 0 < |s| <= 4 {
      assert forall c :: c in s[..|s| - 1] ==> c in s;
      assert s[|s| - 1] in s;
      ValueBoundAt(s);
    }
  }

  lemma {:induction false} ValueBoundAt(s: string)
    requires AllHex(s) && |s| <= 4
    ensures |s| == 0 ==> Value(s, Hexadecimal) < 1
    ensures |s| == 1 ==> Value(s, Hexadecimal) < 16
    ensures |s| == 2 ==> Value(s, Hexadecimal) < 256
    ensures |s| == 3 ==> Value(s, Hexadecimal) < 4096
    ensures |s| == 4 ==> Value(s, Hexadecimal) < 65536
    ensures AllDec(s) && |s| == 0 ==> Value(s, Decimal) < 1
    ensures AllDec(s) && |s| == 1 ==> Value(s, Decimal) < 10
    ensures AllDec(s) && |s| == 2 ==> Value(s, Decimal) < 100
    ensures AllDec(s) && |s| == 3 ==> Value(s, Decimal) < 1000
  {
    if s != "" {
      assert forall c :: c in s[..|s| - 1] ==> c in s;
      assert s[|s| - 1] in s;
      ValueBoundAt(s[..|s| - 1]);
    }
  }

  /** Four digits are enough for a 16-bit group, three for an octet. */
  lemma NumeralLength(v: nat)
    ensures v < 65536 ==> |Numeral(v, Hexadecimal)| <= 4
    ensures v < 256 ==> |Numeral(v, Decimal)| <= 3
  {
    if v < 65536 {
      NumeralLengthStep(v, Hexadecimal);
      NumeralLengthStep(v / 16, Hexadecimal);
      NumeralLengthStep(v / 16 / 16, Hexadecimal);
    }
    if v < 256 {
      NumeralLengthStep(v, Decimal);
      NumeralLengthStep(v / 10, Decimal);
    }
  }

  lemma NumeralLengthStep(v: nat, radix: Radix)
    ensures v < radix.Base() ==> |Numeral(v, radix)| == 1
    ensures v >= radix.Base() ==> |Numeral(v, radix)| == |Numeral(radix.Init(v), radix)| + 1
  {
  }
}
