/** IPLocator::toIPv6string, the printer that follows section 4 of RFC 5952. */
module IPv6Printer {
  import opened Text
  import opened Digits
  import opened Locators
  import opened ZeroRuns

  // ----- the recommended text, independently of how it is printed -----

  function Hex(v: nat): string { Numeral(v, Hexadecimal) }

  function Texts(g: seq<nat>): (ts: seq<string>)
    ensures |ts| == |g| && forall i :: 0 <= i < |g| ==> ts[i] == Hex(g[i])
  {
    seq(|g|, i requires 0 <= i < |g| => Hex(g[i]))
  }

  /** The text in which "::" stands for the `n` groups from `a` on. */
  function Compressed(g: seq<nat>, a: nat, n: nat): string
    requires a + n <= |g|
  {
    Join(Texts(g[..a])) + "::" + Join(Texts(g[a + n..]))
  }

  function CanonicalText(g: seq<nat>): string {
    var (a, n) := LongestRun(g);
    if n >= 2 then Compressed(g, a, n) else Join(Texts(g))
  }

  // ----- the code -----

  /** The first loop and the check behind it: where the longest zero run starts, in bytes,
      and how many groups it has. */
  method ScanZeros(locator: Locator) returns (maxBlockIndex: nat, maxBlockSize: nat)
    requires locator.Valid()
    ensures var (a, n) := LongestRun(GroupsOf(locator.address[..]));
      maxBlockIndex == 2 * a && maxBlockSize == n
  {
    hide GroupsOf, LongestRun;
    maxBlockIndex, maxBlockSize := 0, 0;
    var actualBlockIndex, actualBlockSize := 0, 0;
    var compress := false;
    ghost var g := GroupsOf(locator.address[..]);
    // The group indices behind the byte indices i, maxBlockIndex and actualBlockIndex.
    ghost var k, m, c := 0, 0, 0;
    var i := 0;
    while i != 16
      invariant 0 <= k <= 8 && i == 2 * k && maxBlockIndex == 2 * m && actualBlockIndex == 2 * c
      invariant !compress ==> LongestIn(g, k, m, maxBlockSize)
      invariant compress ==>
        && c < k && actualBlockSize == k - c && LongestIn(g, c, m, maxBlockSize)
        && ZeroRun(g, c, k - c) && (c > 0 ==> g[c - 1] != 0)
      invariant !compress && k > 0 ==> g[k - 1] != 0
      decreases 16 - i
    {
      GroupsOfAt(locator.address[..], k);
      if locator.address[i] == 0 && locator.address[i + 1] == 0 {
        if compress {
          actualBlockSize := actualBlockSize + 1;
        } else {
          compress := true;
          actualBlockIndex := i;
          c := k;
          actualBlockSize := 1;
        }
      } else {
        if compress {
          CloseRun(g, c, k, m, maxBlockSize);
          compress := false;
          if actualBlockSize > maxBlockSize {
            maxBlockIndex := actualBlockIndex;
            m := c;
            maxBlockSize := actualBlockSize;
          }
        }
        SkipNonzero(g, k, m, maxBlockSize);
      }
      i := i + 2;
      k := k + 1;
    }
    if compress {
      CloseRun(g, c, 8, m, maxBlockSize);
    }
    if compress && actualBlockSize > maxBlockSize {
      maxBlockIndex := actualBlockIndex;
      m := c;
      maxBlockSize := actualBlockSize;
    }
    var (a, n) := LongestRun(g);
    LongestUnique(g, m, maxBlockSize, a, n);
  }

  /** The groups from `lo` to `k` as the second loop prints them: the last of all groups is
      the only one without a colon behind it. */
  function Part(g: seq<nat>, lo: nat, k: nat): string
    requires |g| == 8 && lo <= k <= 8
  {
    if k < 8 then After(Texts(g[lo..k])) else Join(Texts(g[lo..]))
  }

  lemma PartStep(g: seq<nat>, lo: nat, k: nat)
    requires |g| == 8 && lo <= k < 8
    ensures Part(g, lo, k + 1) == Part(g, lo, k) + Hex(g[k]) + (if k < 7 then ":" else "")
  {
    hide Hex;
    var fs, f := Texts(g[lo..k]), Hex(g[k]);
    assert Texts(g[lo..k + 1]) == fs + [f];
    if k == 7 {
      assert g[lo..8] == g[lo..];
      JoinSnoc(fs, f);
    } else {
      AfterConcat(fs, [f]);
      assert After([f]) == f + ":" + After([f][1..]) == f + ":";
    }
  }

  /** What has been printed after `k` groups when the run of `n` groups at `a` is left out. */
  function Printed(g: seq<nat>, compress: bool, a: nat, n: nat, k: nat): string
    requires |g| == 8 && a + n <= 8 && k <= 8
  {
    var start := if a == 0 then ":" else "";
    if !compress then Part(g, 0, k)
    else if k < a then start + Part(g, 0, k)
    else if k < a + n then start + After(Texts(g[..a]))
    else start + After(Texts(g[..a])) + ":" + Part(g, a + n, k)
  }

  lemma PrintedStep(g: seq<nat>, compress: bool, a: nat, n: nat, k: nat)
    requires |g| == 8 && a + n <= 8 && k < 8 && (compress ==> n > 0)
    ensures Printed(g, compress, a, n, k + 1) == Printed(g, compress, a, n, k) +
      if compress && a <= k < a + n then if k + 1 == a + n then ":" else ""
      else Hex(g[k]) + if k < 7 then ":" else ""
  {
    hide Hex, Texts, After, Join;
    if !compress || k < a {
      PartStep(g, 0, k);
      assert g[0..a] == g[..a];
    } else if k + 1 == a + n {
      PartEmpty(g, a + n);
    } else if k >= a + n {
      PartStep(g, a + n, k);
    }
  }

  lemma PartEmpty(g: seq<nat>, lo: nat)
    requires |g| == 8 && lo <= 8
    ensures Part(g, lo, lo) == ""
  {
    assert Texts(g[lo..lo]) == [] && (lo == 8 ==> Texts(g[lo..]) == []);
  }

  lemma PrintedAll(g: seq<nat>, a: nat, n: nat)
    requires |g| == 8 && a + n <= 8 && n > 0
    ensures Printed(g, true, a, n, 8) == Compressed(g, a, n)
  {
    hide Hex;
    var fs, rest := Texts(g[..a]), Join(Texts(g[a + n..]));
    if a == 0 {
      assert fs == [];
    } else {
      JoinAfter(fs);
    }
    AroundDouble(Join(fs), After(fs), rest);
  }

  lemma AroundDouble(x: string, y: string, rest: string)
    ensures y == x + ":" ==> "" + y + ":" + rest == x + "::" + rest
    ensures x == y == "" ==> ":" + y + ":" + rest == x + "::" + rest
  {
    assert ":" + ":" == "::";
  }

  method ToIPv6String(locator: Locator) returns (text: string)
    requires locator.Valid()
    ensures text == CanonicalText(GroupsOf(locator.address[..]))
  {
    hide GroupsOf, LongestRun, Printed, Compressed, Join, Texts;
    ghost var g := GroupsOf(locator.address[..]);
    var maxBlockIndex, maxBlockSize := ScanZeros(locator);
    ghost var (a, n) := LongestRun(g);
    var compress := maxBlockSize >= 2;
    text := "";
    if compress && maxBlockIndex == 0 {
      text := text + ":";
    }
    PrintedNone(g, compress, a, n);
    var i := 0;
    ghost var k := 0;
    while i != 16
      invariant i == 2 * k && k <= 8
      invariant text == Printed(g, compress, a, n, k)
      invariant compress ==> maxBlockSize == if k < a then n else if k < a + n then a + n - k else 0
      decreases 16 - i
    {
      PrintedStep(g, compress, a, n, k);
      if compress && i >= maxBlockIndex && maxBlockSize > 0 {
        maxBlockSize := maxBlockSize - 1;
        if maxBlockSize == 0 {
          text := text + ":";
        }
        i := i + 2;
        k := k + 1;
        continue;
      }
      GroupsOfAt(locator.address[..], k);
      var field := Pair(locator.address[i], locator.address[i + 1]);
      if i != 14 {
        text := text + (Numeral(field, Hexadecimal) + ":");
      } else {
        text := text + Numeral(field, Hexadecimal);
      }
      i := i + 2;
      k := k + 1;
    }
    if compress { PrintedAll(g, a, n); } else { PrintedPlain(g, a, n); }
  }

  lemma PrintedNone(g: seq<nat>, compress: bool, a: nat, n: nat)
    requires |g| == 8 && a + n <= 8 && (compress ==> n > 0)
    ensures Printed(g, compress, a, n, 0) == if compress && a == 0 then ":" else ""
  {
    PartEmpty(g, 0);
    assert a == 0 ==> Texts(g[..a]) == [];
  }

  lemma PrintedPlain(g: seq<nat>, a: nat, n: nat)
    requires |g| == 8 && a + n <= 8
    ensures Printed(g, false, a, n, 8) == Join(Texts(g))
  {
    assert g[0..] == g;
  }
}
