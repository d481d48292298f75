/** class LocatorList, "a Locator vector that doesn't allow duplicates". */
module LocatorLists {
  import opened Locators

  predicate Distinct<T(==)>(s: seq<T>) {
    forall i, j :: 0 <= i < j < |s| ==> s[i] != s[j]
  }

  function Elements<T>(s: seq<T>): set<T> { set x | x in s }

  // ----- equality -----

  /** operator==: equal sizes, and every locator on the right is found on the left. */
  predicate ListEqual<T(==)>(left: seq<T>, right: seq<T>) {
    |left| == |right| && forall x :: x in right ==> x in left
  }

  lemma {:induction false} DistinctSize<T>(s: seq<T>)
    requires Distinct(s)
    ensures |Elements(s)| == |s|
  {
    if s != [] {
      var n := |s| - 1;
      DistinctSize(s[..n]);
      assert Elements(s) == Elements(s[..n]) + {s[n]};
    }
  }

  lemma SubsetSameSize<T>(a: set<T>, b: set<T>)
    requires a <= b && |a| == |b|
    ensures a == b
  {
    assert b == a + (b - a);
  }

  /** Inclusion one way is enough: by the pigeonhole principle equality of duplicate-free
      lists is equality of their sets. */
  lemma ListEqualIff<T>(left: seq<T>, right: seq<T>)
    requires Distinct(left) && Distinct(right)
    ensures ListEqual(left, right) <==> Elements(left) == Elements(right)
  {
    DistinctSize(left);
    DistinctSize(right);
    if ListEqual(left, right) {
      SubsetSameSize(Elements(right), Elements(left));
    }
    if Elements(left) == Elements(right) {
      forall x | x in right ensures x in left { assert x in Elements(right); }
    }
  }

  lemma ListEqualEquivalence<T>(a: seq<T>, b: seq<T>, c: seq<T>)
    requires Distinct(a) && Distinct(b) && Distinct(c)
    ensures ListEqual(a, a)
    ensures ListEqual(a, b) <==> ListEqual(b, a)
    ensures ListEqual(a, b) && ListEqual(b, c) ==> ListEqual(a, c)
  {
    ListEqualIff(a, b);
    ListEqualIff(b, a);
  }

  /** Without the invariant the operator is not even symmetric. */
  lemma ListEqualNeedsDistinct<T>(x: T, y: T)
    requires x != y
    ensures ListEqual([x, y], [x, x]) && !ListEqual([x, x], [x, y])
  {
    assert y in [x, y];
  }

  // ----- insertion -----

  function Add<T(==)>(s: seq<T>, x: T): seq<T> { if x in s then s else s + [x] }

  function AddAll<T(==)>(s: seq<T>, xs: seq<T>): seq<T>
    decreases |xs|
  {
    if xs == [] then s else AddAll(Add(s, xs[0]), xs[1..])
  }

  lemma AddAllOne<T>(s: seq<T>, x: T)
    ensures AddAll(s, [x]) == Add(s, x)
  {
    assert [x][1..] == [];
  }

  /** The elements that did not occur before, in order. */
  function FirstOccurrences<T(==)>(xs: seq<T>): seq<T> {
    if xs == [] then []
    else
      var init, last := xs[..|xs| - 1], xs[|xs| - 1];
      if last in init then FirstOccurrences(init) else FirstOccurrences(init) + [last]
  }

  lemma FirstOccurrencesSnoc<T>(xs: seq<T>, x: T)
    ensures FirstOccurrences(xs + [x]) == if x in xs then FirstOccurrences(xs) else FirstOccurrences(xs) + [x]
  {
    assert (xs + [x])[..|xs|] == xs;
  }

  lemma {:induction false} FirstOccurrencesDistinct<T>(xs: seq<T>)
    ensures Distinct(FirstOccurrences(xs))
    ensures forall x :: x in FirstOccurrences(xs) <==> x in xs
  {
    if xs != [] {
      FirstOccurrencesDistinct(xs[..|xs| - 1]);
      assert xs == xs[..|xs| - 1] + [xs[|xs| - 1]];
    }
  }

  lemma {:induction false} OccursAt<T>(xs: seq<T>, i: nat) returns (k: nat)
    requires i < |FirstOccurrences(xs)|
    ensures k < |xs| && xs[k] == FirstOccurrences(xs)[i]
  {
    var n := |xs| - 1;
    if i < |FirstOccurrences(xs[..n])| { k := OccursAt(xs[..n], i); } else { k := n; }
  }

  /** In the order in which they first occur: at some point the earlier has occurred and the
      later has not. */
  lemma {:induction false} FirstOccurrencesOrder<T>(xs: seq<T>, i: nat, j: nat)
    requires i < j < |FirstOccurrences(xs)|
    ensures var s := FirstOccurrences(xs);
      exists k :: 0 <= k < |xs| && xs[k] == s[i] && s[j] !in xs[..k + 1]
  {
    var init, last := xs[..|xs| - 1], xs[|xs| - 1];
    var s := FirstOccurrences(init);
    if j < |s| {
      FirstOccurrencesOrder(init, i, j);
      var k :| 0 <= k < |init| && init[k] == s[i] && s[j] !in init[..k + 1];
      assert xs[..k + 1] == init[..k + 1];
    } else {
      var k := OccursAt(init, i);
      assert xs[..k + 1] == init[..k + 1] && last !in init;
    }
  }

  lemma {:induction false} AddAllFirst<T>(ys: seq<T>, xs: seq<T>)
    ensures AddAll(FirstOccurrences(ys), xs) == FirstOccurrences(ys + xs)
    decreases |xs|
  {
    if xs == [] {
      assert ys + xs == ys;
    } else {
      FirstOccurrencesDistinct(ys);
      assert (ys + [xs[0]])[..|ys|] == ys;
      assert ys + xs == (ys + [xs[0]]) + xs[1..];
      AddAllFirst(ys + [xs[0]], xs[1..]);
    }
  }

  /** A duplicate-free list is its own deduplication. */
  lemma {:induction false} FirstOccurrencesFixed<T>(s: seq<T>)
    requires Distinct(s)
    ensures FirstOccurrences(s) == s
  {
    if s != [] {
      FirstOccurrencesFixed(s[..|s| - 1]);
      assert s == s[..|s| - 1] + [s[|s| - 1]];
    }
  }

  lemma AddAllIs<T>(s: seq<T>, xs: seq<T>)
    requires Distinct(s)
    ensures AddAll(s, xs) == FirstOccurrences(s + xs)
    ensures Distinct(AddAll(s, xs))
    ensures forall x :: x in AddAll(s, xs) <==> x in s || x in xs
  {
    FirstOccurrencesFixed(s);
    AddAllFirst(s, xs);
    FirstOccurrencesDistinct(s + xs);
  }

  lemma {:induction false} AddAllPresent<T>(s: seq<T>, xs: seq<T>)
    requires forall x :: x in xs ==> x in s
    ensures AddAll(s, xs) == s
  {
    if xs != [] {
      assert forall x :: x in xs[1..] ==> x in xs;
      AddAllPresent(s, xs[1..]);
    }
  }

  lemma {:induction false} AddAllSnoc<T>(s: seq<T>, xs: seq<T>, x: T)
    ensures AddAll(s, xs + [x]) == Add(AddAll(s, xs), x)
    decreases |xs|
  {
    if xs == [] {
      assert AddAll(s, [x]) == AddAll(Add(s, x), [x][1..]);
      assert xs + [x] == [x];
    } else {
      assert (xs + [x])[1..] == xs[1..] + [x];
      AddAllSnoc(Add(s, xs[0]), xs[1..], x);
    }
  }

  lemma {:induction false} AddAllConcat<T>(s: seq<T>, xs: seq<T>, ys: seq<T>)
    ensures AddAll(s, xs + ys) == AddAll(AddAll(s, xs), ys)
    decreases |xs|
  {
    if xs == [] {
      assert xs + ys == ys;
    } else {
      assert (xs + ys)[1..] == xs[1..] + ys;
      AddAllConcat(Add(s, xs[0]), xs[1..], ys);
    }
  }

  /** A call of one of the two overloads of push_back. */
  datatype Push<T> = Single(item: T) | Several(items: seq<T>) {
    function Items(): seq<T> { if Single? then [item] else items }
  }

  function RunPushes<T(==)>(s: seq<T>, calls: seq<Push<T>>): seq<T>
    decreases |calls|
  {
    if calls == [] then s
    else RunPushes(
      match calls[0] case Single(x) => Add(s, x) case Several(xs) => AddAll(s, xs), calls[1..])
  }

  function Pushed<T>(calls: seq<Push<T>>): seq<T> {
    if calls == [] then [] else calls[0].Items() + Pushed(calls[1..])
  }

  lemma {:induction false} RunPushesAdds<T>(s: seq<T>, calls: seq<Push<T>>)
    ensures RunPushes(s, calls) == AddAll(s, Pushed(calls))
    decreases |calls|
  {
    if calls != [] {
      var xs := calls[0].Items();
      if calls[0].Single? {
        assert xs[1..] == [];
        assert AddAll(s, xs) == Add(s, xs[0]);
      }
      RunPushesAdds(AddAll(s, xs), calls[1..]);
      AddAllConcat(s, xs, Pushed(calls[1..]));
    }
  }

  /** Whatever is pushed in whatever portions, an empty list becomes the inputs without
      their repetitions, in the order of first occurrence. */
  lemma BulkInsert<T>(calls: seq<Push<T>>)
    ensures RunPushes([], calls) == FirstOccurrences(Pushed(calls))
    ensures Distinct(RunPushes([], calls))
  {
    RunPushesAdds([], calls);
    AddAllIs([], Pushed(calls));
    assert [] + Pushed(calls) == Pushed(calls);
  }

  // ----- the class -----

  class LocatorList {
    var locators: seq<LocatorValue>

    ghost predicate Valid()
      reads this
    {
      Distinct(locators)
    }

    constructor ()
      ensures Valid() && locators == []
    {
      locators := [];
    }

    method Equals(other: LocatorList) returns (equal: bool)
      ensures equal <==> ListEqual(locators, other.locators)
    {
      if |other.locators| == |locators| {
        var returnedValue := true;
        var it := 0;
        while returnedValue && it != |other.locators|
          invariant 0 <= it <= |other.locators|
          invariant returnedValue <==> forall k :: 0 <= k < it ==> other.locators[k] in locators
          decreases |other.locators| - it
        {
          returnedValue := false;
          var it2 := 0;
          while !returnedValue && it2 != |locators|
            invariant 0 <= it2 <= |locators|
            invariant returnedValue <==> other.locators[it] in locators[..it2]
            decreases |locators| - it2, !returnedValue
          {
            if other.locators[it] == locators[it2] {
              returnedValue := true;
            }
            it2 := it2 + 1;
          }
          assert locators[..|locators|] == locators;
          it := it + 1;
        }
        return returnedValue;
      }
      return false;
    }

    /** Equal lists are not copied, so the order may stay the old one. */
    method Assign(other: LocatorList)
      modifies this
      ensures locators == if ListEqual(old(locators), old(other.locators)) then old(locators) else old(other.locators)
      ensures ListEqual(locators, old(other.locators))
      ensures old(Valid() && other.Valid()) ==> Valid()
    {
      var same := Equals(other);
      if !same {
        locators := other.locators;
      }
    }

    method Clear()
      modifies this
      ensures Valid() && locators == []
    {
      locators := [];
    }

    method PushBack(loc: LocatorValue)
      requires Valid()
      modifies this
      ensures Valid() && locators == Add(old(locators), loc)
    {
      var already := false;
      var it := 0;
      while it != |locators|
        invariant 0 <= it <= |locators| && locators == old(locators)
        invariant !already && loc !in locators[..it]
        decreases |locators| - it
      {
        if loc == locators[it] {
          already := true;
          break;
        }
        it := it + 1;
      }
      if !already {
        assert locators[..|locators|] == locators;
        locators := locators + [loc];
      }
    }

    /** The list may be pushed into itself: nothing is new then. */
    method PushBackList(list: LocatorList)
      requires Valid()
      modifies this
      ensures Valid() && locators == AddAll(old(locators), old(list.locators))
      ensures list == this ==> locators == old(locators)
    {
      ghost var items := list.locators;
      AddAllPresent(items, items);
      var it := 0;
      while it != |list.locators|
        invariant list.locators == items && Valid()
        invariant 0 <= it <= |items|
        invariant locators == AddAll(old(locators), items[..it])
        decreases |items| - it
      {
        AddAllSnoc(old(locators), items[..it], items[it]);
        assert items[..it + 1] == items[..it] + [items[it]];
        PushBack(list.locators[it]);
        it := it + 1;
      }
      assert items[..it] == items;
    }

    method Swap(other: LocatorList)
      modifies this, other
      ensures locators == old(other.locators) && other.locators == old(locators)
      ensures old(Valid() && other.Valid()) ==> Valid() && other.Valid()
    {
      locators, other.locators := other.locators, locators;
    }
  }
}
