/** TransportFactory::build_send_resources and build_receiver_resources: channels are opened
    into a list that only grows, and the first resource with the locator is handed out. */
module Resources {
  import opened Locators

  datatype Option<T> = None | Some(value: T)

  /** A sender or receiver resource; `id` tells two resources apart. */
  datatype Resource = Resource(id: nat, locator: LocatorValue)

  /** std::find_if: the first resource with the locator. */
  function Lookup(list: seq<Resource>, locator: LocatorValue): (r: Option<Resource>)
    ensures r.Some? ==> r.value in list && r.value.locator == locator
    ensures r.None? ==> forall x :: x in list ==> x.locator != locator
  {
    if list == [] then None
    else if list[0].locator == locator then Some(list[0])
    else Lookup(list[1..], locator)
  }

  lemma {:induction false} LookupGrows(list: seq<Resource>, more: seq<Resource>, locator: LocatorValue)
    ensures Lookup(list, locator).Some? ==> Lookup(list + more, locator) == Lookup(list, locator)
    ensures Lookup(list, locator).None? ==> Lookup(list + more, locator) == Lookup(more, locator)
  {
    if list == [] {
      assert list + more == more;
    } else {
      assert (list + more)[1..] == list[1..] + more;
      LookupGrows(list[1..], more, locator);
    }
  }

  /** What opening a channel does, which the operating system decides: nothing, one more
      resource, or a refusal that makes the receiving side give up. */
  datatype Opening = Nothing | Opened(id: nat) | Refused

  /** A call: the locator, whether some registered transport has its kind, and the outcome
      of opening the channel. */
  datatype Call = Call(locator: LocatorValue, supported: bool, opening: Opening)

  function Grow(list: seq<Resource>, call: Call): seq<Resource> {
    if call.supported && call.opening.Opened? then list + [Resource(call.opening.id, call.locator)] else list
  }

  /** build_send_resources ignores a refusal, build_receiver_resources returns null. */
  function Answer(list: seq<Resource>, call: Call, receiving: bool): Option<Resource> {
    if receiving && call.supported && call.opening.Refused? then None
    else Lookup(Grow(list, call), call.locator)
  }

  function After(calls: seq<Call>): seq<Resource> {
    if calls == [] then [] else Grow(After(calls[..|calls| - 1]), calls[|calls| - 1])
  }

  /** The answer to the `i`th call of a run. */
  function AnswerAt(calls: seq<Call>, i: nat, receiving: bool): Option<Resource>
    requires i < |calls|
  {
    Answer(After(calls[..i]), calls[i], receiving)
  }

  lemma {:induction false} AfterGrows(calls: seq<Call>, i: nat)
    requires i <= |calls|
    ensures After(calls[..i]) <= After(calls)
    decreases |calls|
  {
    if i < |calls| {
      AfterGrows(calls[..|calls| - 1], i);
      assert calls[..|calls| - 1][..i] == calls[..i];
    } else {
      assert calls[..i] == calls;
    }
  }

  lemma AfterStep(calls: seq<Call>, i: nat)
    requires i < |calls|
    ensures After(calls[..i + 1]) == Grow(After(calls[..i]), calls[i])
  {
    assert calls[..i + 1][..i] == calls[..i];
  }

  lemma AnswerIsLookup(calls: seq<Call>, i: nat, receiving: bool)
    requires i < |calls| && AnswerAt(calls, i, receiving).Some?
    ensures Lookup(After(calls), calls[i].locator) == AnswerAt(calls, i, receiving)
  {
    hide After, Lookup, Grow;
    var now, all := After(calls[..i + 1]), After(calls);
    AfterStep(calls, i);
    AfterGrows(calls, i + 1);
    assert all == now + all[|now|..];
    LookupGrows(now, all[|now|..], calls[i].locator);
  }

  /** Over any run: two calls with equal locators that both hand out a resource hand out the
      same one, and it carries that locator. */
  lemma SameResource(calls: seq<Call>, i: nat, j: nat, receiving: bool)
    requires i < |calls| && j < |calls| && calls[i].locator == calls[j].locator
    requires AnswerAt(calls, i, receiving).Some? && AnswerAt(calls, j, receiving).Some?
    ensures AnswerAt(calls, i, receiving) == AnswerAt(calls, j, receiving)
    ensures AnswerAt(calls, i, receiving).value.locator == calls[i].locator
  {
    AnswerIsLookup(calls, i, receiving);
    AnswerIsLookup(calls, j, receiving);
  }

  /** Once a resource for a locator exists, only a refused channel makes a later call for it
      return null. */
  lemma NullOnlyWhenRefused(calls: seq<Call>, i: nat, j: nat, receiving: bool)
    requires i < j < |calls| && calls[i].locator == calls[j].locator
    requires AnswerAt(calls, i, receiving).Some?
    ensures AnswerAt(calls, j, receiving).None? <==>
            receiving && calls[j].supported && calls[j].opening.Refused?
  {
    var list := After(calls[..j]);
    assert calls[..j][..i] == calls[..i];
    AnswerIsLookup(calls[..j], i, receiving);
    var more := if Grow(list, calls[j]) == list then [] else Grow(list, calls[j])[|list|..];
    assert Grow(list, calls[j]) == list + more;
    LookupGrows(list, more, calls[j].locator);
  }

  /** The call puts a resource for the locator into the list. */
  predicate Opens(call: Call, locator: LocatorValue) {
    call.supported && call.opening.Opened? && call.locator == locator
  }

  /** After any calls the list holds exactly what the supported calls opened. */
  lemma {:induction false} HeldIff(calls: seq<Call>, x: Resource)
    ensures x in After(calls) <==>
      exists i :: 0 <= i < |calls| && calls[i].supported && calls[i].opening == Opened(x.id) && calls[i].locator == x.locator
  {
    if calls != [] {
      var n := |calls| - 1;
      HeldIff(calls[..n], x);
      assert forall i :: 0 <= i < n ==> calls[..n][i] == calls[i];
    }
  }

  /** Looking up a locator finds what the first call that opened a channel for it put there. */
  lemma {:induction false} LookupFirst(calls: seq<Call>, j: nat)
    requires j < |calls| && Opens(calls[j], calls[j].locator)
    requires forall k :: 0 <= k < j ==> !Opens(calls[k], calls[j].locator)
    ensures Lookup(After(calls), calls[j].locator) == Some(Resource(calls[j].opening.id, calls[j].locator))
  {
    var locator, now, all := calls[j].locator, After(calls[..j + 1]), After(calls);
    AfterStep(calls, j);
    AfterGrows(calls, j + 1);
    var before := After(calls[..j]);
    if Lookup(before, locator).Some? {
      HeldIff(calls[..j], Lookup(before, locator).value);
    }
    LookupGrows(before, [Resource(calls[j].opening.id, locator)], locator);
    assert all == now + all[|now|..];
    LookupGrows(now, all[|now|..], locator);
  }

  /** The answer to any call of any run is the resource of the first call so far that was
      supported and opened a channel for the locator. */
  lemma AnswerFirst(calls: seq<Call>, i: nat, receiving: bool, j: nat)
    requires j <= i < |calls| && !(receiving && calls[i].supported && calls[i].opening == Refused)
    requires calls[j].supported && calls[j].opening.Opened? && calls[j].locator == calls[i].locator
    requires forall k :: 0 <= k < j ==>
      !(calls[k].supported && calls[k].opening.Opened? && calls[k].locator == calls[i].locator)
    ensures AnswerAt(calls, i, receiving) == Some(Resource(calls[j].opening.id, calls[i].locator))
  {
    var now := calls[..i + 1];
    AfterStep(calls, i);
    assert forall k :: 0 <= k <= i ==> now[k] == calls[k];
    LookupFirst(now, j);
  }

  lemma {:induction false} FirstOpening(calls: seq<Call>, locator: LocatorValue, j: nat) returns (first: nat)
    requires j < |calls| && Opens(calls[j], locator)
    ensures first <= j && Opens(calls[first], locator)
    ensures forall k :: 0 <= k < first ==> !Opens(calls[k], locator)
  {
    first := j;
    if k :| 0 <= k < j && Opens(calls[k], locator) { first := FirstOpening(calls, locator, k); }
  }

  /** So null means a refusal on the receiving side, or that no channel was ever opened for
      the locator; a call that opens one is never answered with null. */
  lemma NoneIff(calls: seq<Call>, i: nat, receiving: bool)
    requires i < |calls|
    ensures AnswerAt(calls, i, receiving).None? <==>
      || (receiving && calls[i].supported && calls[i].opening == Refused)
      || forall j :: 0 <= j <= i ==>
           !(calls[j].supported && calls[j].opening.Opened? && calls[j].locator == calls[i].locator)
    ensures calls[i].supported && calls[i].opening.Opened? ==> AnswerAt(calls, i, receiving).Some?
  {
    AfterStep(calls, i);
    var a := AnswerAt(calls, i, receiving);
    if a.Some? { HeldIff(calls[..i + 1], a.value); }
    if any :| 0 <= any <= i && Opens(calls[any], calls[i].locator) {
      var j := FirstOpening(calls, calls[i].locator, any);
      if !(receiving && calls[i].supported && calls[i].opening == Refused) {
        AnswerFirst(calls, i, receiving, j) by {
          assert forall k :: 0 <= k < j ==> !Opens(calls[k], calls[i].locator);
        }
      }
    }
  }

  class ResourceList {
    var items: seq<Resource>

    constructor ()
      ensures items == After([])
    {
      items := [];
    }

    method Find(locator: LocatorValue) returns (r: Option<Resource>)
      ensures r == Lookup(items, locator)
    {
      var it := 0;
      while it != |items|
        invariant 0 <= it <= |items|
        invariant Lookup(items, locator) == Lookup(items[it..], locator)
        decreases |items| - it
      {
        if locator == items[it].locator {
          return Some(items[it]);
        }
        assert items[it..][1..] == items[it + 1..];
        it := it + 1;
      }
      return None;
    }

    /** `kinds` are those of the registered transports, pairwise distinct. */
    method BuildSendResources(kinds: seq<int32>, locator: LocatorValue, opening: Opening)
      returns (r: Option<Resource>)
      requires forall i, j :: 0 <= i < j < |kinds| ==> kinds[i] != kinds[j]
      modifies this
      ensures var call := Call(locator, locator.kind in kinds, opening);
        items == Grow(old(items), call) && r == Answer(old(items), call, false)
      ensures items ==
        if locator.kind in kinds && opening.Opened? then old(items) + [Resource(opening.id, locator)] else old(items)
      ensures r.None? <==> forall x :: x in items ==> x.locator != locator
    {
      for i := 0 to |kinds|
        invariant items == Grow(old(items), Call(locator, locator.kind in kinds[..i], opening))
      {
        if kinds[i] == locator.kind {
          if opening.Opened? {
            items := items + [Resource(opening.id, locator)];
          }
        }
      }
      assert kinds[..|kinds|] == kinds;
      r := Find(locator);
    }

    method BuildReceiverResources(kinds: seq<int32>, locator: LocatorValue, opening: Opening)
      returns (r: Option<Resource>)
      modifies this
      ensures var call := Call(locator, locator.kind in kinds, opening);
        items == Grow(old(items), call) && r == Answer(old(items), call, true)
      ensures items ==
        if locator.kind in kinds && opening.Opened? then old(items) + [Resource(opening.id, locator)] else old(items)
      ensures r.None? <==>
        (locator.kind in kinds && opening == Refused) || forall x :: x in items ==> x.locator != locator
    {
      for i := 0 to |kinds|
        invariant items == old(items) && locator.kind !in kinds[..i]
      {
        if kinds[i] == locator.kind {
          if opening.Refused? {
            return None;
          }
          if opening.Opened? {
            items := items + [Resource(opening.id, locator)];
          }
          break;
        }
      }
      r := Find(locator);
    }
  }
}
