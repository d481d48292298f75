/** class TransportFactory: the registry of transports and the normalization of lists. */
module Factory {
  import opened Locators
  import opened LocatorLists
  import opened Normalize
  import opened Transports

  /** A transport descriptor. `create_transport` may return null and the new transport may
      fail to initialize; otherwise it supports the descriptor's kind. */
  datatype Descriptor = Descriptor(kind: int32, maxMessageSize: uint32, creates: bool, starts: bool)

  // ----- the registry over whole runs -----

  datatype Registry = Registry(kinds: seq<int32>, maxMessageSize: uint32)

  function Least(a: uint32, b: uint32): uint32 { if a < b then a else b }

  function Register(r: Registry, d: Descriptor): Registry {
    if d.kind in r.kinds || !d.creates || !d.starts then r
    else Registry(r.kinds + [d.kind], Least(d.maxMessageSize, r.maxMessageSize))
  }

  /** The registry of a new factory after the given calls. */
  function Run(ds: seq<Descriptor>): Registry {
    if ds == [] then Registry([], UINT32_MAX)
    else Register(Run(ds[..|ds| - 1]), ds[|ds| - 1])
  }

  /** The call that put a transport into the registry: the first working one of its kind. */
  predicate Creator(ds: seq<Descriptor>, i: int) {
    0 <= i < |ds| && ds[i].creates && ds[i].starts &&
    forall j :: 0 <= j < i && ds[j].creates && ds[j].starts ==> ds[j].kind != ds[i].kind
  }

  function WorkingKinds(ds: seq<Descriptor>): seq<int32> {
    if ds == [] then []
    else WorkingKinds(ds[..|ds| - 1]) + if ds[|ds| - 1].creates && ds[|ds| - 1].starts then [ds[|ds| - 1].kind] else []
  }

  lemma {:induction false} WorkingKindsElements(ds: seq<Descriptor>, k: int32)
    ensures k in WorkingKinds(ds) <==> exists i :: 0 <= i < |ds| && ds[i].creates && ds[i].starts && ds[i].kind == k
  {
    if ds != [] {
      var n := |ds| - 1;
      WorkingKindsElements(ds[..n], k);
      if i :| 0 <= i < |ds| && ds[i].creates && ds[i].starts && ds[i].kind == k {
        if i < n { assert ds[..n][i] == ds[i]; }
      }
    }
  }

  lemma {:induction false} RegistryFirst(ds: seq<Descriptor>)
    ensures Run(ds).kinds == FirstOccurrences(WorkingKinds(ds))
  {
    hide FirstOccurrences;
    if ds == [] {
      FirstOccurrencesFixed<int32>([]);
    } else {
      var n := |ds| - 1;
      var kinds := WorkingKinds(ds[..n]);
      RegistryFirst(ds[..n]);
      FirstOccurrencesDistinct(kinds);
      FirstOccurrencesSnoc(kinds, ds[n].kind);
      assert kinds + [] == kinds;
    }
  }

  /** After any calls the registered kinds are the kinds of the working descriptors without
      repetition, in the order of the calls. */
  lemma {:induction false} RegistryKinds(ds: seq<Descriptor>)
    ensures Run(ds).kinds == FirstOccurrences(WorkingKinds(ds))
    ensures Distinct(Run(ds).kinds)
    ensures forall k :: k in Run(ds).kinds <==> exists i :: 0 <= i < |ds| && ds[i].creates && ds[i].starts && ds[i].kind == k
  {
    hide Run, WorkingKinds, FirstOccurrences;
    RegistryFirst(ds);
    FirstOccurrencesDistinct(WorkingKinds(ds));
    forall k ensures k in Run(ds).kinds <==> exists i :: 0 <= i < |ds| && ds[i].creates && ds[i].starts && ds[i].kind == k {
      WorkingKindsElements(ds, k);
    }
  }

  /** The kinds stand in the order in which they were first registered. */
  lemma {:induction false} RegistryOrder(ds: seq<Descriptor>, p: nat, q: nat)
    requires p < q < |Run(ds).kinds|
    ensures var kinds := Run(ds).kinds;
      exists i :: 0 <= i < |ds| && ds[i].creates && ds[i].starts && ds[i].kind == kinds[p] && (
        forall j :: 0 <= j <= i && ds[j].creates && ds[j].starts ==> ds[j].kind != kinds[q])
  {
    var n := |ds| - 1;
    var init, before := ds[..n], Run(ds[..n]).kinds;
    assert forall j :: 0 <= j < n ==> init[j] == ds[j];
    if q < |before| {
      RegistryOrder(init, p, q);
    } else {
      RegistryKinds(init);
      assert before[p] in before;
    }
  }

  lemma CreatorPrefix(ds: seq<Descriptor>, i: int)
    requires ds != [] && i < |ds| - 1
    ensures Creator(ds, i) <==> Creator(ds[..|ds| - 1], i)
  {
    assert forall j :: 0 <= j < |ds| - 1 ==> ds[..|ds| - 1][j] == ds[j];
  }

  lemma CreatorLast(ds: seq<Descriptor>)
    requires ds != []
    ensures var n := |ds| - 1;
      Creator(ds, n) <==> ds[n].creates && ds[n].starts && ds[n].kind !in Run(ds[..n]).kinds
  {
    var n := |ds| - 1;
    RegistryKinds(ds[..n]);
    assert forall j :: 0 <= j < n ==> ds[..n][j] == ds[j];
  }

  /** After any calls the message size is the least of 2^32-1 and the sizes of exactly those
      descriptors that put a transport into the registry. */
  lemma {:induction false} RegistrySize(ds: seq<Descriptor>)
    ensures forall i :: Creator(ds, i) ==> Run(ds).maxMessageSize <= ds[i].maxMessageSize
    ensures Run(ds).maxMessageSize == UINT32_MAX
         || exists i :: Creator(ds, i) && Run(ds).maxMessageSize == ds[i].maxMessageSize
  {
    if ds != [] {
      var n := |ds| - 1;
      var init, size := ds[..n], Run(ds[..n]).maxMessageSize;
      RegistrySize(init);
      CreatorLast(ds);
      forall i | Creator(ds, i) ensures Run(ds).maxMessageSize <= ds[i].maxMessageSize {
        if i < n { CreatorPrefix(ds, i); }
      }
      if Creator(ds, n) && ds[n].maxMessageSize < size {
        assert Run(ds).maxMessageSize == ds[n].maxMessageSize;
      } else if i :| Creator(init, i) && size == init[i].maxMessageSize {
        CreatorPrefix(ds, i);
        assert Creator(ds, i) && size == ds[i].maxMessageSize;
      }
    }
  }

  /** Registering a kind again, with whatever size, changes nothing. */
  lemma RegisterAgain(ds: seq<Descriptor>, d: Descriptor, e: Descriptor)
    requires d.creates && d.starts && d.kind == e.kind && d in ds
    ensures Register(Run(ds), e) == Run(ds)
  {
    RegistryKinds(ds);
    var i :| 0 <= i < |ds| && ds[i] == d;
  }

  // ----- the class -----

  class TransportFactory {
    var registered: seq<int32>
    var maxMessageSize: uint32
    var minSendBufferSize: uint32

    function State(): Registry
      reads this
    {
      Registry(registered, maxMessageSize)
    }

    ghost predicate Valid()
      reads this
    {
      Distinct(registered)
    }

    constructor ()
      ensures Valid() && State() == Run([]) && minSendBufferSize == UINT32_MAX
    {
      registered := [];
      maxMessageSize := UINT32_MAX;
      minSendBufferSize := UINT32_MAX;
    }

    /** std::find_if over the kinds. */
    method FindKind(kind: int32) returns (index: nat)
      ensures index <= |registered|
      ensures index < |registered| ==> registered[index] == kind
      ensures index == |registered| <==> kind !in registered
    {
      index := 0;
      while index < |registered| && registered[index] != kind
        invariant 0 <= index <= |registered| && kind !in registered[..index]
      {
        index := index + 1;
      }
      assert registered[..|registered|] == registered;
    }

    method RegisterTransport(descriptor: Descriptor) returns (wasRegistered: bool)
      requires Valid()
      modifies this
      ensures Valid() && State() == Register(old(State()), descriptor)
      ensures wasRegistered <==> descriptor.kind in old(registered) || (descriptor.creates && descriptor.starts)
      ensures registered == old(registered) +
        if wasRegistered && descriptor.kind !in old(registered) then [descriptor.kind] else []
      ensures wasRegistered <==> descriptor.kind in registered
      ensures minSendBufferSize == old(minSendBufferSize)
    {
      var it := FindKind(descriptor.kind);
      if it != |registered| {
        return true;
      }
      wasRegistered := false;
      var minSize := UINT32_MAX;
      if descriptor.creates {
        if descriptor.starts {
          registered := registered + [descriptor.kind];
          wasRegistered := true;
        }
        if wasRegistered {
          if descriptor.maxMessageSize < maxMessageSize {
            maxMessageSize := descriptor.maxMessageSize;
          }
          minSendBufferSize := Least(minSize, minSendBufferSize);
        }
      }
    }

    /** The inner loop has no break: that it does what "first transport that supports it"
        says rests on the kinds being distinct. */
    method NormalizeLocators(locators: LocatorList, v4: seq<LocatorValue>, v6: seq<LocatorValue>)
      requires Valid() && Known(Env(registered, v4, v6))
      modifies locators
      ensures locators.Valid()
      ensures locators.locators == Normalized(Env(registered, v4, v6), old(locators.locators))
      ensures var env := Env(registered, v4, v6);
        forall x :: x in locators.locators <==> exists l :: l in old(locators.locators) && Makes(env, l, x)
    {
      hide AddAll, Flat, Normalized, Makes;
      ghost var env := Env(registered, v4, v6);
      NormalizedNone(env);
      var normalizedLocators := new LocatorList();
      var items := locators.locators;
      for i := 0 to |items|
        invariant normalizedLocators.Valid() && fresh(normalizedLocators)
        invariant normalizedLocators.locators == Normalized(env, items[..i])
      {
        var loc := items[i];
        var normalized := false;
        ghost var before := normalizedLocators.locators;
        for j := 0 to |registered|
          invariant normalizedLocators.Valid() && fresh(normalizedLocators)
          invariant normalized <==> loc.kind in registered[..j]
          invariant normalizedLocators.locators == if normalized then AddAll(before, One(env, loc)) else before
        {
          if registered[j] == loc.kind {
            var list;
            if registered[j] == KIND_UDPv4 {
              list := NormalizeUDPv4(loc, v4);
            } else {
              list := NormalizeUDPv6(loc, v6);
            }
            normalizedLocators.PushBackList(list);
            normalized := true;
          }
        }
        assert registered[..|registered|] == registered;
        if !normalized {
          normalizedLocators.PushBack(loc);
          AddAllOne(before, loc);
        }
        FlatSnoc(env, items[..i], loc);
        assert items[..i + 1] == items[..i] + [loc];
      }
      assert items[..|items|] == items;
      NormalizedMakes(env, items);
      locators.Swap(normalizedLocators);
    }
  }
}
