/** The route-adding step of RoutesConfigurer: addDiscoveredRoutes sorts the route builders by
    their order, hands them to the CamelContext in three passes (route configurations, routes,
    templated routes), and fails when its DuplicateRouteDetector has seen a route id twice.

    The CamelContext is represented by the log of the calls made to it; each route definition it
    adds is reported to the detector, as the model lifecycle strategy does. */
module RouteDiscovery {
  import opened Wrappers

  // ---------------------------------------------------------------------------------------
  // Route definitions and the keys the detector records

  /** What the detector reads of a RouteDefinition. */
  datatype RouteDefinition = RouteDefinition(routeId: Option<string>, inlined: bool, nodePrefixId: Option<string>)

  /** The key recorded for a definition: its explicit route id followed by its node prefix id
      (nothing when that is null); no key for a definition without an explicit id, or an
      inlined one. */
  function RouteKey(d: RouteDefinition): (key: Option<string>)
    ensures key.None? <==> d.routeId.None? || d.routeId.value == "" || d.inlined
    ensures key.Some? ==>
              var prefix := if d.nodePrefixId.Some? then d.nodePrefixId.value else "";
              |key.value| == |d.routeId.value| + |prefix| &&
              key.value[..|d.routeId.value|] == d.routeId.value && key.value[|d.routeId.value|..] == prefix
  {
    if d.routeId.None? || d.routeId.value == "" then None
    else if d.inlined then None
    else Some(d.routeId.value + (if d.nodePrefixId.Some? then d.nodePrefixId.value else ""))
  }

  /** The keys recorded for `ds`, in order. */
  function Keys(ds: seq<RouteDefinition>): seq<string> {
    if ds == [] then []
    else
      var key := RouteKey(ds[|ds| - 1]);
      Keys(ds[..|ds| - 1]) + (if key.Some? then [key.value] else [])
  }

  /** DuplicateRouteDetector: the list of keys of the route definitions added so far. */
  class DuplicateRouteDetector {
    var ids: seq<string>

    constructor()
      ensures ids == []
    {
      ids := [];
    }

    method Clear()
      modifies this
      ensures ids == []
    {
      ids := [];
    }

    /** onAddRouteDefinition: records the definition's key, if it has one, and nothing else. */
    method OnAddRouteDefinition(definition: RouteDefinition)
      modifies this
      ensures ids == old(ids) + Keys([definition])
    {
      assert [definition][..0] == [];
      var id := definition.routeId;
      if id.None? || id.value == "" {
        return;
      }
      if definition.inlined {
        return;
      }
      var prefix := definition.nodePrefixId;
      var p := if prefix.None? then "" else prefix.value;
      var key := id.value + p;
      ids := ids + [key];
    }
  }

  // ---------------------------------------------------------------------------------------
  // Duplicate route ids

  /** Collections.frequency: how often `x` occurs in `ids`. */
  function Frequency(ids: seq<string>, x: string): (n: nat)
    ensures n <= |ids|
  {
    if ids == [] then 0
    else Frequency(ids[..|ids| - 1], x) + (if ids[|ids| - 1] == x then 1 else 0)
  }

  /** The ids that occur more than once. */
  function Duplicates(ids: seq<string>): set<string> {
    set x | x in ids && Frequency(ids, x) > 1
  }

  /** The frequency of an id is its multiplicity. */
  lemma {:induction false} FrequencyIsMultiplicity(ids: seq<string>, x: string)
    ensures Frequency(ids, x) == multiset(ids)[x]
  {
    if ids != [] {
      FrequencyIsMultiplicity(ids[..|ids| - 1], x);
      assert ids == ids[..|ids| - 1] + [ids[|ids| - 1]];
    }
  }

  lemma {:induction false} FrequencyAtLeastTwo(ids: seq<string>, x: string)
    ensures Frequency(ids, x) > 1 <==> exists i, j :: 0 <= i < j < |ids| && ids[i] == x && ids[j] == x
  {
    if ids != [] {
      var init, last := ids[..|ids| - 1], ids[|ids| - 1];
      FrequencyAtLeastTwo(init, x);
      FrequencyMeansPresent(init, x);
      if exists i, j :: 0 <= i < j < |ids| && ids[i] == x && ids[j] == x {
        var i, j :| 0 <= i < j < |ids| && ids[i] == x && ids[j] == x;
        if j < |init| {
          assert init[i] == x && init[j] == x;
        } else {
          assert init[i] == x && last == x;
        }
      }
      if Frequency(ids, x) > 1 && Frequency(init, x) <= 1 {
        var i :| 0 <= i < |init| && init[i] == x;
        assert ids[i] == x && ids[|ids| - 1] == x;
      }
      if Frequency(init, x) > 1 {
        var i, j :| 0 <= i < j < |init| && init[i] == x && init[j] == x;
        assert ids[i] == x && ids[j] == x;
      }
    }
  }

  lemma {:induction false} FrequencyMeansPresent(ids: seq<string>, x: string)
    ensures Frequency(ids, x) > 0 <==> exists i :: 0 <= i < |ids| && ids[i] == x
  {
    if ids != [] {
      var init := ids[..|ids| - 1];
      FrequencyMeansPresent(init, x);
      if exists i :: 0 <= i < |init| && init[i] == x {
        var i :| 0 <= i < |init| && init[i] == x;
        assert ids[i] == x;
      }
      if exists i :: 0 <= i < |ids| && ids[i] == x {
        var i :| 0 <= i < |ids| && ids[i] == x;
        if i < |init| {
          assert init[i] == x;
        }
      }
    }
  }

  /** An id is reported as a duplicate exactly when it occurs at two positions. */
  lemma DuplicateMeansTwice(ids: seq<string>, x: string)
    ensures x in Duplicates(ids) <==> exists i, j :: 0 <= i < j < |ids| && ids[i] == x && ids[j] == x
  {
    FrequencyAtLeastTwo(ids, x);
  }

  /** No duplicate is reported exactly when all ids are distinct. */
  lemma NoDuplicatesMeansDistinct(ids: seq<string>)
    ensures Duplicates(ids) == {} <==> forall i, j :: 0 <= i < j < |ids| ==> ids[i] != ids[j]
  {
    if Duplicates(ids) != {} {
      var x :| x in Duplicates(ids);
      DuplicateMeansTwice(ids, x);
    }
    if exists i, j :: 0 <= i < j < |ids| && ids[i] == ids[j] {
      var i, j :| 0 <= i < j < |ids| && ids[i] == ids[j];
      DuplicateMeansTwice(ids, ids[i]);
    }
  }

  // ---------------------------------------------------------------------------------------
  // Route builders, sorted by their order

  /** A RoutesBuilder as addDiscoveredRoutes sees it: its order (what OrderedComparator reads),
      whether it is a RouteConfigurationsBuilder, and the route definitions and templated route
      definitions the context adds from it. */
  datatype RoutesBuilder = RoutesBuilder(name: string, order: int, isConfigurations: bool,
                                         routes: seq<RouteDefinition>, templatedRoutes: seq<RouteDefinition>)

  /** `b` placed into `sorted` after every builder whose order is not greater. */
  function Insert(b: RoutesBuilder, sorted: seq<RoutesBuilder>): seq<RoutesBuilder> {
    if sorted == [] then [b]
    else if b.order < sorted[0].order then [b] + sorted
    else [sorted[0]] + Insert(b, sorted[1..])
  }

  /** What List.sort with OrderedComparator gives: a stable sort by order. */
  function SortByOrder(bs: seq<RoutesBuilder>): seq<RoutesBuilder> {
    if bs == [] then [] else Insert(bs[|bs| - 1], SortByOrder(bs[..|bs| - 1]))
  }

  ghost predicate SortedByOrder(bs: seq<RoutesBuilder>) {
    forall i, j :: 0 <= i < j < |bs| ==> bs[i].order <= bs[j].order
  }

  /** The builders of `bs` whose order is `k`, in their order. */
  function WithOrder(bs: seq<RoutesBuilder>, k: int): seq<RoutesBuilder> {
    if bs == [] then [] else (if bs[0].order == k then [bs[0]] else []) + WithOrder(bs[1..], k)
  }

  lemma {:induction false} InsertPermutes(b: RoutesBuilder, sorted: seq<RoutesBuilder>)
    ensures multiset(Insert(b, sorted)) == multiset(sorted) + multiset{b}
  {
    if sorted != [] && b.order >= sorted[0].order {
      InsertPermutes(b, sorted[1..]);
      assert sorted == [sorted[0]] + sorted[1..];
    }
  }

  lemma {:induction false} InsertMembers(b: RoutesBuilder, sorted: seq<RoutesBuilder>, x: RoutesBuilder)
    ensures x in Insert(b, sorted) <==> x == b || x in sorted
  {
    if sorted != [] && b.order >= sorted[0].order {
      InsertMembers(b, sorted[1..], x);
      assert sorted == [sorted[0]] + sorted[1..];
    }
  }

  lemma {:induction false} InsertSorted(b: RoutesBuilder, sorted: seq<RoutesBuilder>)
    requires SortedByOrder(sorted)
    ensures SortedByOrder(Insert(b, sorted))
  {
    if sorted != [] && b.order >= sorted[0].order {
      var rest := Insert(b, sorted[1..]);
      InsertSorted(b, sorted[1..]);
      var r := [sorted[0]] + rest;
      forall i, j | 0 <= i < j < |r|
        ensures r[i].order <= r[j].order
      {
        assert r[j] == rest[j - 1];
        if i == 0 {
          InsertMembers(b, sorted[1..], r[j]);
          if r[j] != b {
            var m :| 0 <= m < |sorted[1..]| && sorted[1..][m] == r[j];
            assert sorted[m + 1] == r[j];
          }
        } else {
          assert r[i] == rest[i - 1];
        }
      }
    }
  }

  lemma {:induction false} InsertStable(b: RoutesBuilder, sorted: seq<RoutesBuilder>, k: int)
    requires SortedByOrder(sorted)
    ensures WithOrder(Insert(b, sorted), k) == WithOrder(sorted, k) + (if b.order == k then [b] else [])
  {
    if sorted == [] {
    } else if b.order < sorted[0].order {
      assert ([b] + sorted)[1..] == sorted;
      if b.order == k {
        NoneWithOrder(sorted, k);
      }
    } else {
      var rest := Insert(b, sorted[1..]);
      InsertStable(b, sorted[1..], k);
      assert ([sorted[0]] + rest)[1..] == rest;
    }
  }

  lemma {:induction false} NoneWithOrder(sorted: seq<RoutesBuilder>, k: int)
    requires SortedByOrder(sorted) && (sorted == [] || k < sorted[0].order)
    ensures WithOrder(sorted, k) == []
  {
    if sorted != [] {
      NoneWithOrder(sorted[1..], k);
    }
  }

  lemma {:induction false} WithOrderDistributes(a: seq<RoutesBuilder>, b: seq<RoutesBuilder>, k: int)
    ensures WithOrder(a + b, k) == WithOrder(a, k) + WithOrder(b, k)
  {
    if a != [] {
      assert (a + b)[1..] == a[1..] + b;
      WithOrderDistributes(a[1..], b, k);
    } else {
      assert a + b == b;
    }
  }

  /** Sorting by order is a stable sort: sorted, a permutation of the builders, and builders of
      equal order keep their relative order. */
  lemma {:induction false} SortByOrderIsStableSort(bs: seq<RoutesBuilder>)
    ensures SortedByOrder(SortByOrder(bs))
    ensures multiset(SortByOrder(bs)) == multiset(bs)
    ensures forall k :: WithOrder(SortByOrder(bs), k) == WithOrder(bs, k)
  {
    if bs != [] {
      var init, last := bs[..|bs| - 1], bs[|bs| - 1];
      SortByOrderIsStableSort(init);
      InsertSorted(last, SortByOrder(init));
      InsertPermutes(last, SortByOrder(init));
      assert bs == init + [last];
      forall k
        ensures WithOrder(SortByOrder(bs), k) == WithOrder(bs, k)
      {
        InsertStable(last, SortByOrder(init), k);
        WithOrderDistributes(init, [last], k);
      }
    }
  }

  // ---------------------------------------------------------------------------------------
  // The three passes of addDiscoveredRoutes

  /** A call made to the CamelContext. */
  datatype ContextCall =
    | AddRoutesConfigurations(builder: RoutesBuilder)
    | AddRoutes(builder: RoutesBuilder)
    | AddTemplatedRoutes(builder: RoutesBuilder)

  /** The pass a call belongs to. */
  function Pass(c: ContextCall): nat {
    match c
    case AddRoutesConfigurations(_) => 0
    case AddRoutes(_) => 1
    case AddTemplatedRoutes(_) => 2
  }

  /** First pass: the route configurations builders, in order. */
  function ConfigurationCalls(bs: seq<RoutesBuilder>): seq<ContextCall> {
    if bs == [] then []
    else
      var b := bs[|bs| - 1];
      ConfigurationCalls(bs[..|bs| - 1]) + (if b.isConfigurations then [AddRoutesConfigurations(b)] else [])
  }

  /** Second pass: every builder, in order. */
  function RouteCalls(bs: seq<RoutesBuilder>): seq<ContextCall> {
    seq(|bs|, i requires 0 <= i < |bs| => AddRoutes(bs[i]))
  }

  /** Third pass: every builder again, in order. */
  function TemplatedCalls(bs: seq<RoutesBuilder>): seq<ContextCall> {
    seq(|bs|, i requires 0 <= i < |bs| => AddTemplatedRoutes(bs[i]))
  }

  function DiscoveryCalls(bs: seq<RoutesBuilder>): seq<ContextCall> {
    ConfigurationCalls(bs) + RouteCalls(bs) + TemplatedCalls(bs)
  }

  /** The keys the detector records while the routes, then the templated routes, are added. */
  function RouteKeys(bs: seq<RoutesBuilder>): seq<string> {
    if bs == [] then [] else RouteKeys(bs[..|bs| - 1]) + Keys(bs[|bs| - 1].routes)
  }

  function TemplatedKeys(bs: seq<RoutesBuilder>): seq<string> {
    if bs == [] then [] else TemplatedKeys(bs[..|bs| - 1]) + Keys(bs[|bs| - 1].templatedRoutes)
  }

  /** The first pass adds exactly the route configurations builders, each once, in order. */
  lemma {:induction false} ConfigurationCallsMembers(bs: seq<RoutesBuilder>, c: ContextCall)
    ensures c in ConfigurationCalls(bs) <==> c.AddRoutesConfigurations? && c.builder in bs && c.builder.isConfigurations
  {
    if bs != [] {
      ConfigurationCallsMembers(bs[..|bs| - 1], c);
      assert bs == bs[..|bs| - 1] + [bs[|bs| - 1]];
    }
  }

  /** Every route configurations call comes before every addRoutes call, and every addRoutes
      call before every addTemplatedRoutes call. */
  lemma PassesInOrder(bs: seq<RoutesBuilder>)
    ensures var calls := DiscoveryCalls(bs);
            forall i, j :: 0 <= i < j < |calls| ==> Pass(calls[i]) <= Pass(calls[j])
  {
    var first, second, third := ConfigurationCalls(bs), RouteCalls(bs), TemplatedCalls(bs);
    var calls := first + second + third;
    forall i | 0 <= i < |first|
      ensures Pass(calls[i]) == 0
    {
      assert calls[i] == first[i];
      ConfigurationCallsMembers(bs, first[i]);
    }
    forall i | |first| <= i < |calls|
      ensures Pass(calls[i]) == if i < |first| + |second| then 1 else 2
    {
      if i < |first| + |second| {
        assert calls[i] == second[i - |first|];
      } else {
        assert calls[i] == third[i - |first| - |second|];
      }
    }
  }

  /** The builder at position `i` of the sorted order is added by the `i`-th call of the
      second pass and by the `i`-th call of the third. */
  lemma BuilderAddedAt(bs: seq<RoutesBuilder>, i: nat)
    requires i < |bs|
    ensures |DiscoveryCalls(bs)| == |ConfigurationCalls(bs)| + 2 * |bs|
    ensures DiscoveryCalls(bs)[|ConfigurationCalls(bs)| + i] == AddRoutes(bs[i])
    ensures DiscoveryCalls(bs)[|ConfigurationCalls(bs)| + |bs| + i] == AddTemplatedRoutes(bs[i])
  {
    var first, second, third := ConfigurationCalls(bs), RouteCalls(bs), TemplatedCalls(bs);
    assert DiscoveryCalls(bs) == first + second + third;
    assert (first + second + third)[|first| + i] == second[i];
    assert (first + second + third)[|first| + |bs| + i] == third[i];
  }

  /** Every route configurations builder is added in the first pass. */
  lemma ConfigurationsAdded(bs: seq<RoutesBuilder>, b: RoutesBuilder)
    requires b in bs && b.isConfigurations
    ensures AddRoutesConfigurations(b) in DiscoveryCalls(bs)
  {
    ConfigurationCallsMembers(bs, AddRoutesConfigurations(b));
  }

  /** Why addDiscoveredRoutes fails: FailedToCreateRouteException naming the duplicate ids. */
  datatype RouteError = DuplicateRouteIds(ids: set<string>)

  /** The configurer: its duplicate detector and the calls it has made to the CamelContext. */
  class RoutesConfigurer {
    const detector: DuplicateRouteDetector
    var calls: seq<ContextCall>

    constructor()
      ensures fresh(detector) && detector.ids == [] && calls == []
    {
      detector := new DuplicateRouteDetector();
      calls := [];
    }

    /** The context reports each definition it adds to the detector. */
    method ReportDefinitions(ds: seq<RouteDefinition>)
      modifies detector
      ensures detector.ids == old(detector.ids) + Keys(ds)
    {
      for i := 0 to |ds|
        invariant detector.ids == old(detector.ids) + Keys(ds[..i])
      {
        assert ds[..i + 1][..i] == ds[..i];
        detector.OnAddRouteDefinition(ds[i]);
        assert [ds[i]][..0] == [];
      }
      assert ds[..|ds|] == ds;
    }

    /** The first pass: each route configurations builder, in order. */
    method AddConfigurations(sorted: seq<RoutesBuilder>)
      modifies this
      ensures calls == old(calls) + ConfigurationCalls(sorted)
    {
      for i := 0 to |sorted|
        invariant calls == old(calls) + ConfigurationCalls(sorted[..i])
      {
        assert sorted[..i + 1][..i] == sorted[..i];
        if sorted[i].isConfigurations {
          calls := calls + [AddRoutesConfigurations(sorted[i])];
        }
      }
      assert sorted[..|sorted|] == sorted;
    }

    /** The second pass: CamelContext.addRoutes for each builder, in order; the context adds the
        builder's route definitions. */
    method AddRoutesOfAll(sorted: seq<RoutesBuilder>)
      modifies this, detector
      ensures calls == old(calls) + RouteCalls(sorted)
      ensures detector.ids == old(detector.ids) + RouteKeys(sorted)
    {
      for i := 0 to |sorted|
        invariant calls == old(calls) + RouteCalls(sorted[..i])
        invariant detector.ids == old(detector.ids) + RouteKeys(sorted[..i])
      {
        assert sorted[..i + 1][..i] == sorted[..i];
        calls := calls + [AddRoutes(sorted[i])];
        ReportDefinitions(sorted[i].routes);
      }
      assert sorted[..|sorted|] == sorted;
    }

    /** The third pass: CamelContext.addTemplatedRoutes for each builder, in order. */
    method AddTemplatedRoutesOfAll(sorted: seq<RoutesBuilder>)
      modifies this, detector
      ensures calls == old(calls) + TemplatedCalls(sorted)
      ensures detector.ids == old(detector.ids) + TemplatedKeys(sorted)
    {
      for i := 0 to |sorted|
        invariant calls == old(calls) + TemplatedCalls(sorted[..i])
        invariant detector.ids == old(detector.ids) + TemplatedKeys(sorted[..i])
      {
        assert sorted[..i + 1][..i] == sorted[..i];
        calls := calls + [AddTemplatedRoutes(sorted[i])];
        ReportDefinitions(sorted[i].templatedRoutes);
      }
      assert sorted[..|sorted|] == sorted;
    }

    /** The passes over the sorted builders, after clearing the detector. */
    method AddInPasses(sorted: seq<RoutesBuilder>)
      modifies this, detector
      ensures calls == old(calls) + DiscoveryCalls(sorted)
      ensures detector.ids == RouteKeys(sorted) + TemplatedKeys(sorted)
    {
      detector.Clear();
      AddConfigurations(sorted);
      ghost var configured := calls;
      AddRoutesOfAll(sorted);
      assert detector.ids == [] + RouteKeys(sorted) == RouteKeys(sorted);
      ghost var routed := calls;
      AddTemplatedRoutesOfAll(sorted);
      assert calls == routed + TemplatedCalls(sorted);
      assert routed == configured + RouteCalls(sorted);
    }

    /** addDiscoveredRoutes: sort the builders, clear the detector, add the route configurations,
        then the routes, then the templated routes, and fail when a route id was seen twice. */
    method AddDiscoveredRoutes(routes: seq<RoutesBuilder>) returns (result: Result<(), RouteError>)
      modifies this, detector
      ensures calls == old(calls) + DiscoveryCalls(SortByOrder(routes))
      ensures detector.ids == RouteKeys(SortByOrder(routes)) + TemplatedKeys(SortByOrder(routes))
      ensures result.Failure? <==> Duplicates(detector.ids) != {}
      ensures result.Failure? ==> result.error == DuplicateRouteIds(Duplicates(detector.ids))
    {
      var sorted := SortByOrder(routes);
      AddInPasses(sorted);
      var dups := Duplicates(detector.ids);
      if dups != {} {
        return Failure(DuplicateRouteIds(dups));
      }
      return Success(());
    }
  }
}
