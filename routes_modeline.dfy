/** The loader decisions of RoutesConfigurer.doConfigureModeline and resolveRoutesBuilderLoader:
    the resources found by a scan are put in "java first" order, each one is given the loader
    registered for its file extension, and they are grouped by loader, the groups in the order
    their loaders were first needed. */
module RoutesModeline {
  import opened Wrappers

  /** A route source file, known by its location. */
  datatype Resource = Resource(location: string)

  /** Camel's services that the decisions consult: `onlyExt` is FileUtil.onlyExt (the file
      extension of a location, if any) and `loaderFor` is the RoutesLoader lookup of the loader
      registered for an extension. */
  datatype Loaders<L> = Loaders(onlyExt: string -> Option<string>, loaderFor: string -> Option<L>)

  /** The IllegalArgumentException "Cannot find RoutesBuilderLoader in classpath supporting file
      extension". */
  datatype LoaderError = NoLoaderForExtension(extension: Option<string>)

  /** The loader registered for a resource's extension, if it has one. */
  function LoaderOf<L>(env: Loaders<L>, r: Resource): Option<L> {
    var extension := env.onlyExt(r.location);
    if extension.Some? then env.loaderFor(extension.value) else None
  }

  /** resolveRoutesBuilderLoader: a missing loader is an error, except for an optional resource,
      whose loader is then null. */
  function ResolveLoader<L>(env: Loaders<L>, r: Resource, optional: bool): (result: Result<Option<L>, LoaderError>)
    ensures result.Failure? <==> !optional && LoaderOf(env, r).None?
    ensures result.Failure? ==> result.error == NoLoaderForExtension(env.onlyExt(r.location))
    ensures result.Success? ==> result.value == LoaderOf(env, r)
    ensures result.Success? && result.value.Some? ==>
              env.onlyExt(r.location).Some? && env.loaderFor(env.onlyExt(r.location).value) == result.value
  {
    var extension := env.onlyExt(r.location);
    var answer := if extension.Some? then env.loaderFor(extension.value) else None;
    if !optional && answer.None? then Failure(NoLoaderForExtension(extension)) else Success(answer)
  }

  // ---------------------------------------------------------------------------------------
  // Java first: the comparator as written, and the ordering it is meant to give

  predicate IsJava<L>(env: Loaders<L>, r: Resource) {
    env.onlyExt(r.location) == Some("java")
  }

  /** The comparator doConfigureModeline sorts with, as written: -1 whenever the first resource
      is a java file, whatever the second one is. */
  function CompareAsWritten<L>(env: Loaders<L>, a: Resource, b: Resource): int {
    if IsJava(env, a) then -1 else if IsJava(env, b) then 1 else 0
  }

  /** The comparator contract asks that compare(x, y) and compare(y, x) have opposite signs. The
      comparator as written breaks it as soon as there is one java resource: compared with
      itself, or with another java resource, it answers -1 both ways round. */
  lemma AsWrittenBreaksComparatorContract<L>(env: Loaders<L>, a: Resource, b: Resource)
    requires IsJava(env, a) && IsJava(env, b)
    ensures CompareAsWritten(env, a, b) == CompareAsWritten(env, b, a) == -1
    ensures !(forall x, y :: CompareAsWritten(env, x, y) == -CompareAsWritten(env, y, x))
  {
    assert CompareAsWritten(env, a, a) != -CompareAsWritten(env, a, a);
  }

  /** The comparator meant: java resources before the others, all else equal. */
  function CompareJavaFirst<L>(env: Loaders<L>, a: Resource, b: Resource): int {
    if IsJava(env, a) == IsJava(env, b) then 0 else if IsJava(env, a) then -1 else 1
  }

  /** The corrected comparator keeps the contract: it is antisymmetric and transitive, and it
      puts `a` strictly first exactly when `a` is a java resource and `b` is not. */
  lemma JavaFirstIsComparator<L>(env: Loaders<L>)
    ensures forall x, y :: CompareJavaFirst(env, x, y) == -CompareJavaFirst(env, y, x)
    ensures forall x, y, z :: CompareJavaFirst(env, x, y) <= 0 && CompareJavaFirst(env, y, z) <= 0 ==>
              CompareJavaFirst(env, x, z) <= 0
    ensures forall x, y :: CompareJavaFirst(env, x, y) < 0 <==> IsJava(env, x) && !IsJava(env, y)
  {
  }

  /** The java resources of `rs`, in their order. */
  function JavaOnly<L>(env: Loaders<L>, rs: seq<Resource>): seq<Resource> {
    if rs == [] then [] else (if IsJava(env, rs[0]) then [rs[0]] else []) + JavaOnly(env, rs[1..])
  }

  /** The other resources of `rs`, in their order. */
  function OtherThanJava<L>(env: Loaders<L>, rs: seq<Resource>): seq<Resource> {
    if rs == [] then [] else (if IsJava(env, rs[0]) then [] else [rs[0]]) + OtherThanJava(env, rs[1..])
  }

  /** What the stable List.sort gives with the corrected comparator: the java resources, then
      the others, each kind in its original order. */
  function JavaFirst<L>(env: Loaders<L>, rs: seq<Resource>): seq<Resource> {
    JavaOnly(env, rs) + OtherThanJava(env, rs)
  }

  lemma {:induction false} KindsAreKinds<L>(env: Loaders<L>, rs: seq<Resource>)
    ensures forall r :: r in JavaOnly(env, rs) ==> r in rs && IsJava(env, r)
    ensures forall r :: r in OtherThanJava(env, rs) ==> r in rs && !IsJava(env, r)
  {
    if rs != [] {
      KindsAreKinds(env, rs[1..]);
      assert rs == [rs[0]] + rs[1..];
    }
  }

  lemma {:induction false} KindsPermute<L>(env: Loaders<L>, rs: seq<Resource>)
    ensures multiset(JavaOnly(env, rs)) + multiset(OtherThanJava(env, rs)) == multiset(rs)
  {
    if rs != [] {
      KindsPermute(env, rs[1..]);
      assert rs == [rs[0]] + rs[1..];
    }
  }

  lemma {:induction false} JavaOnlyDistributes<L>(env: Loaders<L>, a: seq<Resource>, b: seq<Resource>)
    ensures JavaOnly(env, a + b) == JavaOnly(env, a) + JavaOnly(env, b)
  {
    if a == [] {
      assert a + b == b;
    } else {
      assert (a + b)[0] == a[0] && (a + b)[1..] == a[1..] + b;
      JavaOnlyDistributes(env, a[1..], b);
    }
  }

  lemma {:induction false} OtherThanJavaDistributes<L>(env: Loaders<L>, a: seq<Resource>, b: seq<Resource>)
    ensures OtherThanJava(env, a + b) == OtherThanJava(env, a) + OtherThanJava(env, b)
  {
    if a == [] {
      assert a + b == b;
    } else {
      assert (a + b)[0] == a[0] && (a + b)[1..] == a[1..] + b;
      OtherThanJavaDistributes(env, a[1..], b);
    }
  }

  lemma {:induction false} OneKind<L>(env: Loaders<L>, rs: seq<Resource>, java: bool)
    requires forall r :: r in rs ==> IsJava(env, r) == java
    ensures JavaOnly(env, rs) == (if java then rs else [])
    ensures OtherThanJava(env, rs) == (if java then [] else rs)
  {
    if rs != [] {
      assert rs == [rs[0]] + rs[1..];
      OneKind(env, rs[1..], java);
    }
  }

  /** Java first is sorted under the corrected comparator. */
  lemma JavaFirstSorted<L>(env: Loaders<L>, rs: seq<Resource>)
    ensures var sorted := JavaFirst(env, rs);
            forall i, j :: 0 <= i < j < |sorted| ==> CompareJavaFirst(env, sorted[i], sorted[j]) <= 0
  {
    var java, others := JavaOnly(env, rs), OtherThanJava(env, rs);
    KindsAreKinds(env, rs);
    var sorted := java + others;
    forall i, j | 0 <= i < j < |sorted|
      ensures CompareJavaFirst(env, sorted[i], sorted[j]) <= 0
    {
      if i < |java| {
        assert sorted[i] == java[i] && java[i] in java;
      } else {
        assert sorted[i] == others[i - |java|] && sorted[j] == others[j - |java|];
        assert sorted[i] in others && sorted[j] in others;
      }
    }
  }

  /** Java first is a stable sort: a permutation of its input in which each kind keeps its
      order. */
  lemma JavaFirstIsStable<L>(env: Loaders<L>, rs: seq<Resource>)
    ensures multiset(JavaFirst(env, rs)) == multiset(rs)
    ensures JavaOnly(env, JavaFirst(env, rs)) == JavaOnly(env, rs)
    ensures OtherThanJava(env, JavaFirst(env, rs)) == OtherThanJava(env, rs)
  {
    var java, others := JavaOnly(env, rs), OtherThanJava(env, rs);
    KindsPermute(env, rs);
    KindsAreKinds(env, rs);
    JavaOnlyDistributes(env, java, others);
    OtherThanJavaDistributes(env, java, others);
    OneKind(env, java, true);
    OneKind(env, others, false);
  }

  // ---------------------------------------------------------------------------------------
  // Grouping by loader

  /** The LinkedHashMap of doConfigureModeline: its loaders in insertion order and each loader's
      list of resources. */
  datatype Groups<L> = Groups(loaders: seq<L>, members: map<L, seq<Resource>>)

  /** The groups the loop builds from `rs`, taken in order; resources without a loader are left
      out. */
  function Grouped<L(==)>(env: Loaders<L>, rs: seq<Resource>): Groups<L> {
    if rs == [] then Groups([], map[])
    else
      var g := Grouped(env, rs[..|rs| - 1]);
      var r := rs[|rs| - 1];
      match LoaderOf(env, r)
      case None => g
      case Some(l) =>
        if l in g.members then Groups(g.loaders, g.members[l := g.members[l] + [r]])
        else Groups(g.loaders + [l], g.members[l := [r]])
  }

  /** The resources of `rs` that loader `l` is for, in their order: the reference for a group. */
  function ForLoader<L(==)>(env: Loaders<L>, rs: seq<Resource>, l: L): seq<Resource> {
    if rs == [] then []
    else ForLoader(env, rs[..|rs| - 1], l) + (if LoaderOf(env, rs[|rs| - 1]) == Some(l) then [rs[|rs| - 1]] else [])
  }

  /** The index of the first resource of `rs` loaded by `l`, or |rs| when there is none. */
  function FirstUse<L(==)>(env: Loaders<L>, rs: seq<Resource>, l: L): (i: nat)
    ensures i <= |rs|
    ensures i < |rs| ==> LoaderOf(env, rs[i]) == Some(l)
    ensures forall j :: 0 <= j < i ==> LoaderOf(env, rs[j]) != Some(l)
  {
    if rs == [] then 0
    else if LoaderOf(env, rs[0]) == Some(l) then 0
    else 1 + FirstUse(env, rs[1..], l)
  }

  lemma {:induction false} FirstUseSnoc<L>(env: Loaders<L>, rs: seq<Resource>, r: Resource, l: L)
    ensures FirstUse(env, rs + [r], l) ==
              if FirstUse(env, rs, l) < |rs| then FirstUse(env, rs, l)
              else if LoaderOf(env, r) == Some(l) then |rs| else |rs| + 1
  {
    if rs != [] {
      assert (rs + [r])[0] == rs[0];
      assert (rs + [r])[1..] == rs[1..] + [r];
      FirstUseSnoc(env, rs[1..], r, l);
    }
  }

  /** One step of the grouping loop: a resource with a loader joins its loader's group, which
      is opened at the end when the loader is new. */
  lemma GroupedStep<L>(env: Loaders<L>, rs: seq<Resource>)
    requires rs != []
    ensures var g0, r := Grouped(env, rs[..|rs| - 1]), rs[|rs| - 1];
            var isNew := LoaderOf(env, r).Some? && LoaderOf(env, r).value !in g0.members;
            Grouped(env, rs).members.Keys ==
              g0.members.Keys + (if LoaderOf(env, r).Some? then {LoaderOf(env, r).value} else {}) &&
            Grouped(env, rs).loaders == g0.loaders + (if isNew then [LoaderOf(env, r).value] else [])
  {
  }

  ghost predicate Distinct<L>(ls: seq<L>) {
    forall i, j :: 0 <= i < j < |ls| ==> ls[i] != ls[j]
  }

  /** Each loader gets one group, and a loader has a group exactly when some resource needs it. */
  lemma {:induction false} GroupsWellFormed<L>(env: Loaders<L>, rs: seq<Resource>)
    ensures Distinct(Grouped(env, rs).loaders)
    ensures forall l :: l in Grouped(env, rs).members <==> l in Grouped(env, rs).loaders
  {
    if rs != [] {
      var g0, g := Grouped(env, rs[..|rs| - 1]), Grouped(env, rs);
      GroupsWellFormed(env, rs[..|rs| - 1]);
      GroupedStep(env, rs);
      if g.loaders != g0.loaders {
        var l := LoaderOf(env, rs[|rs| - 1]).value;
        assert l !in g0.loaders;
        forall i, j | 0 <= i < j < |g.loaders|
          ensures g.loaders[i] != g.loaders[j]
        {
          assert g.loaders[i] == g0.loaders[i];
          if j < |g0.loaders| {
            assert g.loaders[j] == g0.loaders[j];
          } else {
            assert g0.loaders[i] in g0.loaders;
          }
        }
      }
    }
  }

  /** Each group holds exactly the resources its loader is for, in input order; a resource
      without a loader is in no group. */
  lemma {:induction false} GroupMembers<L>(env: Loaders<L>, rs: seq<Resource>, l: L)
    ensures (if l in Grouped(env, rs).members then Grouped(env, rs).members[l] else []) == ForLoader(env, rs, l)
  {
    if rs != [] {
      GroupMembers(env, rs[..|rs| - 1], l);
    }
  }

  lemma {:induction false} ForLoaderMembers<L>(env: Loaders<L>, rs: seq<Resource>, l: L, r: Resource)
    ensures r in ForLoader(env, rs, l) <==> r in rs && LoaderOf(env, r) == Some(l)
  {
    if rs != [] {
      ForLoaderMembers(env, rs[..|rs| - 1], l, r);
      assert rs == rs[..|rs| - 1] + [rs[|rs| - 1]];
    }
  }

  /** The loaders `ls` are all needed by `rs`, in the order of their first use. */
  ghost predicate InFirstSeenOrder<L>(env: Loaders<L>, rs: seq<Resource>, ls: seq<L>) {
    (forall i :: 0 <= i < |ls| ==> FirstUse(env, rs, ls[i]) < |rs|) &&
    (forall i, j :: 0 <= i < j < |ls| ==> FirstUse(env, rs, ls[i]) < FirstUse(env, rs, ls[j]))
  }

  lemma FirstSeenKept<L>(env: Loaders<L>, rs: seq<Resource>, r: Resource, ls: seq<L>)
    requires InFirstSeenOrder(env, rs, ls)
    ensures InFirstSeenOrder(env, rs + [r], ls)
    ensures forall i :: 0 <= i < |ls| ==> FirstUse(env, rs + [r], ls[i]) < |rs|
  {
    forall i | 0 <= i < |ls|
      ensures FirstUse(env, rs + [r], ls[i]) == FirstUse(env, rs, ls[i])
    {
      FirstUseSnoc(env, rs, r, ls[i]);
    }
  }

  lemma FirstSeenAppend<L>(env: Loaders<L>, rs: seq<Resource>, ls: seq<L>, l: L)
    requires InFirstSeenOrder(env, rs, ls)
    requires FirstUse(env, rs, l) == |rs| - 1
    requires forall i :: 0 <= i < |ls| ==> FirstUse(env, rs, ls[i]) < |rs| - 1
    ensures InFirstSeenOrder(env, rs, ls + [l])
  {
    var ls' := ls + [l];
    forall i, j | 0 <= i < j < |ls'|
      ensures FirstUse(env, rs, ls'[i]) < FirstUse(env, rs, ls'[j])
    {
      assert ls'[i] == ls[i];
      if j < |ls| {
        assert ls'[j] == ls[j];
      }
    }
  }

  /** The groups come in the order their loaders were first needed. */
  lemma {:induction false} GroupsInFirstSeenOrder<L>(env: Loaders<L>, rs: seq<Resource>)
    ensures InFirstSeenOrder(env, rs, Grouped(env, rs).loaders)
  {
    if rs != [] {
      var init, r := rs[..|rs| - 1], rs[|rs| - 1];
      assert rs == init + [r];
      var g0 := Grouped(env, init);
      GroupsInFirstSeenOrder(env, init);
      GroupsWellFormed(env, init);
      GroupedStep(env, rs);
      FirstSeenKept(env, init, r, g0.loaders);
      if LoaderOf(env, r).Some? && LoaderOf(env, r).value !in g0.members {
        var l := LoaderOf(env, r).value;
        FirstUseSnoc(env, init, r, l);
        assert FirstUse(env, init, l) == |init| by {
          if FirstUse(env, init, l) < |init| {
            GroupMembers(env, init, l);
            ForLoaderMembers(env, init, l, init[FirstUse(env, init, l)]);
          }
        }
        FirstSeenAppend(env, rs, g0.loaders, l);
      }
    }
  }

  lemma {:induction false} GroupsGrow<L>(env: Loaders<L>, rs: seq<Resource>, k: nat)
    requires k <= |rs|
    ensures Grouped(env, rs[..k]).loaders <= Grouped(env, rs).loaders
  {
    if k < |rs| {
      GroupsGrow(env, rs[..|rs| - 1], k);
      assert rs[..|rs| - 1][..k] == rs[..k];
    } else {
      assert rs[..k] == rs;
    }
  }

  /** Java first pays off: when the scan found a java resource and a loader is registered for
      "java", the java group is the first group. */
  lemma JavaGroupFirst<L>(env: Loaders<L>, rs: seq<Resource>, javaLoader: L)
    requires exists r :: r in rs && IsJava(env, r)
    requires env.loaderFor("java") == Some(javaLoader)
    ensures var g := Grouped(env, JavaFirst(env, rs));
            |g.loaders| > 0 && g.loaders[0] == javaLoader
  {
    var r :| r in rs && IsJava(env, r);
    var sorted := JavaFirst(env, rs);
    KindsPermute(env, rs);
    KindsAreKinds(env, rs);
    assert r in multiset(rs);
    assert r !in OtherThanJava(env, rs);
    assert r in multiset(JavaOnly(env, rs));
    assert sorted[0] == JavaOnly(env, rs)[0];
    assert JavaOnly(env, rs)[0] in JavaOnly(env, rs);
    assert LoaderOf(env, sorted[0]) == Some(javaLoader);
    assert sorted[..1][..0] == [];
    assert Grouped(env, sorted[..1]).loaders == [javaLoader];
    GroupsGrow(env, sorted, 1);
  }

  // ---------------------------------------------------------------------------------------
  // doConfigureModeline up to the grouping

  lemma JavaFirstMembers<L>(env: Loaders<L>, rs: seq<Resource>)
    ensures forall r :: r in JavaFirst(env, rs) <==> r in rs
  {
    JavaFirstIsStable(env, rs);
    forall r
      ensures r in JavaFirst(env, rs) <==> r in rs
    {
      assert r in JavaFirst(env, rs) <==> r in multiset(JavaFirst(env, rs));
      assert r in rs <==> r in multiset(rs);
    }
  }

  /** The grouping of a prefix one resource longer. */
  lemma GroupedPrefix<L>(env: Loaders<L>, rs: seq<Resource>, k: nat)
    requires k < |rs|
    ensures var g, r := Grouped(env, rs[..k]), rs[k];
            Grouped(env, rs[..k + 1]) ==
              if LoaderOf(env, r).None? then g
              else if LoaderOf(env, r).value in g.members then
                Groups(g.loaders, g.members[LoaderOf(env, r).value := g.members[LoaderOf(env, r).value] + [r]])
              else Groups(g.loaders + [LoaderOf(env, r).value], g.members[LoaderOf(env, r).value := [r]])
  {
    assert rs[..k + 1][..k] == rs[..k];
    assert rs[..k + 1][k] == rs[k];
  }

  /** `rs[i]` is the first resource that no loader reads: the one the grouping loop stops at. */
  predicate FirstWithoutLoader<L>(env: Loaders<L>, rs: seq<Resource>, i: int) {
    0 <= i < |rs| && LoaderOf(env, rs[i]).None? && forall j :: 0 <= j < i ==> LoaderOf(env, rs[j]).Some?
  }

  /** The grouping loop of doConfigureModeline over resources already sorted: each resource
      goes to the group of the loader it resolves to; the first resource without a loader aborts
      the whole call unless the resources are optional. */
  method GroupInOrder<L(==)>(env: Loaders<L>, sorted: seq<Resource>, optional: bool)
    returns (result: Result<Groups<L>, LoaderError>)
    ensures result.Failure? <==> !optional && exists r :: r in sorted && LoaderOf(env, r).None?
    ensures result.Failure? ==>
              exists i :: FirstWithoutLoader(env, sorted, i) &&
                          result.error == NoLoaderForExtension(env.onlyExt(sorted[i].location))
    ensures result.Success? ==> result.value == Grouped(env, sorted)
  {
    var loaders: seq<L> := [];
    var members: map<L, seq<Resource>> := map[];
    for i := 0 to |sorted|
      invariant Groups(loaders, members) == Grouped(env, sorted[..i])
      invariant !optional ==> forall j :: 0 <= j < i ==> LoaderOf(env, sorted[j]).Some?
    {
      GroupedPrefix(env, sorted, i);
      var resolved := ResolveLoader(env, sorted[i], optional);
      if resolved.Failure? {
        assert FirstWithoutLoader(env, sorted, i);
        return Failure(resolved.error);
      }
      if resolved.value.Some? {
        var loader := resolved.value.value;
        var list := if loader in members then members[loader] else [];
        if loader !in members {
          loaders := loaders + [loader];
        }
        members := members[loader := list + [sorted[i]]];
        assert list == [] ==> list + [sorted[i]] == [sorted[i]];
      }
    }
    assert sorted[..|sorted|] == sorted;
    forall r | r in sorted
      ensures !optional ==> LoaderOf(env, r).Some?
    {
      var j :| 0 <= j < |sorted| && sorted[j] == r;
    }
    result := Success(Groups(loaders, members));
  }

  /** doConfigureModeline up to the grouping: sorts the resources java first, then groups them
      by loader. */
  method GroupResources<L(==)>(env: Loaders<L>, resources: seq<Resource>, optional: bool)
    returns (result: Result<Groups<L>, LoaderError>)
    ensures result.Failure? <==> !optional && exists r :: r in resources && LoaderOf(env, r).None?
    ensures result.Failure? ==>
              var sorted := JavaFirst(env, resources);
              exists i :: FirstWithoutLoader(env, sorted, i) &&
                          result.error == NoLoaderForExtension(env.onlyExt(sorted[i].location))
    ensures result.Success? ==> result.value == Grouped(env, JavaFirst(env, resources))
  {
    var sorted := JavaFirst(env, resources);
    JavaFirstMembers(env, resources);
    result := GroupInOrder(env, sorted, optional);
  }
}
