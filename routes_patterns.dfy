/** The pattern decisions of Camel's RoutesConfigurer: which include patterns are optional, which
    directory scans `configureModeline` runs, and which package-scanned classes become route
    builders. Matching a path against Ant-style patterns and finding the classes and resources
    are Camel's own services; they enter the model as parameters. */
module RoutesPatterns {
  import opened Wrappers
  import opened JavaStrings

  /** The marker that makes an include pattern optional. */
  const OptionalMarker: string := "?optional=true"

  predicate IsOptional(p: string) {
    EndsWith(p, OptionalMarker)
  }

  /** An optional pattern without its marker (the source cuts the marker's 14 characters). */
  function Unmarked(p: string): (r: string)
    requires IsOptional(p)
    ensures r + OptionalMarker == p
  {
    p[..|p| - 14]
  }

  /** The mandatory patterns of `ps`, in their order. */
  function Mandatory(ps: seq<string>): seq<string> {
    if ps == [] then []
    else
      var last := ps[|ps| - 1];
      Mandatory(ps[..|ps| - 1]) + (if IsOptional(last) then [] else [last])
  }

  /** The optional patterns of `ps` without their marker, in their order. */
  function Optional(ps: seq<string>): seq<string> {
    if ps == [] then []
    else
      var last := ps[|ps| - 1];
      Optional(ps[..|ps| - 1]) + (if IsOptional(last) then [Unmarked(last)] else [])
  }

  /** What a comma StringJoiner holding `xs` yields: its text, or null when that text is empty. */
  function Joined(xs: seq<string>): (r: Option<string>)
    ensures r == None <==> xs == [] || xs == [""]
  {
    JoinEmpty(xs, ',');
    if Join(xs, ',') == "" then None else Some(Join(xs, ','))
  }

  /** The include pattern as configureModeline reads it: mandatory and optional part. */
  datatype IncludePatterns = IncludePatterns(mandatory: Option<string>, optional: Option<string>)

  function SplitIncludePattern(pattern: Option<string>): IncludePatterns {
    if pattern.Some? && Contains(pattern.value, OptionalMarker) then
      var parts := Split(pattern.value, ',');
      IncludePatterns(Joined(Mandatory(parts)), Joined(Optional(parts)))
    else
      IncludePatterns(pattern, None)
  }

  /** The split loop of configureModeline: each comma separated pattern goes to the optional
      joiner without its marker, or to the mandatory joiner as it is. */
  method SplitOptionalPatterns(pattern: Option<string>) returns (r: IncludePatterns)
    ensures r == SplitIncludePattern(pattern)
  {
    if pattern.Some? && Contains(pattern.value, OptionalMarker) {
      var parts := Split(pattern.value, ',');
      var mandatory: seq<string> := [];
      var optional: seq<string> := [];
      for i := 0 to |parts|
        invariant mandatory == Mandatory(parts[..i])
        invariant optional == Optional(parts[..i])
      {
        assert parts[..i + 1][..i] == parts[..i];
        if EndsWith(parts[i], OptionalMarker) {
          optional := optional + [parts[i][..|parts[i]| - 14]];
        } else {
          mandatory := mandatory + [parts[i]];
        }
      }
      assert parts[..|parts|] == parts;
      r := IncludePatterns(Joined(mandatory), Joined(optional));
    } else {
      r := IncludePatterns(pattern, None);
    }
  }

  // ---------------------------------------------------------------------------------------
  // Where each pattern goes

  /** Splitting is done pattern by pattern, so the order of the patterns is kept. */
  lemma {:induction false} SplitDistributes(a: seq<string>, b: seq<string>)
    ensures Mandatory(a + b) == Mandatory(a) + Mandatory(b)
    ensures Optional(a + b) == Optional(a) + Optional(b)
  {
    if b != [] {
      var ab := a + b;
      assert ab[..|ab| - 1] == a + b[..|b| - 1];
      assert ab[|ab| - 1] == b[|b| - 1];
      SplitDistributes(a, b[..|b| - 1]);
    } else {
      assert a + b == a;
    }
  }

  /** Every pattern lands in exactly one of the two lists. */
  lemma {:induction false} SplitCount(ps: seq<string>)
    ensures |Mandatory(ps)| + |Optional(ps)| == |ps|
  {
    if ps != [] {
      SplitCount(ps[..|ps| - 1]);
    }
  }

  /** A pattern is mandatory exactly when it is one of `ps` without the marker. */
  lemma {:induction false} MandatoryMembers(ps: seq<string>, p: string)
    ensures p in Mandatory(ps) <==> p in ps && !IsOptional(p)
  {
    if ps != [] {
      MandatoryMembers(ps[..|ps| - 1], p);
      assert ps == ps[..|ps| - 1] + [ps[|ps| - 1]];
    }
  }

  /** The optional list holds exactly the marked patterns, with the marker removed. */
  lemma {:induction false} OptionalMembers(ps: seq<string>, q: string)
    ensures q in Optional(ps) <==> q + OptionalMarker in ps
  {
    if ps != [] {
      var init, last := ps[..|ps| - 1], ps[|ps| - 1];
      OptionalMembers(init, q);
      assert ps == init + [last];
      if IsOptional(last) {
        assert Unmarked(last) + OptionalMarker == last;
        if q + OptionalMarker == last {
          assert q == Unmarked(last) by {
            assert q == (q + OptionalMarker)[..|q|];
            assert Unmarked(last) == (Unmarked(last) + OptionalMarker)[..|Unmarked(last)|];
          }
        }
      } else {
        assert q + OptionalMarker != last by {
          assert (q + OptionalMarker)[|q|..] == OptionalMarker;
        }
      }
    }
  }

  lemma {:induction false} NoOptional(ps: seq<string>)
    requires forall i :: 0 <= i < |ps| ==> !IsOptional(ps[i])
    ensures Optional(ps) == [] && Mandatory(ps) == ps
  {
    if ps != [] {
      NoOptional(ps[..|ps| - 1]);
      assert ps == ps[..|ps| - 1] + [ps[|ps| - 1]];
    }
  }

  /** The `contains` guard only saves work: a pattern without the marker anywhere has no
      optional part, so splitting it would put every part in the mandatory list. */
  lemma GuardOnlySavesWork(pattern: string)
    requires !Contains(pattern, OptionalMarker)
    ensures Optional(Split(pattern, ',')) == []
    ensures Mandatory(Split(pattern, ',')) == Split(pattern, ',')
  {
    var parts := Split(pattern, ',');
    forall i | 0 <= i < |parts|
      ensures !IsOptional(parts[i])
    {
      if IsOptional(parts[i]) {
        SplitPartEndsWith(pattern, ',', i, OptionalMarker);
      }
    }
    NoOptional(parts);
  }

  // ---------------------------------------------------------------------------------------
  // The directory scans of configureModeline

  /** One call of findRouteResourcesFromDirectory with its include pattern, and whether the
      resources it finds are optional. */
  datatype Scan = Scan(pattern: Option<string>, optional: bool)

  /** The scans configureModeline runs, in order: none without a routes collector; one with the
      whole pattern when nothing is optional; otherwise the optional scan, then the mandatory one
      when there is a mandatory pattern. */
  function ModelineScans(hasCollector: bool, includePattern: Option<string>): seq<Scan> {
    if !hasCollector then []
    else
      var split := SplitIncludePattern(includePattern);
      if split.optional == None then [Scan(split.mandatory, false)]
      else [Scan(split.optional, true)] + (if split.mandatory.Some? then [Scan(split.mandatory, false)] else [])
  }

  /** configureModeline's own steps: the split loop, then the choice of scans. `ModelineScans`
      is the plan it is proved to follow, which the lemmas below characterise. */
  method ConfigureModelineScans(hasCollector: bool, includePattern: Option<string>) returns (scans: seq<Scan>)
    ensures scans == ModelineScans(hasCollector, includePattern)
  {
    if !hasCollector {
      return [];
    }
    var split := SplitOptionalPatterns(includePattern);
    if split.optional == None {
      scans := [Scan(split.mandatory, false)];
    } else {
      scans := [Scan(split.optional, true)];
      if split.mandatory != None {
        scans := scans + [Scan(split.mandatory, false)];
      }
    }
  }

  /** Without the marker, one mandatory scan uses the include pattern exactly as configured. */
  lemma UnmarkedPatternScannedWhole(includePattern: Option<string>)
    requires includePattern.None? || !Contains(includePattern.value, OptionalMarker)
    ensures ModelineScans(true, includePattern) == [Scan(includePattern, false)]
  {
  }

  /** At most two scans; an optional scan comes first and carries a pattern; every later scan
      is mandatory. */
  lemma OptionalScanFirst(hasCollector: bool, includePattern: Option<string>)
    ensures |ModelineScans(hasCollector, includePattern)| <= 2
    ensures forall i :: 0 <= i < |ModelineScans(hasCollector, includePattern)| && ModelineScans(hasCollector, includePattern)[i].optional ==>
              i == 0 && ModelineScans(hasCollector, includePattern)[i].pattern.Some?
  {
  }

  /** A marked include pattern yields an optional scan exactly when some optional pattern is
      left once the markers are cut and the parts joined. */
  lemma OptionalScanWhenMarked(includePattern: string)
    requires Contains(includePattern, OptionalMarker)
    ensures var parts := Split(includePattern, ',');
            (exists i :: 0 <= i < |ModelineScans(true, Some(includePattern))| && ModelineScans(true, Some(includePattern))[i].optional) <==>
            (Optional(parts) != [] && Optional(parts) != [""])
  {
    var scans := ModelineScans(true, Some(includePattern));
    if Joined(Optional(Split(includePattern, ','))).Some? {
      assert scans[0].optional;
    }
  }

  /** The marker alone leaves neither part: the one scan that runs is mandatory and has no
      include pattern. */
  lemma MarkerAloneScansWithoutPattern()
    ensures ModelineScans(true, Some(OptionalMarker)) == [Scan(None, false)]
  {
    assert OccursAt(OptionalMarker, OptionalMarker, 0);
    assert ',' !in OptionalMarker;
    var parts := [OptionalMarker];
    assert parts[..0] == [];
    assert Unmarked(OptionalMarker) == "";
    assert Optional(parts) == [""] && Mandatory(parts) == [];
  }

  // ---------------------------------------------------------------------------------------
  // The package-scan filter of configureRoutes

  /** Package scanning runs unless the include pattern is literally "false". */
  function ScanEnabled(includePattern: Option<string>): bool {
    includePattern != Some("false")
  }

  /** Whether a class found by the package scan is turned into a route builder: its name, with
      dots as slashes, must match no exclude pattern and, when there are include patterns, one of
      them. A pattern list that is literally "false" plays no part. `anyMatch` is Camel's
      Ant-style path matcher. */
  predicate Accepted(anyMatch: (seq<string>, string) -> bool, includePattern: Option<string>,
                     excludePattern: Option<string>, className: string)
  {
    var path := ReplaceChar(className, '.', '/');
    !(excludePattern.Some? && excludePattern.value != "false" && anyMatch(Split(excludePattern.value, ','), path)) &&
    !(includePattern.Some? && includePattern.value != "false" && !anyMatch(Split(includePattern.value, ','), path))
  }

  /** The classes the package scan keeps, in the order they were found. */
  function ScannedClasses(anyMatch: (seq<string>, string) -> bool, includePattern: Option<string>,
                          excludePattern: Option<string>, found: seq<string>): seq<string>
  {
    if !ScanEnabled(includePattern) || found == [] then []
    else
      var last := found[|found| - 1];
      ScannedClasses(anyMatch, includePattern, excludePattern, found[..|found| - 1]) +
        (if Accepted(anyMatch, includePattern, excludePattern, last) then [last] else [])
  }

  /** The package-scan loop: every class found is checked against the excludes, then the includes. */
  method PackageScan(anyMatch: (seq<string>, string) -> bool, includePattern: Option<string>,
                     excludePattern: Option<string>, found: seq<string>) returns (builders: seq<string>)
    ensures builders == ScannedClasses(anyMatch, includePattern, excludePattern, found)
  {
    builders := [];
    if includePattern.Some? && includePattern.value == "false" {
      return;
    }
    for i := 0 to |found|
      invariant builders == ScannedClasses(anyMatch, includePattern, excludePattern, found[..i])
    {
      assert found[..i + 1][..i] == found[..i];
      var path := ReplaceChar(found[i], '.', '/');
      if excludePattern.Some? && excludePattern.value != "false" && anyMatch(Split(excludePattern.value, ','), path) {
        continue;
      }
      if includePattern.Some? && includePattern.value != "false" && !anyMatch(Split(includePattern.value, ','), path) {
        continue;
      }
      builders := builders + [found[i]];
    }
    assert found[..|found|] == found;
  }

  /** A class becomes a route builder exactly when scanning is on, it was found and it passes
      the filter. */
  lemma {:induction false} ScannedMembers(anyMatch: (seq<string>, string) -> bool, includePattern: Option<string>,
                                          excludePattern: Option<string>, found: seq<string>, c: string)
    ensures c in ScannedClasses(anyMatch, includePattern, excludePattern, found) <==>
              ScanEnabled(includePattern) && c in found && Accepted(anyMatch, includePattern, excludePattern, c)
  {
    if ScanEnabled(includePattern) && found != [] {
      ScannedMembers(anyMatch, includePattern, excludePattern, found[..|found| - 1], c);
      assert found == found[..|found| - 1] + [found[|found| - 1]];
    }
  }

  /** Excludes take precedence: an excluded class is dropped whatever the includes say. */
  lemma ExcludeTakesPrecedence(anyMatch: (seq<string>, string) -> bool, includePattern: Option<string>,
                               excludePattern: string, className: string)
    requires excludePattern != "false" && anyMatch(Split(excludePattern, ','), ReplaceChar(className, '.', '/'))
    ensures !Accepted(anyMatch, includePattern, Some(excludePattern), className)
  {
  }

  /** With include patterns, a class is kept only when it matches one of them; with none, every
      class that is not excluded is kept. */
  lemma IncludeDecides(anyMatch: (seq<string>, string) -> bool, includePattern: Option<string>,
                       excludePattern: Option<string>, className: string)
    requires excludePattern.None? || excludePattern == Some("false") || !anyMatch(Split(excludePattern.value, ','), ReplaceChar(className, '.', '/'))
    ensures includePattern.None? || includePattern == Some("false") ==> Accepted(anyMatch, includePattern, excludePattern, className)
    ensures includePattern.Some? && includePattern != Some("false") ==>
              (Accepted(anyMatch, includePattern, excludePattern, className) <==> anyMatch(Split(includePattern.value, ','), ReplaceChar(className, '.', '/')))
  {
  }
}
