/**
 * Dependency extraction from a component's import statements
 * (scripts/build-registry.mjs, `extractDependencies` and
 * `extractRegistryDependencies`). The module specifiers that the two
 * regular expressions capture are the inputs; the pattern matching itself is
 * not modelled.
 */
module Imports {

  import opened Wrappers
  import opened Strings
  import opened OrderedSets

  /** An import of an installable package: not relative (`.`) and not through the `@/` alias. */
  predicate IsExternal(specifier: string)
  {
    !StartsWith(specifier, ".") && !StartsWith(specifier, "@/")
  }

  /**
   * The package an external specifier names: the first two `/`-pieces of a
   * scoped (`@`) specifier, the first piece of any other, and `motion` for
   * `motion` and every `motion/...` entry point.
   */
  function PackageName(specifier: string): string
  {
    var name := LeadingPieces(specifier);
    if name == "motion" || StartsWith(specifier, "motion/") then "motion" else name
  }

  /** The package name before the `motion` normalisation. */
  function LeadingPieces(specifier: string): string
  {
    var pieces := Split(specifier, '/');
    if StartsWith(specifier, "@") then Join(pieces[..if |pieces| < 2 then |pieces| else 2], '/')
    else pieces[0]
  }

  /** The package of every external specifier, in import order, repeats included. */
  function Packages(specifiers: seq<string>): seq<string>
  {
    if |specifiers| == 0 then []
    else
      var last := specifiers[|specifiers| - 1];
      Packages(specifiers[..|specifiers| - 1]) + (if IsExternal(last) then [PackageName(last)] else [])
  }

  /** The result of `extractDependencies`: each package once, in first-seen order. */
  function Dependencies(specifiers: seq<string>): seq<string>
  {
    Dedup(Packages(specifiers))
  }

  /** The import alias under which the shared UI primitives live. */
  const UiAlias: string := "@/components/ui/"

  /** The registry item an import refers to: everything after the alias, when there is something. */
  function UiComponent(specifier: string): Option<string>
  {
    if StartsWith(specifier, UiAlias) && |specifier| > |UiAlias| then Some(specifier[|UiAlias|..]) else None
  }

  function UiComponents(specifiers: seq<string>): seq<string>
  {
    if |specifiers| == 0 then []
    else
      var last := specifiers[|specifiers| - 1];
      UiComponents(specifiers[..|specifiers| - 1]) + (match UiComponent(last) case Some(c) => [c] case None => [])
  }

  /** The result of `extractRegistryDependencies`: each referenced item once, in first-seen order. */
  function RegistryDependencies(specifiers: seq<string>): seq<string>
  {
    Dedup(UiComponents(specifiers))
  }

  // ---------------------------------------------------------------------
  // The two extractors as the script runs them: a loop filling a Set.
  // ---------------------------------------------------------------------

  /**
   * `extractDependencies`, given the module specifiers captured by the
   * import pattern in source order.
   */
  method ExtractDependencies(specifiers: seq<string>) returns (deps: seq<string>)
    ensures deps == Dependencies(specifiers)
    ensures NoDuplicates(deps)
    ensures forall x :: x in deps <==> exists k :: 0 <= k < |specifiers| && IsExternal(specifiers[k]) && PackageName(specifiers[k]) == x
  {
    deps := [];
    for i := 0 to |specifiers|
      invariant deps == Dedup(Packages(specifiers[..i]))
    {
      var importPath := specifiers[i];
      assert specifiers[..i + 1][..i] == specifiers[..i];
      ghost var seen := Packages(specifiers[..i]);
      if !StartsWith(importPath, ".") && !StartsWith(importPath, "@/") {
        var packageName := PackageName(importPath);
        assert Packages(specifiers[..i + 1]) == seen + [packageName];
        DedupSnoc(seen, packageName);
        assert packageName in deps <==> packageName in seen;
        if packageName !in deps {
          deps := deps + [packageName];
        }
        assert deps == Dedup(seen + [packageName]);
      } else {
        assert Packages(specifiers[..i + 1]) == seen;
      }
      assert deps == Dedup(Packages(specifiers[..i + 1]));
    }
    assert specifiers[..|specifiers|] == specifiers;
    PackagesMembership(specifiers);
  }

  /**
   * `extractRegistryDependencies`, given the module specifiers after `from`
   * in the matches of its pattern (the text between the whitespace after
   * `import` and the `from` keyword holds no line break), in source order.
   */
  method ExtractRegistryDependencies(specifiers: seq<string>) returns (deps: seq<string>)
    ensures deps == RegistryDependencies(specifiers)
    ensures NoDuplicates(deps)
    ensures forall x :: x in deps <==> x != "" && exists k :: 0 <= k < |specifiers| && specifiers[k] == UiAlias + x
  {
    deps := [];
    for i := 0 to |specifiers|
      invariant deps == Dedup(UiComponents(specifiers[..i]))
    {
      assert specifiers[..i + 1][..i] == specifiers[..i];
      var specifier := specifiers[i];
      ghost var seen := UiComponents(specifiers[..i]);
      if StartsWith(specifier, UiAlias) && |specifier| > |UiAlias| {
        var component := specifier[|UiAlias|..];
        assert UiComponent(specifier) == Some(component);
        assert UiComponents(specifiers[..i + 1]) == seen + [component];
        DedupSnoc(seen, component);
        assert component in deps <==> component in seen;
        if component !in deps {
          deps := deps + [component];
        }
        assert deps == Dedup(seen + [component]);
      } else {
        assert UiComponents(specifiers[..i + 1]) == seen;
      }
      assert deps == Dedup(UiComponents(specifiers[..i + 1]));
    }
    assert specifiers[..|specifiers|] == specifiers;
    UiComponentsMembership(specifiers);
  }

  // ---------------------------------------------------------------------
  // Properties
  // ---------------------------------------------------------------------

  lemma PackagesMembership(specifiers: seq<string>)
    ensures forall x :: x in Packages(specifiers) <==>
      exists k :: 0 <= k < |specifiers| && IsExternal(specifiers[k]) && PackageName(specifiers[k]) == x
  {
    forall x
      ensures x in Packages(specifiers) <==>
        exists k :: 0 <= k < |specifiers| && IsExternal(specifiers[k]) && PackageName(specifiers[k]) == x
    {
      if x in Packages(specifiers) {
        var k := PackageSource(specifiers, x);
      }
      if exists k :: 0 <= k < |specifiers| && IsExternal(specifiers[k]) && PackageName(specifiers[k]) == x {
        var k :| 0 <= k < |specifiers| && IsExternal(specifiers[k]) && PackageName(specifiers[k]) == x;
        PackageOfSpecifier(specifiers, k);
      }
    }
  }

  /** Every listed package comes from an external specifier. */
  lemma {:induction false} PackageSource(specifiers: seq<string>, x: string) returns (k: nat)
    requires x in Packages(specifiers)
    ensures k < |specifiers| && IsExternal(specifiers[k]) && PackageName(specifiers[k]) == x
  {
    var p := specifiers[..|specifiers| - 1];
    if x in Packages(p) {
      k := PackageSource(p, x);
      assert specifiers[k] == p[k];
    } else {
      k := |specifiers| - 1;
    }
  }

  /** The package of every external specifier is listed. */
  lemma {:induction false} PackageOfSpecifier(specifiers: seq<string>, k: nat)
    requires k < |specifiers| && IsExternal(specifiers[k])
    ensures PackageName(specifiers[k]) in Packages(specifiers)
  {
    var p := specifiers[..|specifiers| - 1];
    if k < |p| {
      assert p[k] == specifiers[k];
      PackageOfSpecifier(p, k);
    }
  }

  lemma UiComponentsMembership(specifiers: seq<string>)
    ensures forall x :: x in UiComponents(specifiers) <==>
      x != "" && exists k :: 0 <= k < |specifiers| && specifiers[k] == UiAlias + x
  {
    forall x
      ensures x in UiComponents(specifiers) <==>
        x != "" && exists k :: 0 <= k < |specifiers| && specifiers[k] == UiAlias + x
    {
      if x in UiComponents(specifiers) {
        var k := UiComponentSource(specifiers, x);
        UiComponentOf(specifiers[k], x);
      }
      if x != "" && exists k :: 0 <= k < |specifiers| && specifiers[k] == UiAlias + x {
        var k :| 0 <= k < |specifiers| && specifiers[k] == UiAlias + x;
        UiComponentOf(specifiers[k], x);
        UiComponentOfSpecifier(specifiers, k, x);
      }
    }
  }

  /** Every listed component comes from a specifier under the alias. */
  lemma {:induction false} UiComponentSource(specifiers: seq<string>, x: string) returns (k: nat)
    requires x in UiComponents(specifiers)
    ensures k < |specifiers| && UiComponent(specifiers[k]) == Some(x)
  {
    var p := specifiers[..|specifiers| - 1];
    if x in UiComponents(p) {
      k := UiComponentSource(p, x);
      assert specifiers[k] == p[k];
    } else {
      k := |specifiers| - 1;
    }
  }

  /** The component of every specifier under the alias is listed. */
  lemma {:induction false} UiComponentOfSpecifier(specifiers: seq<string>, k: nat, x: string)
    requires k < |specifiers| && UiComponent(specifiers[k]) == Some(x)
    ensures x in UiComponents(specifiers)
  {
    var p := specifiers[..|specifiers| - 1];
    if k < |p| {
      assert p[k] == specifiers[k];
      UiComponentOfSpecifier(p, k, x);
    }
  }

  lemma UiComponentOf(specifier: string, x: string)
    ensures UiComponent(specifier) == Some(x) <==> x != "" && specifier == UiAlias + x
  {
    if x != "" && specifier == UiAlias + x {
      assert specifier[..|UiAlias|] == UiAlias;
      assert specifier[|UiAlias|..] == x;
    }
    if UiComponent(specifier) == Some(x) {
      assert specifier == specifier[..|UiAlias|] + specifier[|UiAlias|..];
    }
  }
  /**
   * The leading pieces are the part of the specifier before its first `/`,
   * or before its second for a scoped specifier.
   */
  lemma LeadingPiecesShape(specifier: string)
    ensures LeadingPieces(specifier) <= specifier
    ensures var n := LeadingPieces(specifier); |n| == |specifier| || specifier[|n|] == '/'
    ensures !StartsWith(specifier, "@") ==> '/' !in LeadingPieces(specifier)
    ensures StartsWith(specifier, "@") ==>
      multiset(LeadingPieces(specifier))['/'] <= 1 &&
      (multiset(LeadingPieces(specifier))['/'] == 0 ==> LeadingPieces(specifier) == specifier)
  {
    var pieces := Split(specifier, '/');
    var scoped := StartsWith(specifier, "@");
    var k := if scoped then (if |pieces| < 2 then |pieces| else 2) else 1;
    JoinSplit(specifier, '/');
    SplitPiecesFree(specifier, '/');
    JoinFirstPieces(pieces, '/', k);
    var raw := Join(pieces[..k], '/');
    if !scoped {
      assert pieces[..1] == [pieces[0]];
    }
    if k == |pieces| {
      assert pieces[..k] == pieces;
    }
    assert raw == LeadingPieces(specifier);
    assert '/' !in raw <== multiset(raw)['/'] == 0;
  }

  /**
   * The `motion` normalisation changes nothing: the leading piece of
   * `motion/...` is already `motion`. The name is `motion` exactly for
   * `motion` and `motion/...`.
   */
  lemma MotionNormalisation(specifier: string)
    ensures PackageName(specifier) == LeadingPieces(specifier)
    ensures PackageName(specifier) == "motion" <==> specifier == "motion" || StartsWith(specifier, "motion/")
  {
    var raw := LeadingPieces(specifier);
    LeadingPiecesShape(specifier);
    if StartsWith(specifier, "@") {
      assert raw == "" || raw[0] == '@';
      assert specifier[0] == '@';
    } else {
      assert "motion" + "/" == "motion/";
      PieceBeforeSeparator(raw, specifier, "motion", '/');
    }
  }

  /**
   * The part of `s` before its first `sep` is a separator-free `word`
   * exactly when `s` is `word` or starts with `word` and the separator.
   */
  lemma PieceBeforeSeparator(piece: string, s: string, word: string, sep: char)
    requires piece <= s && (|piece| == |s| || s[|piece|] == sep)
    requires sep !in piece && sep !in word
    ensures piece == word <==> s == word || word + [sep] <= s
  {
    assert s[..|piece|] == piece;
    IndexOfFirst(s, sep, |piece|);
    if s == word {
      assert s[..|s|] == word;
      IndexOfFirst(s, sep, |s|);
    }
    if word + [sep] <= s {
      assert s[..|word|] == word && s[|word|] == sep;
      IndexOfFirst(s, sep, |word|);
      assert piece == s[..|word|];
    }
  }

  /**
   * The package name is the part of the specifier before its first `/`
   * (before its second for a scoped specifier), and it is `motion` exactly
   * for `motion` and `motion/...`.
   */
  lemma PackageNameShape(specifier: string)
    ensures PackageName(specifier) <= specifier
    ensures var n := PackageName(specifier); |n| == |specifier| || specifier[|n|] == '/'
    ensures !StartsWith(specifier, "@") ==> '/' !in PackageName(specifier)
    ensures StartsWith(specifier, "@") ==>
      multiset(PackageName(specifier))['/'] <= 1 &&
      (multiset(PackageName(specifier))['/'] == 0 ==> PackageName(specifier) == specifier)
    ensures PackageName(specifier) == "motion" <==> specifier == "motion" || StartsWith(specifier, "motion/")
  {
    LeadingPiecesShape(specifier);
    MotionNormalisation(specifier);
  }

  /**
   * No external dependency starts with `.` or `@/`: relative imports and
   * imports through the alias (such as `@/components/ui/button`) never
   * contribute one.
   */
  lemma NoLocalDependencies(specifiers: seq<string>, x: string)
    requires x in Dependencies(specifiers)
    ensures !StartsWith(x, ".") && !StartsWith(x, "@/")
    ensures exists k :: 0 <= k < |specifiers| && IsExternal(specifiers[k]) && x <= specifiers[k]
  {
    PackagesMembership(specifiers);
    var k :| 0 <= k < |specifiers| && IsExternal(specifiers[k]) && PackageName(specifiers[k]) == x;
    PackageNameShape(specifiers[k]);
  }
}
