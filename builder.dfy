/**
 * The build as a whole (scripts/build-registry.mjs, `buildRegistry` and
 * `processDirectory`): the output directory is emptied, every recognised
 * kind directory is walked, each component's artifact is written as it is
 * met, and then `registry.json` and `categories.json` are written.
 */
module Builder {

  import opened Wrappers
  import opened Strings
  import opened OrderedSets
  import opened Json
  import opened Imports
  import opened RegistryItems

  const SchemaUrl: string := "https://ui.shadcn.com/schema/registry.json"
  const RegistryName: string := "asth-ui"
  const Homepage: string := "https://github.com/asthrix/asth-ui-client"

  /** How a build ends: with output, with the notice that there is nothing to build, or with an I/O error. */
  datatype Outcome = Built(kindCount: nat, componentCount: nat) | NothingToBuild | Failed

  function ExitCode(outcome: Outcome): int
  {
    if outcome.Failed? then 1 else 0
  }

  /** One entry of `categories.json`. */
  datatype CategoryEntry = CategoryEntry(name: string, displayLabel: string)

  // ---------------------------------------------------------------------
  // Specification of the build
  // ---------------------------------------------------------------------

  /** The items of `registry.json`, one per component. */
  function Summaries(cs: seq<Component>): (items: seq<Value>)
    ensures |items| == |cs|
  {
    seq(|cs|, i requires 0 <= i < |cs| => Obj(SummaryMembers(cs[i].item)))
  }

  /** The output directory after writing the artifacts of `cs` one after the other. */
  function WriteArtifacts(out: map<string, Value>, cs: seq<Component>): map<string, Value>
  {
    if |cs| == 0 then out
    else
      var last := cs[|cs| - 1];
      WriteArtifacts(out, cs[..|cs| - 1])[ArtifactFileName(last.item) := Obj(ArtifactMembers(last))]
  }

  predicate IsKindDirectory(entry: Entry)
  {
    entry.Directory? && entry.name in RegistryTypes
  }

  /** The directories of the registry root that are recognised kinds, in listing order. */
  function TypeDirs(root: seq<Entry>): (dirs: seq<Entry>)
    ensures forall i :: 0 <= i < |dirs| ==> IsKindDirectory(dirs[i])
  {
    if |root| == 0 then []
    else
      var last := root[|root| - 1];
      TypeDirs(root[..|root| - 1]) + (if IsKindDirectory(last) then [last] else [])
  }

  /** The components of the kind directories, kind after kind. */
  function ComponentsOf(dirs: seq<Entry>): seq<Component>
    requires forall i :: 0 <= i < |dirs| ==> IsKindDirectory(dirs[i])
  {
    if |dirs| == 0 then []
    else
      var last := dirs[|dirs| - 1];
      assert IsKindDirectory(last);
      ComponentsOf(dirs[..|dirs| - 1]) + Walk(last.name, RegistryTypes[last.name], last.entries, "")
  }

  function Components(root: seq<Entry>): seq<Component>
  {
    ComponentsOf(TypeDirs(root))
  }

  /** `registry.json`. */
  function Manifest(items: seq<Value>): Value
  {
    Obj([ Member("$schema", Str(SchemaUrl)),
          Member("name", Str(RegistryName)),
          Member("homepage", Str(Homepage)),
          Member("items", Arr(items)) ])
  }

  /** `item.files[0].path`, when the item has one. */
  function FilePath(item: Value): Option<string>
  {
    if !item.Obj? then None
    else match Get(item.members, "files")
      case Some(Arr(files)) =>
        if |files| > 0 && files[0].Obj? then
          match Get(files[0].members, "path")
          case Some(Str(path)) => Some(path)
          case _ => None
        else None
      case _ => None
  }

  function PathsOf(registry: seq<Value>): (paths: seq<string>)
    requires forall i :: 0 <= i < |registry| ==> FilePath(registry[i]).Some?
    ensures |paths| == |registry|
  {
    seq(|registry|, i requires 0 <= i < |registry| && FilePath(registry[i]).Some? => FilePath(registry[i]).value)
  }

  function ItemPaths(cs: seq<Component>): (paths: seq<string>)
    ensures |paths| == |cs|
  {
    seq(|cs|, i requires 0 <= i < |cs| => cs[i].item.file.path)
  }

  /** The category a path contributes: its second piece when it has more than two. */
  function IndexKey(path: string): Option<string>
  {
    var pieces := Split(path, '/');
    if |pieces| > 2 then Some(pieces[1]) else None
  }

  function IndexKeys(paths: seq<string>): seq<string>
  {
    if |paths| == 0 then []
    else
      var last := paths[|paths| - 1];
      IndexKeys(paths[..|paths| - 1]) + (match IndexKey(last) case Some(key) => [key] case None => [])
  }

  /** The category keys: each key once, in first-seen order. */
  function CategoryKeys(paths: seq<string>): seq<string>
  {
    Dedup(IndexKeys(paths))
  }

  function CategoryEntries(keys: seq<string>): (entries: seq<CategoryEntry>)
    ensures |entries| == |keys|
  {
    seq(|keys|, i requires 0 <= i < |keys| => CategoryEntry(keys[i], Capitalize(keys[i])))
  }

  /** `categories.json`. */
  function CategoriesJson(entries: seq<CategoryEntry>): Value
  {
    Arr(seq(|entries|, i requires 0 <= i < |entries| =>
      Obj([Member("name", Str(entries[i].name)), Member("label", Str(entries[i].displayLabel))])))
  }

  function BuildOutcome(root: Option<seq<Entry>>): Outcome
  {
    match root
    case None => Failed
    case Some(entries) =>
      if |TypeDirs(entries)| == 0 then NothingToBuild
      else Built(|TypeDirs(entries)|, |Components(entries)|)
  }

  /** The output directory after a build. */
  function BuildOutput(root: Option<seq<Entry>>): map<string, Value>
  {
    match root
    case None => map[]
    case Some(entries) =>
      if |TypeDirs(entries)| == 0 then map[]
      else
        var cs := Components(entries);
        WriteArtifacts(map[], cs)
          ["registry.json" := Manifest(Summaries(cs))]
          ["categories.json" := CategoriesJson(CategoryEntries(CategoryKeys(ItemPaths(cs))))]
  }

  // ---------------------------------------------------------------------
  // The category index as the script computes it
  // ---------------------------------------------------------------------

  /**
   * The category index: a `Set` filled from `files[0].path` of every
   * registered item, then one entry per key with its label.
   */
  method CategoryIndex(registry: seq<Value>) returns (categoriesData: seq<CategoryEntry>)
    requires forall i :: 0 <= i < |registry| ==> FilePath(registry[i]).Some?
    ensures categoriesData == CategoryEntries(CategoryKeys(PathsOf(registry)))
    ensures |registry| == 0 ==> categoriesData == []
  {
    var categories: seq<string> := [];
    ghost var paths := PathsOf(registry);
    for i := 0 to |registry|
      invariant categories == Dedup(IndexKeys(paths[..i]))
    {
      assert paths[..i + 1][..i] == paths[..i];
      ghost var seen := IndexKeys(paths[..i]);
      var pathParts := Split(FilePath(registry[i]).value, '/');
      if |pathParts| > 2 {
        assert IndexKeys(paths[..i + 1]) == seen + [pathParts[1]];
        DedupSnoc(seen, pathParts[1]);
        assert pathParts[1] in categories <==> pathParts[1] in seen;
        if pathParts[1] !in categories {
          categories := categories + [pathParts[1]];
        }
        assert categories == Dedup(seen + [pathParts[1]]);
      } else {
        assert IndexKeys(paths[..i + 1]) == seen;
      }
      assert categories == Dedup(IndexKeys(paths[..i + 1]));
    }
    assert paths[..|registry|] == paths;
    categoriesData := CategoryEntries(categories);
  }

  /**
   * The category index holds the second piece of every path with more than
   * two pieces, each once, in first-seen order, each labelled with its
   * first character upper-cased.
   */
  lemma CategoryIndexShape(paths: seq<string>)
    ensures var entries := CategoryEntries(CategoryKeys(paths));
      (forall k :: 0 <= k < |entries| ==> entries[k].displayLabel == Capitalize(entries[k].name)) &&
      (forall j, k :: 0 <= j < k < |entries| ==> entries[j].name != entries[k].name) &&
      (forall c :: c in CategoryKeys(paths) <==> exists i :: 0 <= i < |paths| && IndexKey(paths[i]) == Some(c)) &&
      (forall k :: 0 <= k < |entries| ==> entries[k].name == CategoryKeys(paths)[k])
  {
    IndexKeysMembership(paths);
  }

  lemma {:induction false} IndexKeysMembership(paths: seq<string>)
    ensures forall c :: c in IndexKeys(paths) <==> exists i :: 0 <= i < |paths| && IndexKey(paths[i]) == Some(c)
  {
    if |paths| > 0 {
      var p := paths[..|paths| - 1];
      IndexKeysMembership(p);
      forall c
        ensures c in IndexKeys(paths) <==> exists i :: 0 <= i < |paths| && IndexKey(paths[i]) == Some(c)
      {
        if c in IndexKeys(p) {
          var i :| 0 <= i < |p| && IndexKey(p[i]) == Some(c);
          assert paths[i] == p[i];
        }
        if exists i :: 0 <= i < |paths| && IndexKey(paths[i]) == Some(c) {
          var i :| 0 <= i < |paths| && IndexKey(paths[i]) == Some(c);
          if i < |p| {
            assert p[i] == paths[i];
          }
        }
      }
    }
  }

  // ---------------------------------------------------------------------
  // The builder's state: the shared item list and the output directory
  // ---------------------------------------------------------------------

  class RegistryBuilder {

    /** The `registry` array that `processDirectory` appends to. */
    var registry: seq<Value>

    /** The output directory: file name to the JSON value written there. */
    var output: map<string, Value>

    constructor ()
      ensures registry == [] && output == map[]
    {
      registry := [];
      output := map[];
    }

    /**
     * `processDirectory`: walks the entries of one directory, descending
     * into sub-directories, and for each eligible file writes its artifact
     * and appends its summary item.
     */
    method ProcessDirectory(entries: seq<Entry>, kind: string, cfg: KindConfig, subPath: string)
      modifies this
      ensures registry == old(registry) + Summaries(Walk(kind, cfg, entries, subPath))
      ensures output == WriteArtifacts(old(output), Walk(kind, cfg, entries, subPath))
      decreases entries
    {
      for i := 0 to |entries|
        invariant registry == old(registry) + Summaries(Walk(kind, cfg, entries[..i], subPath))
        invariant output == WriteArtifacts(old(output), Walk(kind, cfg, entries[..i], subPath))
      {
        WalkStepState(old(registry), old(output), kind, cfg, entries, i, subPath);
        ProcessEntry(entries[i], kind, cfg, subPath);
      }
      assert entries[..|entries|] == entries;
    }

    /** One entry of a directory listing: a sub-directory is walked, an eligible file processed, anything else skipped. */
    method ProcessEntry(entry: Entry, kind: string, cfg: KindConfig, subPath: string)
      modifies this
      ensures registry == old(registry) + Summaries(Visit(kind, cfg, entry, subPath))
      ensures output == WriteArtifacts(old(output), Visit(kind, cfg, entry, subPath))
      decreases entry
    {
      var currentSubPath := ChildPath(subPath, entry.name);
      match entry {
        case Directory(_, children) =>
          ProcessDirectory(children, kind, cfg, currentSubPath);
        case File(fileName, source) =>
          if IsComponentFile(fileName) {
            ProcessFile(kind, cfg, FileAt(currentSubPath, fileName, source));
          }
      }
    }

    /**
     * The body of `processDirectory` for one eligible file: derive the item,
     * write its artifact `<name>.json`, then append the summary item.
     */
    method ProcessFile(kind: string, cfg: KindConfig, f: FileAt)
      modifies this
      ensures registry == old(registry) + Summaries([MakeComponent(kind, cfg, f)])
      ensures output == WriteArtifacts(old(output), [MakeComponent(kind, cfg, f)])
    {
      var ext := Extension(f.fileName);
      var name := ComponentName(f.fileName);
      var dependencies := ExtractDependencies(f.source.importSpecifiers);
      var registryDependencies := ExtractRegistryDependencies(f.source.fromSpecifiers);
      var category := Category(f.subPath);
      var path := kind + "/" + f.subPath;
      var target := Target(cfg, category, name, ext);
      var item := RegistryItem(name, cfg.itemType, Description(name, cfg),
                               RegistryFile(path, target), dependencies, registryDependencies);
      var summary := DeleteUndefinedKeys(ItemLiteral(item));
      var artifact := Assign(summary, "files", Arr([FileObject(item.file, Some(f.source.content))]));
      output := output[name + ".json" := Obj(artifact)];
      registry := registry + [Obj(summary)];
      ghost var c := MakeComponent(kind, cfg, f);
      assert c == Component(item, f.source.content);
      assert [c][..0] == [];
    }

    /**
     * `buildRegistry`: empties the output directory, walks every recognised
     * kind directory of the root listing (`None` when the root cannot be
     * listed), then writes the manifest and the category index.
     */
    method BuildRegistry(root: Option<seq<Entry>>) returns (outcome: Outcome)
      modifies this
      ensures outcome == BuildOutcome(root)
      ensures output == BuildOutput(root)
      ensures root.Some? && |TypeDirs(root.value)| > 0 ==> registry == Summaries(Components(root.value))
      ensures root.None? || |TypeDirs(root.value)| == 0 ==> registry == []
    {
      output := map[];
      registry := [];
      if root.None? {
        outcome := Failed;
        return;
      }
      var typeDirs := TypeDirs(root.value);
      if |typeDirs| == 0 {
        outcome := NothingToBuild;
        return;
      }
      for i := 0 to |typeDirs|
        invariant registry == Summaries(ComponentsOf(typeDirs[..i]))
        invariant output == WriteArtifacts(map[], ComponentsOf(typeDirs[..i]))
      {
        var typeDir := typeDirs[i];
        KindStepState(typeDirs, i);
        ProcessDirectory(typeDir.entries, typeDir.name, RegistryTypes[typeDir.name], "");
      }
      assert typeDirs[..|typeDirs|] == typeDirs;
      var total := |registry|;
      output := output["registry.json" := Manifest(registry)];
      BuildOutputOf(root.value);
      var categories := CategoryIndex(registry);
      output := output["categories.json" := CategoriesJson(categories)];
      outcome := Built(|typeDirs|, total);
    }
  }

  // ---------------------------------------------------------------------
  // Lemmas the builder's proofs use
  // ---------------------------------------------------------------------

  /** The output of a build that found a kind directory, as the builder's last steps write it. */
  lemma BuildOutputOf(entries: seq<Entry>)
    requires |TypeDirs(entries)| > 0
    ensures var items := Summaries(Components(entries));
      (forall i :: 0 <= i < |items| ==> FilePath(items[i]).Some?) &&
      BuildOutput(Some(entries)) ==
        WriteArtifacts(map[], Components(entries))
          ["registry.json" := Manifest(items)]
          ["categories.json" := CategoriesJson(CategoryEntries(CategoryKeys(PathsOf(items))))]
  {
    SummaryPaths(Components(entries));
  }

  lemma {:induction false} WalkConcat(kind: string, cfg: KindConfig, a: seq<Entry>, b: seq<Entry>, subPath: string)
    ensures Walk(kind, cfg, a + b, subPath) == Walk(kind, cfg, a, subPath) + Walk(kind, cfg, b, subPath)
  {
    if |a| > 0 {
      assert (a + b)[0] == a[0];
      assert (a + b)[1..] == a[1..] + b;
      WalkConcat(kind, cfg, a[1..], b, subPath);
    } else {
      assert a + b == b;
    }
  }

  lemma WalkStep(kind: string, cfg: KindConfig, entries: seq<Entry>, i: nat, subPath: string)
    requires i < |entries|
    ensures Walk(kind, cfg, entries[..i + 1], subPath) ==
      Walk(kind, cfg, entries[..i], subPath) + Visit(kind, cfg, entries[i], subPath)
  {
    assert entries[..i + 1] == entries[..i] + [entries[i]];
    WalkConcat(kind, cfg, entries[..i], [entries[i]], subPath);
    assert [entries[i]][1..] == [];
  }

  /** One more entry of the walk, as the builder's state records it. */
  lemma WalkStepState(registry: seq<Value>, output: map<string, Value>,
                      kind: string, cfg: KindConfig, entries: seq<Entry>, i: nat, subPath: string)
    requires i < |entries|
    ensures registry + Summaries(Walk(kind, cfg, entries[..i + 1], subPath)) ==
      registry + Summaries(Walk(kind, cfg, entries[..i], subPath)) + Summaries(Visit(kind, cfg, entries[i], subPath))
    ensures WriteArtifacts(output, Walk(kind, cfg, entries[..i + 1], subPath)) ==
      WriteArtifacts(WriteArtifacts(output, Walk(kind, cfg, entries[..i], subPath)), Visit(kind, cfg, entries[i], subPath))
  {
    var before := Walk(kind, cfg, entries[..i], subPath);
    var here := Visit(kind, cfg, entries[i], subPath);
    WalkStep(kind, cfg, entries, i, subPath);
    SummariesConcat(before, here);
    AppendAssociative(registry, Summaries(before), Summaries(here));
    WriteArtifactsConcat(output, before, here);
  }

  /** One more kind directory, as the builder's state records it. */
  lemma KindStepState(dirs: seq<Entry>, i: nat)
    requires forall j :: 0 <= j < |dirs| ==> IsKindDirectory(dirs[j])
    requires i < |dirs|
    ensures IsKindDirectory(dirs[i])
    ensures Summaries(ComponentsOf(dirs[..i + 1])) ==
      Summaries(ComponentsOf(dirs[..i])) + Summaries(Walk(dirs[i].name, RegistryTypes[dirs[i].name], dirs[i].entries, ""))
    ensures WriteArtifacts(map[], ComponentsOf(dirs[..i + 1])) ==
      WriteArtifacts(WriteArtifacts(map[], ComponentsOf(dirs[..i])), Walk(dirs[i].name, RegistryTypes[dirs[i].name], dirs[i].entries, ""))
  {
    var here := Walk(dirs[i].name, RegistryTypes[dirs[i].name], dirs[i].entries, "");
    assert dirs[..i + 1][..i] == dirs[..i];
    assert ComponentsOf(dirs[..i + 1]) == ComponentsOf(dirs[..i]) + here;
    SummariesConcat(ComponentsOf(dirs[..i]), here);
    WriteArtifactsConcat(map[], ComponentsOf(dirs[..i]), here);
  }

  lemma SummariesConcat(a: seq<Component>, b: seq<Component>)
    ensures Summaries(a + b) == Summaries(a) + Summaries(b)
  {
    assert forall i :: 0 <= i < |a + b| ==> Summaries(a + b)[i] == (Summaries(a) + Summaries(b))[i];
  }

  lemma {:induction false} WriteArtifactsConcat(out: map<string, Value>, a: seq<Component>, b: seq<Component>)
    ensures WriteArtifacts(out, a + b) == WriteArtifacts(WriteArtifacts(out, a), b)
    decreases |b|
  {
    if |b| == 0 {
      assert a + b == a;
    } else {
      var last := b[|b| - 1];
      assert (a + b)[|a + b| - 1] == last;
      assert (a + b)[..|a + b| - 1] == a + b[..|b| - 1];
      WriteArtifactsConcat(out, a, b[..|b| - 1]);
    }
  }

  /** The file path the category index reads from a summary item is the item's path. */
  lemma SummaryPath(item: RegistryItem)
    ensures FilePath(Obj(SummaryMembers(item))) == Some(item.file.path)
  {
    SummaryFiles(item);
  }

  lemma SummaryPaths(cs: seq<Component>)
    ensures forall i :: 0 <= i < |cs| ==> FilePath(Summaries(cs)[i]).Some?
    ensures PathsOf(Summaries(cs)) == ItemPaths(cs)
  {
    forall i | 0 <= i < |cs|
      ensures FilePath(Summaries(cs)[i]) == Some(cs[i].item.file.path)
    {
      SummaryPath(cs[i].item);
    }
  }

  // ---------------------------------------------------------------------
  // Properties of the build
  // ---------------------------------------------------------------------

  /** The index key of an item's path is its category: present exactly when the file lies in a sub-directory. */
  lemma ItemIndexKey(kind: string, cfg: KindConfig, f: FileAt)
    requires '/' !in kind
    ensures IndexKey(MakeItem(kind, cfg, f).file.path) ==
      if |Split(f.subPath, '/')| > 1 then Some(Category(f.subPath)) else None
  {
    SplitSingle(kind, '/');
    SplitAround(kind, '/', f.subPath);
    assert MakeItem(kind, cfg, f).file.path == kind + ['/'] + f.subPath;
  }

  lemma {:induction false} TypeDirsMembership(root: seq<Entry>)
    ensures forall d :: d in TypeDirs(root) <==> d in root && IsKindDirectory(d)
  {
    if |root| > 0 {
      var init := root[..|root| - 1];
      TypeDirsMembership(init);
      assert root == init + [root[|root| - 1]];
    }
  }

  lemma {:induction false} ComponentsOfMembership(dirs: seq<Entry>)
    requires forall i :: 0 <= i < |dirs| ==> IsKindDirectory(dirs[i])
    ensures forall c :: c in ComponentsOf(dirs) <==>
      exists d, f :: d in dirs && f in Files(d.entries, "") && IsComponentFile(f.fileName) &&
        c == MakeComponent(d.name, RegistryTypes[d.name], f)
  {
    if |dirs| > 0 {
      var init := dirs[..|dirs| - 1];
      var last := dirs[|dirs| - 1];
      ComponentsOfMembership(init);
      WalkMembership(last.name, RegistryTypes[last.name], last.entries, "");
      assert dirs == init + [last];
    }
  }

  /**
   * Only the recognised kind directories of the root contribute, each with
   * the eligible files of its whole tree: a component is registered exactly
   * when it is made from such a file, with its directory's row of the kind
   * table.
   */
  lemma ComponentsAreKindFiles(root: seq<Entry>)
    ensures forall c :: c in Components(root) <==>
      exists d, f :: d in root && IsKindDirectory(d) && f in Files(d.entries, "") && IsComponentFile(f.fileName) &&
        c == MakeComponent(d.name, RegistryTypes[d.name], f)
  {
    TypeDirsMembership(root);
    ComponentsOfMembership(TypeDirs(root));
  }

  /** Every registered item has the type of a known kind, and its path starts with that kind's directory. */
  lemma KnownKinds(root: seq<Entry>)
    ensures forall c :: c in Components(root) ==>
      exists kind :: (kind in RegistryTypes && c.item.itemType == RegistryTypes[kind].itemType &&
        StartsWith(c.item.file.path, kind + "/"))
  {
    ComponentsAreKindFiles(root);
    forall c | c in Components(root)
      ensures exists kind :: (kind in RegistryTypes && c.item.itemType == RegistryTypes[kind].itemType &&
        StartsWith(c.item.file.path, kind + "/"))
    {
      var d, f :| d in root && IsKindDirectory(d) && f in Files(d.entries, "") && IsComponentFile(f.fileName) &&
        c == MakeComponent(d.name, RegistryTypes[d.name], f);
      ItemKind(d.name, RegistryTypes[d.name], f);
    }
  }

  /** An item made for a kind has that kind's type, and its path starts with the kind's directory. */
  lemma ItemKind(kind: string, cfg: KindConfig, f: FileAt)
    ensures MakeItem(kind, cfg, f).itemType == cfg.itemType
    ensures StartsWith(MakeItem(kind, cfg, f).file.path, kind + "/")
  {
    assert MakeItem(kind, cfg, f).file.path == (kind + "/") + f.subPath;
  }

  /**
   * Writing artifacts one after another: a file exists afterwards exactly
   * when it existed before or some component is named after it.
   */
  lemma {:induction false} ArtifactFiles(out: map<string, Value>, cs: seq<Component>, key: string)
    ensures key in WriteArtifacts(out, cs) <==>
      key in out || exists i :: 0 <= i < |cs| && ArtifactFileName(cs[i].item) == key
  {
    if |cs| > 0 {
      var init := cs[..|cs| - 1];
      ArtifactFiles(out, init, key);
      if exists i :: 0 <= i < |cs| && ArtifactFileName(cs[i].item) == key {
        var i :| 0 <= i < |cs| && ArtifactFileName(cs[i].item) == key;
        if i < |init| {
          assert init[i] == cs[i];
        }
      }
      if exists i :: 0 <= i < |init| && ArtifactFileName(init[i].item) == key {
        var i :| 0 <= i < |init| && ArtifactFileName(init[i].item) == key;
        assert init[i] == cs[i];
      }
    }
  }

  /** A file named after a component holds the artifact of the last component so named. */
  lemma {:induction false} ArtifactIsLastWrite(out: map<string, Value>, cs: seq<Component>, i: nat)
    requires i < |cs|
    requires forall j :: i < j < |cs| ==> ArtifactFileName(cs[j].item) != ArtifactFileName(cs[i].item)
    ensures ArtifactFileName(cs[i].item) in WriteArtifacts(out, cs)
    ensures WriteArtifacts(out, cs)[ArtifactFileName(cs[i].item)] == Obj(ArtifactMembers(cs[i]))
  {
    var init := cs[..|cs| - 1];
    if i < |init| {
      assert forall j :: i < j < |init| ==> init[j] == cs[j];
      ArtifactIsLastWrite(out, init, i);
      assert init[i] == cs[i];
    }
  }

  /** A file no component is named after keeps what it held before. */
  lemma {:induction false} ArtifactUntouched(out: map<string, Value>, cs: seq<Component>, key: string)
    requires key in out
    requires forall i :: 0 <= i < |cs| ==> ArtifactFileName(cs[i].item) != key
    ensures key in WriteArtifacts(out, cs) && WriteArtifacts(out, cs)[key] == out[key]
  {
    if |cs| > 0 {
      var init := cs[..|cs| - 1];
      assert forall i :: 0 <= i < |init| ==> init[i] == cs[i];
      ArtifactUntouched(out, init, key);
    }
  }

  /**
   * How a build ends: it fails (exit code 1) exactly when the root cannot
   * be listed, it builds exactly when the root holds a recognised kind
   * directory, and otherwise nothing is written.
   */
  lemma BuildEnds(root: Option<seq<Entry>>)
    ensures ExitCode(BuildOutcome(root)) == 1 <==> root.None?
    ensures BuildOutcome(root).Built? <==> root.Some? && exists d :: d in root.value && IsKindDirectory(d)
    ensures !BuildOutcome(root).Built? ==> BuildOutput(root) == map[]
  {
    if root.Some? {
      TypeDirsMembership(root.value);
      var dirs := TypeDirs(root.value);
      if |dirs| > 0 {
        assert dirs[0] in dirs;
      }
    }
  }

  /**
   * A successful build writes the manifest, with one item per registered
   * component, and the category index; every other file it writes is the
   * artifact of a registered component, and each component whose name no
   * later component and neither index file reuses keeps its own artifact.
   */
  lemma BuildWrites(entries: seq<Entry>)
    requires BuildOutcome(Some(entries)).Built?
    ensures var output := BuildOutput(Some(entries));
      var cs := Components(entries);
      output["registry.json"] == Manifest(Summaries(cs)) &&
      BuildOutcome(Some(entries)).componentCount == |Summaries(cs)| &&
      output["categories.json"] == CategoriesJson(CategoryEntries(CategoryKeys(ItemPaths(cs)))) &&
      (forall key :: key != "registry.json" && key != "categories.json" ==>
        (key in output <==> exists i :: 0 <= i < |cs| && ArtifactFileName(cs[i].item) == key))
  {
    var cs := Components(entries);
    forall key | key != "registry.json" && key != "categories.json"
      ensures key in BuildOutput(Some(entries)) <==> exists i :: 0 <= i < |cs| && ArtifactFileName(cs[i].item) == key
    {
      ArtifactFiles(map[], cs, key);
    }
  }

  /** A successful build writes the manifest of its components. */
  lemma BuildManifest(entries: seq<Entry>)
    requires BuildOutcome(Some(entries)).Built?
    ensures "registry.json" in BuildOutput(Some(entries))
    ensures BuildOutput(Some(entries))["registry.json"] == Manifest(Summaries(Components(entries)))
  {
    assert "registry.json" != "categories.json";
  }

  lemma BuildKeepsArtifact(entries: seq<Entry>, i: nat)
    requires BuildOutcome(Some(entries)).Built?
    requires i < |Components(entries)|
    requires var name := ArtifactFileName(Components(entries)[i].item);
      name != "registry.json" && name != "categories.json" &&
      forall j :: i < j < |Components(entries)| ==> ArtifactFileName(Components(entries)[j].item) != name
    ensures var c := Components(entries)[i];
      ArtifactFileName(c.item) in BuildOutput(Some(entries)) &&
      BuildOutput(Some(entries))[ArtifactFileName(c.item)] == Obj(ArtifactMembers(c))
  {
    ArtifactIsLastWrite(map[], Components(entries), i);
  }

  /** A kind directory whose sub-directories `p` and `q` each hold a file named `fileName`. */
  function SameNameRoot(kind: string, p: string, q: string, fileName: string, source: SourceFile): seq<Entry>
  {
    [Directory(kind, [Directory(p, [File(fileName, source)]), Directory(q, [File(fileName, source)])])]
  }

  /**
   * Item names are not checked for uniqueness: when two sub-directories of
   * a kind directory each hold an eligible file of the same name, the build
   * registers two items of that name with different paths, and the
   * manifest lists both.
   */
  lemma SameNameTwice(kind: string, p: string, q: string, fileName: string, source: SourceFile)
    requires kind in RegistryTypes && IsComponentFile(fileName)
    requires p != "" && q != "" && p != q
    ensures var root := SameNameRoot(kind, p, q, fileName, source);
      var cs := Components(root);
      |cs| == 2 && BuildOutcome(Some(root)) == Built(1, 2) &&
      cs[0].item.name == ComponentName(fileName) && cs[1].item.name == ComponentName(fileName) &&
      cs[0].item.file.path == kind + "/" + (p + "/" + fileName) &&
      cs[1].item.file.path == kind + "/" + (q + "/" + fileName) &&
      "registry.json" in BuildOutput(Some(root)) &&
      BuildOutput(Some(root))["registry.json"] == Manifest(Summaries(cs))
  {
    var root := SameNameRoot(kind, p, q, fileName, source);
    SameNameItems(kind, p, q, fileName, source);
    BuildManifest(root);
  }

  /** The two components have the file's name and the paths of their two files. */
  lemma SameNameItems(kind: string, p: string, q: string, fileName: string, source: SourceFile)
    requires kind in RegistryTypes && IsComponentFile(fileName)
    requires p != "" && q != ""
    ensures var cs := Components(SameNameRoot(kind, p, q, fileName, source));
      |TypeDirs(SameNameRoot(kind, p, q, fileName, source))| == 1 && |cs| == 2 &&
      cs[0].item.name == ComponentName(fileName) && cs[1].item.name == ComponentName(fileName) &&
      cs[0].item.file.path == kind + "/" + (p + "/" + fileName) &&
      cs[1].item.file.path == kind + "/" + (q + "/" + fileName)
  {
    var b := SameNameComponents(kind, p, q, fileName, source);
    ComponentFields(kind, RegistryTypes[kind], FileAt(p + "/" + fileName, fileName, source));
    ComponentFields(kind, RegistryTypes[kind], FileAt(q + "/" + fileName, fileName, source));
  }

  lemma ComponentFields(kind: string, cfg: KindConfig, f: FileAt)
    ensures MakeComponent(kind, cfg, f).item.name == ComponentName(f.fileName)
    ensures MakeComponent(kind, cfg, f).item.file.path == kind + "/" + f.subPath
  {
  }

  /** Of two items of the same name, only the one met last keeps its artifact. */
  lemma SameNameLastArtifact(kind: string, p: string, q: string, fileName: string, source: SourceFile)
    requires kind in RegistryTypes && IsComponentFile(fileName)
    requires p != "" && q != "" && p != q
    requires ComponentName(fileName) != "registry" && ComponentName(fileName) != "categories"
    ensures var root := SameNameRoot(kind, p, q, fileName, source);
      var output := BuildOutput(Some(root));
      |Components(root)| == 2 &&
      ComponentName(fileName) + ".json" in output &&
      output[ComponentName(fileName) + ".json"] == Obj(ArtifactMembers(Components(root)[1]))
  {
    var root := SameNameRoot(kind, p, q, fileName, source);
    var b := SameNameComponents(kind, p, q, fileName, source);
    JsonFileNames(b.item.name);
    BuildKeepsArtifact(root, 1);
  }

  lemma SameNameComponents(kind: string, p: string, q: string, fileName: string, source: SourceFile)
      returns (b: Component)
    requires kind in RegistryTypes && IsComponentFile(fileName)
    requires p != "" && q != ""
    ensures b == MakeComponent(kind, RegistryTypes[kind], FileAt(q + "/" + fileName, fileName, source))
    ensures var root := SameNameRoot(kind, p, q, fileName, source);
      |TypeDirs(root)| == 1 &&
      Components(root) == [MakeComponent(kind, RegistryTypes[kind], FileAt(p + "/" + fileName, fileName, source)), b]
  {
    var cfg := RegistryTypes[kind];
    var dirP := Directory(p, [File(fileName, source)]);
    var dirQ := Directory(q, [File(fileName, source)]);
    var a := MakeComponent(kind, cfg, FileAt(p + "/" + fileName, fileName, source));
    b := MakeComponent(kind, cfg, FileAt(q + "/" + fileName, fileName, source));
    VisitSingleFileDirectory(kind, cfg, p, fileName, source);
    VisitSingleFileDirectory(kind, cfg, q, fileName, source);
    WalkPair(kind, cfg, dirP, dirQ, "");
    assert [a] + [b] == [a, b];
    SingleKindDirectory(Directory(kind, [dirP, dirQ]));
  }

  /** A top-level sub-directory holding one eligible file yields that file's component. */
  lemma VisitSingleFileDirectory(kind: string, cfg: KindConfig, dir: string, fileName: string, source: SourceFile)
    requires IsComponentFile(fileName) && dir != ""
    ensures Visit(kind, cfg, Directory(dir, [File(fileName, source)]), "") ==
      [MakeComponent(kind, cfg, FileAt(dir + "/" + fileName, fileName, source))]
  {
    assert ChildPath("", dir) == dir;
    WalkSingleFile(kind, cfg, fileName, source, dir);
    assert ChildPath(dir, fileName) == dir + "/" + fileName;
  }

  lemma SingleKindDirectory(d: Entry)
    requires IsKindDirectory(d)
    ensures TypeDirs([d]) == [d]
    ensures Components([d]) == Walk(d.name, RegistryTypes[d.name], d.entries, "")
  {
    assert [d][..0] == [];
    assert TypeDirs([d]) == [] + [d];
    assert ComponentsOf([d]) == [] + Walk(d.name, RegistryTypes[d.name], d.entries, "");
  }

  lemma WalkSingleFile(kind: string, cfg: KindConfig, fileName: string, source: SourceFile, subPath: string)
    requires IsComponentFile(fileName)
    ensures Walk(kind, cfg, [File(fileName, source)], subPath) ==
      [MakeComponent(kind, cfg, FileAt(ChildPath(subPath, fileName), fileName, source))]
  {
    assert [File(fileName, source)][1..] == [];
  }

  lemma WalkPair(kind: string, cfg: KindConfig, x: Entry, y: Entry, subPath: string)
    ensures Walk(kind, cfg, [x, y], subPath) == Visit(kind, cfg, x, subPath) + Visit(kind, cfg, y, subPath)
  {
    assert [x, y][1..] == [y] && [y][1..] == [];
    assert Walk(kind, cfg, [y], subPath) == Visit(kind, cfg, y, subPath) + [];
    assert Visit(kind, cfg, y, subPath) + [] == Visit(kind, cfg, y, subPath);
  }

  /** Only the items named `registry` and `categories` share a file name with the two index files. */
  lemma JsonFileNames(name: string)
    ensures name + ".json" == "registry.json" <==> name == "registry"
    ensures name + ".json" == "categories.json" <==> name == "categories"
  {
    if name + ".json" == "registry.json" {
      assert name == (name + ".json")[..|name|];
    }
    if name + ".json" == "categories.json" {
      assert name == (name + ".json")[..|name|];
    }
  }
}
