/**
 * The per-file part of the registry builder (scripts/build-registry.mjs):
 * the kind table, the directory walk of `processDirectory`, and how one
 * source file becomes a registry item and its two JSON shapes.
 */
module RegistryItems {

  import opened Wrappers
  import opened Strings
  import opened OrderedSets
  import opened Json
  import opened Imports

  /** One row of the kind table: the published type, the install prefix and the human-readable kind. */
  datatype KindConfig = KindConfig(itemType: string, targetPrefix: string, description: string)

  /** `REGISTRY_TYPES`: the recognised kind directories. */
  const RegistryTypes: map<string, KindConfig> := map[
    "ui" := KindConfig("registry:ui", "components/ui", "UI component"),
    "blocks" := KindConfig("registry:block", "components/blocks", "Block component"),
    "components" := KindConfig("registry:component", "components", "Component"),
    "hooks" := KindConfig("registry:hook", "hooks", "Hook"),
    "lib" := KindConfig("registry:lib", "lib", "Library")
  ]

  /**
   * A source file as the builder reads it: its text, the module specifiers
   * captured by the external-import pattern, and the module specifiers
   * after `from` in the matches of the registry-import pattern, whose text
   * between the whitespace after `import` and the `from` keyword holds no
   * line break; each list is in source order.
   */
  datatype SourceFile = SourceFile(content: string, importSpecifiers: seq<string>, fromSpecifiers: seq<string>)

  /** A directory entry; a directory's entries are in the order the listing gives them. */
  datatype Entry = File(name: string, source: SourceFile) | Directory(name: string, entries: seq<Entry>)

  /** A file met by the walk: its sub-path below the kind directory (ending in its name), its name, its source. */
  datatype FileAt = FileAt(subPath: string, fileName: string, source: SourceFile)

  datatype RegistryFile = RegistryFile(path: string, target: string)

  datatype RegistryItem = RegistryItem(
    name: string,
    itemType: string,
    description: string,
    file: RegistryFile,
    dependencies: seq<string>,
    registryDependencies: seq<string>)

  /** An item together with the source text that goes into its own artifact. */
  datatype Component = Component(item: RegistryItem, content: string)

  // ---------------------------------------------------------------------
  // Deriving an item from a file
  // ---------------------------------------------------------------------

  /** A `.tsx` or `.ts` file that is neither a type declaration file nor a test or spec file. */
  predicate IsComponentFile(fileName: string)
  {
    (EndsWith(fileName, ".tsx") || EndsWith(fileName, ".ts")) &&
    !(EndsWith(fileName, ".d.ts") || Contains(fileName, ".test.") || Contains(fileName, ".spec."))
  }

  function Extension(fileName: string): string
  {
    if EndsWith(fileName, ".tsx") then ".tsx" else ".ts"
  }

  /** The name with its first occurrence of the extension removed. */
  function ComponentName(fileName: string): string
  {
    ReplaceFirst(fileName, Extension(fileName), "")
  }

  /** The sub-path of an entry named `name` inside the directory at `subPath`. */
  function ChildPath(subPath: string, name: string): string
  {
    if subPath == "" then name else subPath + "/" + name
  }

  /** The first directory of a sub-path with more than one piece, and `""` otherwise. */
  function Category(subPath: string): string
  {
    var pieces := Split(subPath, '/');
    if |pieces| > 1 then pieces[0] else ""
  }

  function Target(cfg: KindConfig, category: string, name: string, ext: string): string
  {
    if category != "" then cfg.targetPrefix + "/" + category + "/" + name + ext
    else cfg.targetPrefix + "/" + name + ext
  }

  function Description(name: string, cfg: KindConfig): string
  {
    ReplaceAll(name, '-', ' ') + " " + ToLower(cfg.description)
  }

  function MakeItem(kind: string, cfg: KindConfig, f: FileAt): RegistryItem
  {
    var ext := Extension(f.fileName);
    var name := ComponentName(f.fileName);
    RegistryItem(
      name, cfg.itemType, Description(name, cfg),
      RegistryFile(kind + "/" + f.subPath, Target(cfg, Category(f.subPath), name, ext)),
      Dependencies(f.source.importSpecifiers),
      RegistryDependencies(f.source.fromSpecifiers))
  }

  function MakeComponent(kind: string, cfg: KindConfig, f: FileAt): Component
  {
    Component(MakeItem(kind, cfg, f), f.source.content)
  }

  // ---------------------------------------------------------------------
  // The JSON shapes of an item
  // ---------------------------------------------------------------------

  /** The `files[0]` object; the artifact's copy also carries the source text. */
  function FileObject(file: RegistryFile, content: Option<string>): Value
  {
    Obj([Member("path", Str(file.path))] +
        (match content case Some(text) => [Member("content", Str(text))] case None => []) +
        [Member("type", Str("registry:component")), Member("target", Str(file.target))])
  }

  function StrArray(xs: seq<string>): Value
  {
    Arr(seq(|xs|, i requires 0 <= i < |xs| => Str(xs[i])))
  }

  /** A dependency list, or `undefined` when it is empty. */
  function ListOrUndefined(xs: seq<string>): Value
  {
    if |xs| > 0 then StrArray(xs) else Undefined
  }

  /** The four keys every item has, with their values. */
  function FixedMembers(item: RegistryItem): seq<Member>
  {
    [ Member("name", Str(item.name)),
      Member("type", Str(item.itemType)),
      Member("description", Str(item.description)),
      Member("files", Arr([FileObject(item.file, None)])) ]
  }

  /** The object literal the script builds for an item, before the undefined keys are deleted. */
  function ItemLiteral(item: RegistryItem): seq<Member>
  {
    FixedMembers(item) +
    [ Member("dependencies", ListOrUndefined(item.dependencies)),
      Member("registryDependencies", ListOrUndefined(item.registryDependencies)) ]
  }

  /** A dependency list as it survives the deletion of undefined keys: a member only when the list is not empty. */
  function ListMember(key: string, xs: seq<string>): seq<Member>
  {
    if |xs| > 0 then [Member(key, StrArray(xs))] else []
  }

  /** The item as it goes into `registry.json`. */
  function SummaryMembers(item: RegistryItem): seq<Member>
  {
    Defined(ItemLiteral(item))
  }

  /** The item as it goes into its own `<name>.json`: the summary with the source text in `files[0]`. */
  function ArtifactMembers(c: Component): seq<Member>
  {
    Assign(SummaryMembers(c.item), "files", Arr([FileObject(c.item.file, Some(c.content))]))
  }

  function ArtifactFileName(item: RegistryItem): string
  {
    item.name + ".json"
  }

  /**
   * The loop over the item's keys that deletes every key whose value is
   * `undefined`; the object is the sequence of its members, visited in key
   * order, and a deletion removes the member where it stands.
   */
  method DeleteUndefinedKeys(members: seq<Member>) returns (kept: seq<Member>)
    ensures kept == Defined(members)
  {
    kept := members;
    var at := 0;
    for k := 0 to |members|
      invariant kept == Defined(members[..k]) + members[k..]
      invariant at == |Defined(members[..k])|
    {
      DefinedStep(members, k);
      DropAt(Defined(members[..k]), members[k..]);
      if kept[at].value == Undefined {
        kept := kept[..at] + kept[at + 1..];
      } else {
        at := at + 1;
      }
    }
    assert members[..|members|] == members;
  }

  /** Deleting the undefined keys of one more member. */
  lemma DefinedStep(members: seq<Member>, k: nat)
    requires k < |members|
    ensures Defined(members[..k + 1]) ==
      Defined(members[..k]) + (if members[k].value.Undefined? then [] else [members[k]])
  {
    assert members[..k + 1] == members[..k] + [members[k]];
    DefinedConcat(members[..k], [members[k]]);
    DefinedSingle(members[k]);
  }

  /** Removing the element that follows `done`. */
  lemma DropAt<T>(done: seq<T>, rest: seq<T>)
    requires |rest| > 0
    ensures (done + rest)[|done|] == rest[0]
    ensures (done + rest)[..|done|] + (done + rest)[|done| + 1..] == done + rest[1..]
    ensures done + rest == done + [rest[0]] + rest[1..]
  {
    assert (done + rest)[..|done|] == done;
    assert (done + rest)[|done| + 1..] == rest[1..];
    assert rest == [rest[0]] + rest[1..];
  }

  // ---------------------------------------------------------------------
  // The walk
  // ---------------------------------------------------------------------

  /**
   * The components `processDirectory` registers for the entries of one
   * directory, in listing order, descending into every sub-directory where
   * it stands.
   */
  function Walk(kind: string, cfg: KindConfig, entries: seq<Entry>, subPath: string): seq<Component>
    decreases entries
  {
    if |entries| == 0 then []
    else Visit(kind, cfg, entries[0], subPath) + Walk(kind, cfg, entries[1..], subPath)
  }

  function Visit(kind: string, cfg: KindConfig, entry: Entry, subPath: string): seq<Component>
    decreases entry
  {
    match entry
    case Directory(name, children) => Walk(kind, cfg, children, ChildPath(subPath, name))
    case File(name, source) =>
      if IsComponentFile(name) then [MakeComponent(kind, cfg, FileAt(ChildPath(subPath, name), name, source))]
      else []
  }

  /** Every file below the entries, depth first, whatever its name. */
  function Files(entries: seq<Entry>, subPath: string): seq<FileAt>
    decreases entries
  {
    if |entries| == 0 then []
    else FilesOf(entries[0], subPath) + Files(entries[1..], subPath)
  }

  function FilesOf(entry: Entry, subPath: string): seq<FileAt>
    decreases entry
  {
    match entry
    case Directory(name, children) => Files(children, ChildPath(subPath, name))
    case File(name, source) => [FileAt(ChildPath(subPath, name), name, source)]
  }

  function Eligible(files: seq<FileAt>): seq<FileAt>
  {
    if |files| == 0 then []
    else (if IsComponentFile(files[0].fileName) then [files[0]] else []) + Eligible(files[1..])
  }

  function MakeAll(kind: string, cfg: KindConfig, files: seq<FileAt>): seq<Component>
  {
    if |files| == 0 then [] else [MakeComponent(kind, cfg, files[0])] + MakeAll(kind, cfg, files[1..])
  }
  // ---------------------------------------------------------------------
  // Properties
  // ---------------------------------------------------------------------

  /** The members of the summary item: the four fixed keys, then each dependency list that is not empty. */
  lemma SummaryMembersAre(item: RegistryItem)
    ensures SummaryMembers(item) == FixedMembers(item) +
      ListMember("dependencies", item.dependencies) + ListMember("registryDependencies", item.registryDependencies)
  {
    var fixed := FixedMembers(item);
    var deps := Member("dependencies", ListOrUndefined(item.dependencies));
    var registryDeps := Member("registryDependencies", ListOrUndefined(item.registryDependencies));
    assert ItemLiteral(item) == fixed + [deps] + [registryDeps];
    DefinedConcat(fixed + [deps], [registryDeps]);
    DefinedConcat(fixed, [deps]);
    DefinedOfDefined(fixed);
    DefinedSingle(deps);
    DefinedSingle(registryDeps);
  }

  lemma DefinedSingle(m: Member)
    ensures Defined([m]) == if m.value.Undefined? then [] else [m]
  {
    assert [m][1..] == [];
  }

  /**
   * An empty dependency list is left out of the item, never written as an
   * empty array: the keys of the summary item are the four fixed ones and
   * then the name of each non-empty list.
   */
  lemma SummaryKeys(item: RegistryItem)
    ensures Keys(SummaryMembers(item)) ==
      ["name", "type", "description", "files"] +
      (if |item.dependencies| > 0 then ["dependencies"] else []) +
      (if |item.registryDependencies| > 0 then ["registryDependencies"] else [])
  {
    var fixed := FixedMembers(item);
    var deps := ListMember("dependencies", item.dependencies);
    var registryDeps := ListMember("registryDependencies", item.registryDependencies);
    SummaryMembersAre(item);
    KeysConcat(fixed + deps, registryDeps);
    KeysConcat(fixed, deps);
    assert Keys(fixed) == ["name", "type", "description", "files"];
  }

  /** A non-empty dependency list is written in full; an empty one is absent. */
  lemma SummaryLists(item: RegistryItem)
    ensures Get(SummaryMembers(item), "dependencies") ==
      if |item.dependencies| > 0 then Some(StrArray(item.dependencies)) else None
    ensures Get(SummaryMembers(item), "registryDependencies") ==
      if |item.registryDependencies| > 0 then Some(StrArray(item.registryDependencies)) else None
  {
    var fixed := FixedMembers(item);
    var deps := ListMember("dependencies", item.dependencies);
    var registryDeps := ListMember("registryDependencies", item.registryDependencies);
    SummaryMembersAre(item);
    assert SummaryMembers(item) == fixed + (deps + registryDeps);
    assert Keys(fixed) == ["name", "type", "description", "files"];
    GetSkip(fixed, deps + registryDeps, "dependencies");
    GetSkip(fixed, deps + registryDeps, "registryDependencies");
    assert Keys(deps) == if |deps| > 0 then ["dependencies"] else [];
    GetSkip(deps, registryDeps, "registryDependencies");
    if |deps| == 0 {
      assert deps + registryDeps == registryDeps;
    }
  }

  /** The summary's `files` holds the one file entry, without the source text, and no key is `undefined`. */
  lemma SummaryFiles(item: RegistryItem)
    ensures Get(SummaryMembers(item), "files") == Some(Arr([FileObject(item.file, None)]))
    ensures forall m :: m in SummaryMembers(item) ==> !m.value.Undefined?
  {
    var fixed := FixedMembers(item);
    var lists := ListMember("dependencies", item.dependencies) + ListMember("registryDependencies", item.registryDependencies);
    SummaryMembersAre(item);
    assert SummaryMembers(item) == fixed[..3] + (fixed[3..] + lists);
    assert Keys(fixed[..3]) == ["name", "type", "description"];
    GetSkip(fixed[..3], fixed[3..] + lists, "files");
    assert forall m :: m in lists ==> m.value.Arr?;
  }

  /** The summary item has `files` among its keys. */
  lemma SummaryHasFiles(item: RegistryItem)
    ensures "files" in Keys(SummaryMembers(item))
  {
    SummaryMembersAre(item);
    assert Keys(SummaryMembers(item))[3] == "files";
  }

  /** The artifact's file entry is the summary's with `content` placed after `path`. */
  lemma FileObjectContent(file: RegistryFile, content: string)
    ensures FileObject(file, Some(content)).members ==
      [FileObject(file, None).members[0], Member("content", Str(content))] + FileObject(file, None).members[1..]
  {
  }

  /**
   * The artifact of a component has the keys of its summary item, in the
   * same order and with the same values, except that the one entry of
   * `files` also carries the source text.
   */
  lemma ArtifactExtendsSummary(c: Component)
    ensures Keys(ArtifactMembers(c)) == Keys(SummaryMembers(c.item))
    ensures forall key :: key != "files" ==> Get(ArtifactMembers(c), key) == Get(SummaryMembers(c.item), key)
    ensures Get(ArtifactMembers(c), "files") == Some(Arr([FileObject(c.item.file, Some(c.content))]))
    ensures FileObject(c.item.file, Some(c.content)).members ==
      [FileObject(c.item.file, None).members[0], Member("content", Str(c.content))] + FileObject(c.item.file, None).members[1..]
  {
    SummaryHasFiles(c.item);
    AssignExisting(SummaryMembers(c.item), "files", Arr([FileObject(c.item.file, Some(c.content))]));
    FileObjectContent(c.item.file, c.content);
  }
  /**
   * A file `base.tsx` or `base.ts` whose base has no `.` yields the
   * component name `base`.
   */
  lemma ComponentNameOfBase(base: string, ext: string)
    requires ext == ".tsx" || ext == ".ts"
    requires '.' !in base
    ensures Extension(base + ext) == ext
    ensures ComponentName(base + ext) == base
  {
    var name := base + ext;
    if ext == ".ts" {
      assert name[|name| - 1] == 's';
      assert !EndsWith(name, ".tsx") by {
        if |name| >= 4 {
          assert name[|name| - 4..][3] == name[|name| - 1];
        }
      }
    } else {
      assert name[|name| - 4..] == ext;
    }
    ReplaceExtension(base, ext);
  }

  /**
   * For any eligible file whose extension occurs nowhere before the end,
   * the component name is the file name with that trailing extension cut off.
   */
  lemma ComponentNameAtEnd(fileName: string)
    requires IsComponentFile(fileName)
    requires forall i :: 0 <= i < |fileName| - |Extension(fileName)| ==> !(Extension(fileName) <= fileName[i..])
    ensures |Extension(fileName)| <= |fileName|
    ensures ComponentName(fileName) == fileName[..|fileName| - |Extension(fileName)|]
  {
    var ext := Extension(fileName);
    var n := |fileName| - |ext|;
    assert fileName[n..n + |ext|] == ext;
    ReplaceFirstAt(fileName, ext, n);
    assert fileName[n + |ext|..] == [];
  }

  /**
   * Only the first occurrence of the extension is removed, which need not
   * be the one at the end: `a.tsx.ts` is registered as `ax.ts`.
   */
  lemma ComponentNameFirstOccurrence()
    ensures Extension("a.tsx.ts") == ".ts"
    ensures ComponentName("a.tsx.ts") == "ax.ts"
  {
    var s := "a.tsx.ts";
    assert !(".ts" <= s);
    assert s[1..] == ".tsx.ts";
    assert ".ts" <= s[1..];
    assert s[1..][3..] == "x.ts";
  }

  /**
   * The install target is the kind's prefix, then the category directory if
   * there is one, then the file name: directories below the first one are
   * dropped.
   */
  lemma TargetShape(kind: string, cfg: KindConfig, f: FileAt)
    requires '/' !in f.fileName
    ensures var item := MakeItem(kind, cfg, f);
      Split(item.file.target, '/') ==
        Split(cfg.targetPrefix, '/') +
        (if Category(f.subPath) != "" then [Category(f.subPath)] else []) +
        [item.name + Extension(f.fileName)]
  {
    var ext := Extension(f.fileName);
    var name := ComponentName(f.fileName);
    var category := Category(f.subPath);
    assert '/' !in name + ext by {
      ReplaceFirstKeeps(f.fileName, ext, '/');
    }
    assert category != "" ==> '/' !in category by {
      SplitPiecesFree(f.subPath, '/');
    }
    TargetPieces(cfg, category, name, ext);
  }

  /** The pieces of a target: the prefix's, the category if there is one, and the file name. */
  lemma TargetPieces(cfg: KindConfig, category: string, name: string, ext: string)
    requires '/' !in name + ext
    requires category != "" ==> '/' !in category
    ensures Split(Target(cfg, category, name, ext), '/') ==
      Split(cfg.targetPrefix, '/') + (if category != "" then [category] else []) + [name + ext]
  {
    var prefix := cfg.targetPrefix;
    var leaf := name + ext;
    if category != "" {
      assert Target(cfg, category, name, ext) == prefix + ['/'] + category + ['/'] + leaf;
      SplitThree(prefix, '/', category, leaf);
    } else {
      assert Target(cfg, category, name, ext) == prefix + ['/'] + leaf;
      SplitTwo(prefix, '/', leaf);
    }
  }

  lemma {:induction false} EligibleConcat(a: seq<FileAt>, b: seq<FileAt>)
    ensures Eligible(a + b) == Eligible(a) + Eligible(b)
  {
    if |a| > 0 {
      var head := if IsComponentFile(a[0].fileName) then [a[0]] else [];
      assert (a + b)[0] == a[0];
      assert (a + b)[1..] == a[1..] + b;
      assert Eligible(a + b) == head + Eligible(a[1..] + b);
      EligibleConcat(a[1..], b);
      AppendAssociative(head, Eligible(a[1..]), Eligible(b));
    } else {
      assert a + b == b;
    }
  }

  lemma {:induction false} MakeAllConcat(kind: string, cfg: KindConfig, a: seq<FileAt>, b: seq<FileAt>)
    ensures MakeAll(kind, cfg, a + b) == MakeAll(kind, cfg, a) + MakeAll(kind, cfg, b)
  {
    if |a| > 0 {
      assert (a + b)[1..] == a[1..] + b;
      MakeAllConcat(kind, cfg, a[1..], b);
    } else {
      assert a + b == b;
    }
  }

  /**
   * The walk registers exactly the eligible files of the tree, in
   * depth-first listing order; every directory is entered whatever its
   * name, and a file is kept or skipped by its name alone.
   */
  lemma {:induction false} WalkIsEligibleFiles(kind: string, cfg: KindConfig, entries: seq<Entry>, subPath: string)
    ensures Walk(kind, cfg, entries, subPath) == MakeAll(kind, cfg, Eligible(Files(entries, subPath)))
    decreases entries
  {
    if |entries| > 0 {
      var entry := entries[0];
      var here := FilesOf(entry, subPath);
      var later := Files(entries[1..], subPath);
      match entry {
        case Directory(name, children) =>
          WalkIsEligibleFiles(kind, cfg, children, ChildPath(subPath, name));
        case File(name, source) =>
          assert [FileAt(ChildPath(subPath, name), name, source)][1..] == [];
      }
      WalkIsEligibleFiles(kind, cfg, entries[1..], subPath);
      EligibleConcat(here, later);
      MakeAllConcat(kind, cfg, Eligible(here), Eligible(later));
    }
  }

  lemma {:induction false} MakeAllIndexed(kind: string, cfg: KindConfig, files: seq<FileAt>)
    ensures |MakeAll(kind, cfg, files)| == |files|
    ensures forall i :: 0 <= i < |files| ==> MakeAll(kind, cfg, files)[i] == MakeComponent(kind, cfg, files[i])
  {
    if |files| > 0 {
      var rest := files[1..];
      MakeAllIndexed(kind, cfg, rest);
      assert MakeAll(kind, cfg, files) == [MakeComponent(kind, cfg, files[0])] + MakeAll(kind, cfg, rest);
      assert forall i :: 1 <= i < |files| ==> rest[i - 1] == files[i];
    }
  }

  lemma {:induction false} EligibleMembership(files: seq<FileAt>)
    ensures forall f :: f in Eligible(files) <==> f in files && IsComponentFile(f.fileName)
  {
    if |files| > 0 {
      EligibleMembership(files[1..]);
      assert files == [files[0]] + files[1..];
    }
  }

  /**
   * A component is registered for a tree exactly when it is made from one
   * of the tree's files whose name makes it eligible.
   */
  lemma WalkMembership(kind: string, cfg: KindConfig, entries: seq<Entry>, subPath: string)
    ensures forall c :: c in Walk(kind, cfg, entries, subPath) <==>
      exists f :: f in Files(entries, subPath) && IsComponentFile(f.fileName) && c == MakeComponent(kind, cfg, f)
  {
    var eligible := Eligible(Files(entries, subPath));
    WalkIsEligibleFiles(kind, cfg, entries, subPath);
    MakeAllIndexed(kind, cfg, eligible);
    EligibleMembership(Files(entries, subPath));
    forall c | c in Walk(kind, cfg, entries, subPath)
      ensures exists f :: f in Files(entries, subPath) && IsComponentFile(f.fileName) && c == MakeComponent(kind, cfg, f)
    {
      var i :| 0 <= i < |eligible| && MakeAll(kind, cfg, eligible)[i] == c;
      assert eligible[i] in eligible;
    }
    forall f | f in Files(entries, subPath) && IsComponentFile(f.fileName)
      ensures MakeComponent(kind, cfg, f) in Walk(kind, cfg, entries, subPath)
    {
      var i :| 0 <= i < |eligible| && eligible[i] == f;
      assert MakeAll(kind, cfg, eligible)[i] == MakeComponent(kind, cfg, f);
    }
  }

  /**
   * The description is the name with every hyphen turned into a space,
   * one space, then the kind's label in lower case.
   */
  lemma DescriptionShape(name: string, cfg: KindConfig)
    ensures var d := Description(name, cfg);
      |d| == |name| + 1 + |cfg.description| &&
      (forall i :: 0 <= i < |name| ==> d[i] == (if name[i] == '-' then ' ' else name[i])) &&
      d[|name|] == ' ' &&
      d[|name| + 1..] == ToLower(cfg.description)
  {
    var words := ReplaceAll(name, '-', ' ');
    assert Description(name, cfg) == words + [' '] + ToLower(cfg.description);
    assert forall i :: 0 <= i < |name| ==> Description(name, cfg)[i] == words[i];
  }

  /** The lower-cased kind labels that end the descriptions. */
  lemma KindLabels()
    ensures ToLower(RegistryTypes["ui"].description) == "ui component"
    ensures ToLower(RegistryTypes["blocks"].description) == "block component"
    ensures ToLower(RegistryTypes["components"].description) == "component"
    ensures ToLower(RegistryTypes["hooks"].description) == "hook"
    ensures ToLower(RegistryTypes["lib"].description) == "library"
  {
  }
}
