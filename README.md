# Registry builder model

This project models the registry builder of the Asth UI component library,
`scripts/build-registry.mjs`, in Dafny. The builder does the following:

- It walks the source tree, where each sub-directory holds one kind of item.
  The kinds are `ui`, `blocks`, `components`, `hooks` and `lib`.
- It turns every eligible `.tsx`/`.ts` file into a registry item. An item has
  a name, a type, a description, a source path, an install target, and two
  dependency lists:
  - the npm packages the file imports;
  - the sibling UI primitives it imports through `@/components/ui/…`.
- It writes one artifact `<name>.json` per item. The artifact carries the
  file's source text.
- It writes a manifest, `registry.json`, listing every item.
- It writes a category index, `categories.json`, built from the second piece
  of each item path.

The model is split into these modules:

- `Wrappers`: `Option`.
- `Strings`: `startsWith`, `endsWith`, `includes`, `split`/`join`, `replace`
  (first occurrence), `replace(/-/g, " ")`, `toLowerCase`, and
  `charAt(0).toUpperCase() + slice(1)`.
- `OrderedSets`: a JavaScript `Set` filled in order and read back with
  `Array.from`. This is `Dedup`: each value kept once, at the place it was
  first added.
- `Json`: objects as ordered member lists, with `undefined` as a value.
  - `Defined` is the object once its `undefined` keys are gone.
  - `Assign` is the override of one key by a spread literal.
- `Imports`: `extractDependencies` and `extractRegistryDependencies`. Each is
  an imperative method over the module specifiers the import patterns capture,
  proved against a pure specification function.
- `RegistryItems`:
  - the kind table `REGISTRY_TYPES`;
  - the derivation of an item from a file;
  - the summary and artifact JSON shapes, and the in-place deletion of
    `undefined` keys;
  - the walk of a directory tree as a pure function (`Walk`).
- `Builder`:
  - the build as a class, `RegistryBuilder`, whose fields are the shared
    `registry` array and the output directory (a map from file name to JSON
    value);
  - the methods `ProcessDirectory`, `ProcessEntry`, `ProcessFile` and
    `BuildRegistry`, which update those fields;
  - the category index as an imperative method;
  - the specification of a whole build (`BuildOutcome`, `BuildOutput`) and
    lemmas about it.

The file system is abstracted away:

- Listings come in as an `Entry` tree whose children are in listing order.
- A file comes with its text and with the module specifiers its imports
  capture.
- A root that cannot be listed is `None`.
- Written files go into the `output` map.

## Model

| member | source | states |
|---|---|---|
| `RegistryItems.KindLabels` | scripts/build-registry.mjs:15-41 | the five kind labels, lower-cased as descriptions end with them: `ui component`, `block component`, `component`, `hook`, `library` |
| `Imports.ExtractDependencies` | scripts/build-registry.mjs:46-70 | the result is the first-seen-order deduplication of the package names of the external specifiers; it has no duplicates; a name is in it exactly when some external specifier yields it |
| `OrderedSets.Dedup` | scripts/build-registry.mjs:65-69 | reading back a `Set` filled from a sequence yields no value twice and exactly the values of the sequence |
| `OrderedSets.DedupFirstSeenOrder` | scripts/build-registry.mjs:65-69 | of two values read back from the `Set`, the earlier one was first added earlier |
| `OrderedSets.DedupOfDistinct` | scripts/build-registry.mjs:65-69 | a sequence without repeats goes through the `Set` unchanged |
| `Imports.NoLocalDependencies` | scripts/build-registry.mjs:54 | no external dependency starts with `.` or `@/` (so `@/components/ui/button` never is one), and each is a prefix of an external specifier of the file |
| `Imports.LeadingPiecesShape` | scripts/build-registry.mjs:56-58 | the split/slice/join result is the part of the specifier before its first `/`, or before its second for a specifier starting with `@`; an unscoped name contains no `/` |
| `Imports.MotionNormalisation` | scripts/build-registry.mjs:60-63 | the package name is `motion` exactly for `motion` and `motion/...`, and the normalisation never changes the name the split already gave |
| `Imports.PackageNameShape` | scripts/build-registry.mjs:56-63 | the package name is a prefix of the specifier ending at a `/` or at its end, with at most one `/` when scoped and none otherwise, and is `motion` exactly for `motion` and `motion/...` |
| `Imports.ExtractRegistryDependencies` | scripts/build-registry.mjs:75-85 | the result is the whole remainder after `@/components/ui/` of each matching specifier, deduplicated in first-seen order; a value is in it exactly when it is non-empty and the alias followed by it is a specifier of the file |
| `Imports.UiComponentOf` | scripts/build-registry.mjs:77-81 | a specifier contributes the registry dependency `x` exactly when it is `@/components/ui/` followed by a non-empty `x` |
| `RegistryItems.WalkIsEligibleFiles` | scripts/build-registry.mjs:200-218 | the walk registers the eligible files of the whole tree in depth-first listing order, entering every directory whatever its name |
| `RegistryItems.WalkMembership` | scripts/build-registry.mjs:204-218 | a component is registered for a tree exactly when it is made from a file of the tree whose name ends in `.tsx` or `.ts` and neither ends in `.d.ts` nor contains `.test.` or `.spec.` |
| `RegistryItems.ComponentNameOfBase` | scripts/build-registry.mjs:221-222 | for `base.tsx` or `base.ts` with no `.` in `base`, the extension is the one the file has and the component name is `base` |
| `RegistryItems.ComponentNameAtEnd` | scripts/build-registry.mjs:221-222 | for any eligible file whose extension occurs nowhere before the end, the component name is the file name with the trailing extension cut off |
| `Strings.ReplaceFirstAt` | scripts/build-registry.mjs:222 | `replace` with an empty replacement, when the pattern first occurs at position `n`, removes exactly the characters at `n` up to `n` plus the pattern length and keeps everything else |
| `RegistryItems.ComponentNameFirstOccurrence` | scripts/build-registry.mjs:222 | only the first occurrence of the extension is removed: `a.tsx.ts` has extension `.ts` and is registered as `ax.ts` |
| `RegistryItems.DescriptionShape` | scripts/build-registry.mjs:243 | the description is the name with every hyphen turned into a space and every other character kept, one space, then the kind's label in lower case |
| `RegistryItems.TargetShape` | scripts/build-registry.mjs:230-237 | split at `/`, the install target is the pieces of the kind's prefix, then the category when there is one, then name plus extension; directories below the first are dropped |
| `RegistryItems.DeleteUndefinedKeys` | scripts/build-registry.mjs:256-261 | deleting each key whose value is `undefined`, in key order, leaves exactly the defined members in their order |
| `RegistryItems.SummaryMembersAre` | scripts/build-registry.mjs:240-261 | the summary item is the four fixed members followed by each dependency member whose list is non-empty |
| `RegistryItems.SummaryKeys` | scripts/build-registry.mjs:251-253 | the keys of the summary item are `name`, `type`, `description`, `files`, then `dependencies` and `registryDependencies` each only when its list is non-empty; an empty list is never written as `[]` |
| `RegistryItems.SummaryLists` | scripts/build-registry.mjs:251-253 | a non-empty dependency list is written in full and an empty one is absent |
| `RegistryItems.SummaryFiles` | scripts/build-registry.mjs:244-250 | the summary's `files` is the one entry with path, type and target and no source text, and no member of the summary is `undefined` |
| `RegistryItems.ArtifactExtendsSummary` | scripts/build-registry.mjs:268-278 | the artifact has the summary's keys in the same order and the same values, except that the one `files` entry also carries the source text, placed after `path` |
| `Builder.RegistryBuilder.ProcessDirectory` | scripts/build-registry.mjs:191-213 | processing a directory appends the summary of every component `Walk` gives for it to `registry`, and writes their artifacts over the output directory in that order |
| `Builder.RegistryBuilder.ProcessEntry` | scripts/build-registry.mjs:200-218 | one entry: a sub-directory is processed recursively, an eligible file is processed, any other file is skipped |
| `Builder.RegistryBuilder.ProcessFile` | scripts/build-registry.mjs:220-284 | an eligible file writes the artifact of the component made from it under `<name>.json` and appends that component's summary item to `registry` |
| `Builder.RegistryBuilder.BuildRegistry` | scripts/build-registry.mjs:90-186 | the outcome and the final output directory are those of the build specification: failure with nothing written for an unreadable root, nothing built for a root without kind directories, otherwise the artifacts, the manifest and the category index; the registry field ends as the summaries of all components in walk order, or empty when nothing was built |
| `Builder.CategoryIndex` | scripts/build-registry.mjs:160-171 | the category index computed by the loop over the registered items is the labelled first-seen-order deduplication of the items' index keys; no items give an empty index |
| `Builder.CategoryIndexShape` | scripts/build-registry.mjs:163-170 | every category is labelled with its first character upper-cased, no category appears twice, and a category is present exactly when it is the second piece of some path with more than two pieces |
| `Builder.IndexKeysMembership` | scripts/build-registry.mjs:161-166 | a key is collected exactly when some path has more than two pieces with that key as its second |
| `Builder.ItemIndexKey` | scripts/build-registry.mjs:162-164 | the index key of an item's path is the item's category, present exactly when the file lies in a sub-directory of its kind directory |
| `Builder.ComponentsAreKindFiles` | scripts/build-registry.mjs:110-142 | a component is registered exactly when it is made from an eligible file below a root directory whose name is a key of the kind table, with that kind's row |
| `Builder.KnownKinds` | scripts/build-registry.mjs:113-116 | every registered item has the type of a known kind, and its path starts with that kind's directory |
| `Builder.ArtifactFiles` | scripts/build-registry.mjs:263-282 | after the artifacts are written, a file exists exactly when it existed before or some component is named after it |
| `Builder.ArtifactIsLastWrite` | scripts/build-registry.mjs:279-282 | a file named after a component holds the artifact of the last component with that name |
| `Builder.ArtifactUntouched` | scripts/build-registry.mjs:279-282 | a file no component is named after keeps its previous contents |
| `Builder.BuildEnds` | scripts/build-registry.mjs:110-124 | the exit code is 1 exactly when the root cannot be listed; the build produces output exactly when the root holds a recognised kind directory, and otherwise writes nothing |
| `Builder.BuildWrites` | scripts/build-registry.mjs:144-176 | a successful build writes the manifest with one item per registered component and the count it reports, then the category index; every other file is the artifact of a registered component |
| `Builder.BuildKeepsArtifact` | scripts/build-registry.mjs:263-282 | a component whose name no later component and neither index file reuses keeps its own artifact in the final output |
| `Builder.JsonFileNames` | scripts/build-registry.mjs:264-267 | an artifact clashes with `registry.json` or `categories.json` exactly for an item named `registry` or `categories` |
| `Builder.SameNameTwice` | scripts/build-registry.mjs:234-254 | two eligible files with the same name in different sub-directories give two items of the same name with different paths, and the manifest lists both |
| `Builder.SameNameLastArtifact` | scripts/build-registry.mjs:264-282 | of two items with the same name, only the one met last keeps its artifact |

## Behaviour worth noting

- **Unreadable root.** When the root directory cannot be listed, `readdir`
  throws, and the `catch` at lines 182-185 exits with status 1. In the model
  `BuildOutcome` is `Failed` and `ExitCode` is 1 (`Builder.BuildEnds`). Only
  a root that can be listed but holds no recognised kind directory gets the
  notice at lines 119-123, with status 0.
- **Item names are not unique.** The script never checks item names for
  uniqueness. Two files with the same name in different categories are both
  listed in the manifest, and the artifact of the one met later replaces the
  other's (`Builder.SameNameTwice`, `Builder.SameNameLastArtifact`). An item
  named `registry` or `categories` has its artifact replaced by the index
  file of that name (`Builder.JsonFileNames`).
- **Unchecked content.** The script never checks that a registry dependency
  differs from the item itself, and never rejects paths with traversal
  segments. The model does not either.

## Left out

- File-system and process effects are not modelled: `fs.rm`, `fs.mkdir`,
  `fs.readFile`, `fs.writeFile`, `console.*`, and the absolute paths
  `REGISTRY_PATH`/`OUTPUT_PATH`.
  - Listings and file contents are inputs.
  - The output directory is a map from file name to JSON value.
  - Clearing the directory is the map being reset.
- I/O errors after the root listing are not modelled. A failing `readdir` of a
  sub-directory or a failing `readFile`/`writeFile` would abort the build with
  status 1 and leave partial output. Only an unreadable root is modelled.
- The JavaScript regular-expression engine of lines 48 and 77 is not
  modelled. Each file supplies its specifiers in source order:
  - `importSpecifiers` holds the module specifiers the external pattern
    captures. That pattern allows newlines between `import` and `from`.
  - `fromSpecifiers` holds the module specifiers after `from` in the
    matches of the registry-dependency pattern. In such a match the text
    between the whitespace after `import` and the `from` keyword holds no
    line break (`.*?` without the dotall flag). The whitespace around it may
    hold line breaks, and one match may run over several statements on a
    line.

  The two lists are independent, so the two extractors need not agree.
- `JSON.stringify` is not modelled: indentation, escaping, and the dropping
  of `undefined` during serialisation. JSON values are kept as a datatype.
- Case mapping covers ASCII letters only, in `toLowerCase` and in the
  category label's `toUpperCase`. Full Unicode case mapping is not modelled.
- `RegistryItems.DeleteUndefinedKeys` works on the object as an ordered
  sequence of members and returns the new sequence. It does not update a
  shared object in place, so aliasing of `registryItem` is not captured. No
  other reference to the object exists at that point.
- Symbolic links and other non-regular entries are not modelled. An entry is
  either a directory or a file.
- `src/registry/schema.ts`, the route handlers under `src/app`, and all React
  components and registry payloads are not part of this model. They are type
  declarations, thin file reads, or presentation code.
