# Pubspec Manager core, modelled in Dafny

Pubspec Manager is a VS Code extension that shows a Dart/Flutter manifest
(`pubspec.yaml`) as a form. This project models the logic at its centre:

- **the reader** (`PubspecParser.parse`): it turns the document's root map into a
  `PubspecModel`. That model holds seven optional metadata strings, the
  `environment` record and the two dependency lists. Each dependency is
  classified as hosted, git, path or sdk;
- **the edit engine** (`PubspecParser.applyEdits`): it applies a list of edits
  in order. There are four kinds: `setField`, `setDependencyVersion`,
  `addDependency` and `removeDependency`. The edits upsert or delete keys of
  the YAML tree;
- **the editor provider's pure logic**: the version cleaning and the
  three-part comparison behind the staleness record (`fetchOutdatedInfo`,
  `compareVersions`). Also the plan of edits that "update all" builds, and the
  `^` prefix it and the single-package update/add give a version;
- **the webview's pure logic**:
  - the tab and search filtering of the dependency list;
  - the outdated count;
  - the "already added" test for a search result;
  - the attribute escaper.

The YAML document is abstracted to a tree (`YamlTree`):
- a node is a scalar, an ordered map of key/node pairs, or something else;
- keys are string scalars, other scalars or non-scalar nodes;
- lookups by a string key match the first string key;
- `YamlDocument` is the mutable document, a class whose methods are the
  library's `get`/`set`/`delete` calls that the edit engine makes.

The model is built like this:
- The reader's loops and the edit loop are methods. Each is proved equal to
  a specification function (`ModelOf`, `ApplyAll`).
- The properties are lemmas about those functions:
  - what each field reads back;
  - the upsert/no-op rules of each edit;
  - list order;
  - what re-parsing the edited tree yields;
  - that nothing outside an edit's target changes.
- What `String(node)` prints for a non-scalar node is the library's business.
  It enters as a parameter `render`.
- The pub.dev registry enters as a map `infos` from package name to
  `PackageInfo(latestVersion, description)`.

In these places the code behaves differently from what one might expect, and the
model does what the code does:

- **Version cleaning.** The code removes every `^ ~ > = <` and every
  whitespace character, and only then splits on a space. So nothing is ever
  dropped: `>=1.0.0 <2.0.0` becomes `1.0.02.0.0`, not `1.0.0`. That string then
  compares as outdated-minor against `1.0.0`
  (`Versions.CleanVersionJoinsRange`).
- **A map with no known key.** A dependency map with none of
  `git`/`path`/`sdk`/`version` gets version `""`, not `"any"`
  (`PubspecParser.ClassifyMap`).
- **Scalar dependencies.** A scalar dependency gets `"any"` only when it is
  null. An empty string stays `""`.
- **Null environment values.** A null value in `environment` is printed as
  `"null"`.

## Model

| member | source | states |
|---|---|---|
| PubspecParser.Parse | src/services/pubspecParser.ts:5-21 | the model read from a document is exactly `ModelOf`: the seven metadata fields, the environment and both dependency sections |
| PubspecParser.GetEnvironment | src/services/pubspecParser.ts:91-102 | the loop over the `environment` pairs builds exactly `EnvironmentOf`: empty for a null root or a non-map value, otherwise each scalar-keyed pair copied in order |
| PubspecParser.GetDependencies | src/services/pubspecParser.ts:104-156 | the loop over a section's pairs builds exactly `DependenciesOf`: empty unless the section is a map, otherwise one classified entry per scalar-keyed pair, in order |
| PubspecParser.ApplyEdits | src/services/pubspecParser.ts:23-82 | running the edit loop against one mutable document gives `ApplyAll`: the edits applied one after another in list order |
| PubspecParser.UpsertTwice | src/services/pubspecParser.ts:33-37 | creating an empty map and then setting into it is the same as upserting the finished map: the second upsert of a key replaces the first |
| ReadProperties.FieldKeys | src/services/pubspecParser.ts:10-16 | the seven metadata keys are distinct, dot-free and differ from `environment` and both section keys |
| ReadProperties.NullRootModel | src/services/pubspecParser.ts:5-21 | an empty document reads as no metadata, an empty environment and no dependencies |
| ReadProperties.MetadataRead | src/services/pubspecParser.ts:84-89 | a metadata field is undefined exactly when its key is absent or null; a string scalar is read as is, and a non-scalar is read as its rendering |
| ReadProperties.EnvironmentNotMap | src/services/pubspecParser.ts:92-93 | an `environment` that is not a map reads as the empty record |
| ReadProperties.EnvironmentKeys | src/services/pubspecParser.ts:96-100 | a name is in the environment record exactly when some scalar-keyed pair carries it |
| ReadProperties.EnvironmentValue | src/services/pubspecParser.ts:96-100 | the last pair of a name wins: its printed value is what the record holds |
| ReadProperties.ClassifySpec | src/services/pubspecParser.ts:114-151 | the classification of one entry: a scalar gives a hosted entry with its value, or `any` for null; a map checks git, then path, then sdk, then version, else gives `""`; anything else is hosted `any`; `isComplex` holds exactly for non-hosted entries |
| ReadProperties.EntriesConcat | src/services/pubspecParser.ts:110-153 | reading the pairs `a + b` gives the entries of `a` followed by those of `b` |
| ReadProperties.EntriesInOrder | src/services/pubspecParser.ts:110-153 | the entries are the classifications of the scalar-keyed pairs, one each, in document order |
| ReadProperties.EntryNames | src/services/pubspecParser.ts:110-153 | every entry's name is the text of some scalar key of the section |
| ReadProperties.EntriesWellFormed | src/services/pubspecParser.ts:110-153 | every entry is complex exactly when its source is not hosted, and distinct keys give distinct entry names |
| EditProperties.ApplyAllEmpty | src/services/pubspecParser.ts:26-79 | an empty edit list leaves the tree unchanged |
| EditProperties.ApplyAllConcat | src/services/pubspecParser.ts:26-79 | edits apply strictly in list order: running `a` and then `b` is running `a + b` |
| EditProperties.UpsertUnchanged | src/services/pubspecParser.ts:56 | setting a key to the value it already holds changes nothing |
| EditProperties.UpsertLeavesOthers | src/services/pubspecParser.ts:47 | after setting a key, every other key looks up as before, and the other pairs keep their order |
| EditProperties.SetFieldTopLevel | src/services/pubspecParser.ts:43-49 | a path that is not two segments is one top-level key: a non-empty value is set; an empty value deletes the key and is a no-op when it is absent; nothing else changes |
| EditProperties.SetFieldNested | src/services/pubspecParser.ts:30-42 | for a path `a.b`: an empty value is a no-op unless `a` is a map; a non-empty value leaves `a` a map holding `b`; a non-map `a` is replaced by a fresh map; inside a map only `b` changes; no other top-level key changes |
| EditProperties.DependencyEditLeavesOthers | src/services/pubspecParser.ts:53-77 | a dependency edit changes only its own section's top-level entry |
| EditProperties.SetDependencyVersionTree | src/services/pubspecParser.ts:53-59 | the edit is a no-op unless the section is a map; then it sets the entry to a scalar version and leaves the other entries alone; a present entry keeps its index and key, an absent one is appended last |
| EditProperties.AddDependencyTree | src/services/pubspecParser.ts:61-69 | the section always ends up a map holding the scalar version, fresh when the section was missing or not a map; it replaces a complex entry; the other entries are unchanged; in a map a present entry keeps its index and key, an absent one is appended last |
| EditProperties.RemoveDependencyTree | src/services/pubspecParser.ts:71-77 | the edit is a no-op when the section is not a map or lacks the entry; otherwise it deletes the entry and nothing else |
| ReparseProperties.SectionOutside | src/services/pubspecParser.ts:5-21 | a tree change confined to one section key leaves the other section, the metadata and the environment reading as before |
| ReparseProperties.EnvironmentOutside | src/services/pubspecParser.ts:5-21 | a change confined to `environment` leaves the metadata and both sections reading as before |
| ReparseProperties.MetadataOutside | src/services/pubspecParser.ts:5-21 | a change confined to one metadata key leaves every other field reading as before |
| ReparseProperties.DependencyEditModelOutside | src/services/pubspecParser.ts:53-77 | after any dependency edit, re-parsing leaves everything outside the edited section unchanged |
| ReparseProperties.UpsertEntries | src/services/pubspecParser.ts:56 | setting a scalar version puts the hosted entry in the section: in place of the old entry when the name was present, last otherwise; every other entry is unchanged and in order |
| ReparseProperties.RemoveEntries | src/services/pubspecParser.ts:74 | deleting a present name from a section with distinct keys re-reads as the old entries without that name, in order |
| ReparseProperties.SectionDepsOf | src/services/pubspecParser.ts:104-113 | a section reads as the entries of its map, or as empty when it is not a map |
| ReparseProperties.AddDependencyReparse | src/services/pubspecParser.ts:61-69 | after `addDependency` the section re-reads with the new hosted entry, in place of the old one when the name was a key of the section map, last otherwise; every other entry and every other field are unchanged |
| ReparseProperties.SetDependencyVersionReparse | src/services/pubspecParser.ts:53-59 | after `setDependencyVersion` the whole model is unchanged when the section is not a map; otherwise the section holds the new hosted entry, in place of the old one when present and last when absent, and nothing else changes |
| ReparseProperties.RemoveDependencyReparse | src/services/pubspecParser.ts:71-77 | `removeDependency` is a no-op on the model when the entry is absent; otherwise the section re-reads without that name; nothing else changes |
| ReparseProperties.SetMetadataReparse | src/services/pubspecParser.ts:43-49 | `setField` on a metadata key makes the field read back as the value, or as undefined for an empty value when keys are distinct; every other field is unchanged |
| ReparseProperties.EnvironmentConcat | src/services/pubspecParser.ts:96-100 | the environment record of `a + b` is that of `a` overridden by that of `b` |
| ReparseProperties.EnvironmentUpsert | src/services/pubspecParser.ts:41 | setting an environment key to a scalar updates exactly that name of the record |
| ReparseProperties.EnvironmentRemove | src/services/pubspecParser.ts:39 | deleting a present environment key removes exactly that name from the record |
| ReparseProperties.EnvironmentEdit | src/services/pubspecParser.ts:30-42 | `setField("environment.k", v)` updates `k` in the record to `v`, or removes it for an empty value; when it is absent, an empty value changes nothing |
| ReparseProperties.SetEnvironmentReparse | src/services/pubspecParser.ts:30-42 | an environment edit changes only `environment` in the re-read model |
| YamlTree.YamlDocument.constructor | src/services/pubspecParser.ts:24 | the document starts with the parsed root map |
| YamlTree.YamlDocument.Set | src/services/pubspecParser.ts:35 | `doc.set` upserts the top-level key |
| YamlTree.YamlDocument.Delete | src/services/pubspecParser.ts:45 | `doc.delete` removes the first top-level pair of the key |
| YamlTree.YamlDocument.SetIn | src/services/pubspecParser.ts:41 | `parent.set` on the map under a key upserts inside that map, the map itself staying in place |
| YamlTree.YamlDocument.DeleteIn | src/services/pubspecParser.ts:39 | `parent.delete` on the map under a key removes the pair inside that map |
| YamlTree.UpsertPlaces | src/services/pubspecParser.ts:47 | `set` on a present key keeps the pair's index and key and changes only its value; on a new key it appends the pair last |
| YamlTree.LookupUpsertSame | src/services/pubspecParser.ts:47 | after `set(key, v)`, `get(key)` gives `v` |
| YamlTree.LookupUpsertOther | src/services/pubspecParser.ts:47 | `set(key, v)` does not change `get` of any other key |
| YamlTree.UpsertOthers | src/services/pubspecParser.ts:47 | `set(key, v)` keeps the other pairs and their order |
| YamlTree.RemoveOthers | src/services/pubspecParser.ts:45 | `delete(key)` keeps the other pairs and their order |
| YamlTree.LookupRemoveSame | src/services/pubspecParser.ts:45 | with distinct keys, after `delete(key)` the key is absent |
| YamlTree.LookupRemoveOther | src/services/pubspecParser.ts:45 | `delete(key)` does not change `get` of any other key |
| YamlTree.RemoveAbsent | src/services/pubspecParser.ts:45 | deleting an absent key changes nothing |
| YamlTree.UpsertKeepsDistinct | src/services/pubspecParser.ts:47 | `set` keeps the key texts distinct when the key is already present or no number or boolean key prints as it |
| YamlTree.RemoveKeepsDistinct | src/services/pubspecParser.ts:45 | `delete` keeps the keys distinct |
| Strings.Split | src/services/pubspecParser.ts:29 | `split('.')` gives one piece more than there are dots, and no piece holds a dot |
| Strings.JoinSplit | src/services/pubspecParser.ts:29 | joining the pieces of `split` again gives back the path |
| Strings.SplitWithoutSeparator | src/services/pubspecParser.ts:29-30 | a path without a dot splits into itself alone, and so is handled as one top-level key |
| Strings.SplitAtSeparator | src/services/pubspecParser.ts:29-30 | a path `a.b` with dot-free segments splits into exactly `[a, b]` |
| EditorProvider.FetchOutdatedInfo | src/providers/pubspecEditorProvider.ts:129-170 | nothing is recorded exactly when there are no hosted dependencies; otherwise the record is `Records` of the hosted dependencies of both sections |
| EditorProvider.HostedDepsMembers | src/providers/pubspecEditorProvider.ts:132-135 | the dependencies checked are exactly the non-complex ones of either section |
| EditorProvider.RecordOfEntry | src/providers/pubspecEditorProvider.ts:145-159 | a record keeps the declared version; an unknown package, or one whose latest version is `unknown`, gets latest `unknown`, status unknown and no description; otherwise it gets the registry's latest version and description, and the status of the cleaned version compared with it |
| EditorProvider.RecordUpToDate | src/providers/pubspecEditorProvider.ts:145-159 | a record is up to date exactly when the package is known and the cleaned and latest versions are both three numbers and equal |
| EditorProvider.RecordsKeys | src/providers/pubspecEditorProvider.ts:145-159 | the record has a key exactly for the names of the checked dependencies |
| EditorProvider.RecordsLastWins | src/providers/pubspecEditorProvider.ts:145-159 | a name declared more than once keeps the record of its last declaration |
| EditorProvider.RecordsOfModel | src/providers/pubspecEditorProvider.ts:132-159 | the record holds exactly the names of the model's hosted dependencies |
| EditorProvider.UpdatePlan | src/providers/pubspecEditorProvider.ts:224-241 | the loop of "update all" builds exactly `Plan` of the hosted dependencies, dependencies first |
| EditorProvider.PlanConcat | src/providers/pubspecEditorProvider.ts:233-241 | the plan of `a + b` is the plan of `a` followed by the plan of `b` |
| EditorProvider.PlanMembers | src/providers/pubspecEditorProvider.ts:233-241 | an edit is in the plan exactly when some dependency needs an update and it is that dependency's edit |
| EditorProvider.PlanEdits | src/providers/pubspecEditorProvider.ts:236-239 | the plan has at most one edit per dependency; each is a `setDependencyVersion` to `^` plus a known latest version |
| EditorProvider.PlanEmpty | src/providers/pubspecEditorProvider.ts:243-247 | the plan is empty exactly when no dependency needs an update, which is when no edit is applied |
| EditorProvider.PlanSection | src/providers/pubspecEditorProvider.ts:238 | every edit targets the section its dependency came from |
| EditorProvider.PlanOfModel | src/providers/pubspecEditorProvider.ts:225-241 | the plan is the edits for `dependencies` followed by those for `dev_dependencies` |
| EditorProvider.NeedsUpdateRecord | src/providers/pubspecEditorProvider.ts:235-237 | a dependency needs an update exactly when its staleness record has a known latest version and is not up to date |
| EditorProvider.DependencyEditsKeepRest | src/services/pubspecParser.ts:53-77 | any list of dependency edits leaves the metadata and the environment reading as before |
| EditorProvider.PlanKeepsRest | src/providers/pubspecEditorProvider.ts:243-247 | applying the "update all" plan leaves the metadata and the environment unchanged |
| EditorProvider.UpdatePackageReparse | src/providers/pubspecEditorProvider.ts:207-209 | updating one package sets its entry to hosted `^latest` when the section is a map, in place when present and last when absent, and is a no-op on the model otherwise; everything else is unchanged |
| EditorProvider.AddPackageReparse | src/providers/pubspecEditorProvider.ts:271-273 | adding a package gives a hosted `^version` entry, in place of the old one when present and last otherwise; the other entries and fields are unchanged |
| EditorProvider.RemovePackageReparse | src/providers/pubspecEditorProvider.ts:262 | removing a package drops its entry, or changes nothing when it is absent; every other entry and field is unchanged |
| EditorProvider.RemoveThenAdd | src/providers/pubspecEditorProvider.ts:262-272 | removing `a` from `{a, b}` and adding `c` gives `{b, c: ^version}`, in that order |
| EditorProvider.RemoveThenAddPath | src/providers/pubspecEditorProvider.ts:262-272 | after the same two edits, a path dependency `b` still reads as a complex path entry, followed by the hosted `c` |
| Versions.Stripped | src/providers/pubspecEditorProvider.ts:151 | the removal of `^ ~ > = <` and whitespace keeps only other characters, in their original order |
| Versions.CleanVersionKeepsAll | src/providers/pubspecEditorProvider.ts:151 | after the removal there is no space left, so the split on a space drops nothing: the cleaned version is the stripped string |
| Versions.CleanVersionIdempotent | src/providers/pubspecEditorProvider.ts:151 | cleaning a cleaned version changes nothing |
| Versions.StrippedConcat | src/providers/pubspecEditorProvider.ts:151 | the removal works character by character |
| Versions.StrippedKeeps | src/providers/pubspecEditorProvider.ts:151 | a version with no operator or space is left as is |
| Versions.CleanVersionJoins | src/providers/pubspecEditorProvider.ts:151 | a range `>=v <w` cleans to `v` and `w` run together |
| Versions.CleanVersionJoinsRange | src/providers/pubspecEditorProvider.ts:151 | `>=1.0.0 <2.0.0` cleans to `1.0.02.0.0`, which compares as outdated-minor against `1.0.0` |
| Versions.CleanVersionCaret | src/providers/pubspecEditorProvider.ts:208 | the `^` that an update writes is removed again by the cleaning |
| Versions.CaretExample | src/providers/pubspecEditorProvider.ts:151-156 | a dependency written as `^1.2.3` is up to date against `1.2.3` |
| Versions.NumberOfDigits | src/providers/pubspecEditorProvider.ts:173-174 | `Number` of a digit string is its decimal value |
| Versions.NumberOfExamples | src/providers/pubspecEditorProvider.ts:173-174 | `Number("")` is 0 and `Number("12")` is 12 |
| Versions.NumberOfNaN | src/providers/pubspecEditorProvider.ts:173-174 | a part holding a character that is neither a digit nor a space is NaN |
| Versions.NumberOfPadded | src/providers/pubspecEditorProvider.ts:173-174 | `Number` ignores surrounding whitespace |
| Versions.TrimStartDropsSpaces | src/providers/pubspecEditorProvider.ts:173-174 | the leading whitespace trim drops only whitespace and leaves a suffix that starts with a non-space |
| Versions.TrimEndDropsSpaces | src/providers/pubspecEditorProvider.ts:173-174 | the trailing whitespace trim drops only whitespace and leaves a prefix that ends with a non-space |
| Versions.ComparePartsCases | src/providers/pubspecEditorProvider.ts:175-184 | the comparison of parts: unknown exactly when either list has fewer than three parts or a NaN first part; up to date exactly when all six are numbers and equal; major exactly when the first parts are numbers and the current one is lower |
| Versions.CompareUnknown | src/providers/pubspecEditorProvider.ts:173-178 | the status is unknown exactly when either version has fewer than three parts or a NaN first part, which covers the empty string |
| Versions.CompareUpToDate | src/providers/pubspecEditorProvider.ts:180-182 | the status is up to date exactly when both versions are three numbers and they are equal |
| Versions.CompareOutdatedMajor | src/providers/pubspecEditorProvider.ts:183 | the status is outdated-major exactly when both are comparable and the current major is lower |
| Versions.CompareOutdatedMinor | src/providers/pubspecEditorProvider.ts:184 | the status is outdated-minor exactly when both are comparable, the current major is not lower, and the versions are not equal |
| Versions.CompareReflexive | src/providers/pubspecEditorProvider.ts:172-185 | a version compared with itself is up to date exactly when it is three numbers |
| Versions.CompareSwap | src/providers/pubspecEditorProvider.ts:172-185 | unknown and up to date are symmetric, and a version outdated-major against another makes that other outdated-minor against it |
| Versions.CompareIgnoresTail | src/providers/pubspecEditorProvider.ts:174-184 | parts after the third do not affect the status |
| Versions.CompareTriples | src/providers/pubspecEditorProvider.ts:180-184 | for two numeric triples the status is up to date when they are equal, outdated-major when the current major is lower, else outdated-minor |
| Versions.CompareExamples | src/providers/pubspecEditorProvider.ts:172-185 | `1.2.3` against itself is up to date, against `2.0.0` outdated-major and against `1.3.0` outdated-minor |
| Versions.PartsOfDigits | src/providers/pubspecEditorProvider.ts:174 | `a.b.c` with digit segments has the parts of their values |
| Webview.FilteredAll | webview/main.ts:165-168 | the `all` tab lists the dependencies and then the dev dependencies, each tagged with its section |
| Webview.FilteredOneSection | webview/main.ts:169-174 | the `deps` and `dev` tabs list exactly one section, tagged and in order |
| Webview.FilteredOutdated | webview/main.ts:175-179 | the `outdated` tab holds exactly the entries whose record is outdated-minor or outdated-major |
| Webview.FilteredSearch | webview/main.ts:183-186 | a search keeps exactly the tab's entries whose lower-cased name contains the lower-cased query |
| Webview.FilteredSubsequence | webview/main.ts:157-189 | every filtered list is a subsequence of all the entries, in order |
| Webview.FilterTagAll | webview/main.ts:162-163 | filtering tagged entries is tagging the filtered dependencies |
| Webview.OutdatedCountMatchesTab | webview/main.ts:244-247 | the outdated count shown equals the length of the `outdated` tab |
| Webview.AlreadyAddedIff | webview/main.ts:319-320 | a search result is already added exactly when a dependency of that name is in either section |
| Webview.EscapeAttrConcat | webview/main.ts:522-524 | escaping works character by character |
| Webview.EscapeAttrChar | webview/main.ts:522-524 | each of `& " ' < >` becomes its entity and every other character stays |
| Webview.EscapeAttrSinglePass | webview/main.ts:522-524 | the five chained replacements equal one pass of per-character escaping, since no entity holds a later special character |
| Webview.EscapeAttrSafe | webview/main.ts:522-524 | the escaped text holds no quote or angle bracket, and every `&` in it begins an entity |
| Webview.UnescapeEscapeAttr | webview/main.ts:522-524 | decoding the five entities gives back the original text, so escaping loses nothing |
| Strings.ToLowerIdempotent | webview/main.ts:184-185 | lower-casing twice is lower-casing once, and no ASCII capital remains |
| Strings.IncludesCharacterized | webview/main.ts:185 | `includes` holds exactly when the query occurs at some position |
| Strings.ReplaceAllRemoves | webview/main.ts:523 | after `replace(/c/g, rep)` with a `c`-free `rep`, no `c` remains |
| Seqs.Filter | webview/main.ts:176 | `filter` keeps only elements satisfying the predicate, never more than it was given |
| Seqs.FilterMembers | webview/main.ts:176 | an element survives the filter exactly when it was there and satisfies the predicate |
| Seqs.FilterIsSubsequence | webview/main.ts:176 | `filter` keeps the original order |

## Left out

- The YAML text layer is not modelled. That covers parsing text into a
  document, `toString`, and the comment and formatting preservation of
  `keepSourceTokens` (src/services/pubspecParser.ts:6, 24, 81). The model
  works on the abstract tree.
- A root that is neither null nor a map is not modelled. The reader
  casts it to a map without checking.
- Edits on a null root are not modelled. `ApplyEdits` takes the root to be
  a map.
- Aliasing of nested maps is not modelled. A nested map is reached through
  its key, so in-place updates of a map shared by anchors and aliases are out.
- What `String(node)` prints for a non-scalar node is the library's output.
  It is a parameter `render`.
- Lookups by a number or boolean key are not modelled. The library
  compares keys by value, so `get` matches only string keys; `NonStr` keys
  are only read.
- `environment` becomes a map, so the order of its keys is not
  modelled.
- The registry calls (`batchGetPackageInfo`, `getLatestVersion`,
  `searchPackages`) are out, and so is the rest of `src/services/pubDevApi.ts`.
  The answers are parameters: the map `infos` and the string `latest`.
- Message passing with the webview (`postMessage`) is out, and so is
  the error messages sent from `catch` blocks, the VS Code
  `WorkspaceEdit` that replaces the document text and the rest of the
  extension glue (`src/extension.ts`, `src/services/dartPubRunner.ts`).
  These are I/O.
- HTML rendering of the webview is out, apart from the filtering, the
  count, the "already added" test and `escapeAttr`.
- `updateAllPackages` applies its plan only when the plan is non-empty
  (src/providers/pubspecEditorProvider.ts:243-247). The model does not
  apply it; the condition is stated by `EditorProvider.PlanEmpty`.
- Strings.ToLower: lowers ASCII letters only, because Unicode case mapping
  is not available on `seq<char>`.
- Versions.NumberOf: models the JavaScript `Number` of a version part as
  decimal digits with surrounding whitespace, and an empty or blank part as
  0. It does not model signs, decimals, exponents, hexadecimal forms or
  `Infinity`, which give a number in JavaScript but NaN here. JavaScript reads
  a part as a double, exact only up to 2^53; the model's value is exact, so
  for example `9007199254740992.0.0` against `9007199254740993.0.0` is
  up-to-date in JavaScript and outdated-major here.
- Versions.NumberOfDigits: gives the exact decimal value, where JavaScript
  rounds values above 2^53 to a double.
- Versions.PartsOfDigits: gives the exact values of the parts, where
  JavaScript rounds values above 2^53 to a double.
