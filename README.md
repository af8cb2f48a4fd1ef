# typescript-dynamic-path-plugin: the alias-resolution core in Dafny

The plugin is a tsserver plugin for projects whose imports start with
`@/`. For example, `import x from "@/api/user"` is resolved relative to the first
(outermost) configured root directory on the importing file's path. Such a root
is `ACT/<a>/<b>/` or `COMMON/<a>/`: a literal directory name followed by a fixed
number of directory levels. In `/ACT/a/b/ACT/c/d/x.ts` the code takes the outer
`ACT/a/b/`, not the nearer `ACT/c/d/` (see "Leftmost match" below).

The model covers four parts:

- **The pattern compiler** `createFilter` (`Filters`). It emits the
  text of two regular expressions. Each one comes with a matcher that states what
  that regex does on literal names.
  - `FileFilter.Exec` finds the leftmost match. At each start offset the
    alternatives are tried in roots order. It returns the match's end offset.
  - `ImportFilter.Test` is `^@/(f1|f2|…)\b`, with `\b` stated exactly.
  - An empty roots list compiles to `/()/` and an empty folders list to
    `^@/()\b`. Each has one alternative, the empty name (`Alternatives`).
- **The probe loop and the rebuilt target** (`Probing`). Both copies of the
  resolver share the extension priority list `.ts, .tsx, .js, .jsx` and the
  loop that stops at the first existing candidate. The target is the
  containing file up to the end of the `fileFilter` match, followed by the
  specifier with its first `@/` removed.
- **The plugin factory of src/index.ts** (`Plugin`). It is a class with three fields:
  - the cache of resolved file names, closure state of the factory (src/index.ts:33);
  - the `.vue` files registered per project, closure state too (src/index.ts:30);
  - the projects whose `getScriptKind` has been overridden. The code marks
    such a project by storing `__vue_getScriptKind` on the project object itself
    (src/index.ts:183-184); the model keeps this mark in the factory.

  Its methods are `resolvedModule`, the installed `resolveModuleNames`
  interceptor, `create` and `getExternalFiles`. `ResolveAlias` and
  `ResolveModuleNames` are proved against the functions `Step` and `Intercept`,
  whose properties are lemmas. `Create` states its effect on the fields directly
  in its own ensures, and `GetExternalFiles` is itself a function.
- **The consolidated helpers of src/utils.ts** (`Utils`). These are the configuration
  defaults, the `.vue` path predicates, `resolveVueFile`, and
  `resolvedCustomRelativeModule` with its module-level cache of records.

Modelling choices:

- **File existence** is a set of paths `files`: `fileExists(p)` is `p in files`.
  It is a parameter of every call, so differing sets may be given to two calls.
- **`path.resolve` and `path.dirname`** are function parameters of `ResolveVueFile`.
- **Host answers longer than `moduleNames`.** `moduleNames[index]` past the end
  is `undefined`, and the regex test reads it as the text "undefined"
  (`NameAt`). That text never passes the import filter, so the interceptor
  needs no precondition on the two lengths.
- **Truthiness.** `!cache[module]` is modelled as "the key is absent". This is
  exact for two reasons:
  - Every stored file name is longer than the target, so it is never empty. The
    same holds for every stored record, which is an object.
  - Every target contains `/` (`AliasTargetShape`), so no target names an
    inherited property of a JavaScript object.

Three behaviours of the code, each modelled as written:

- **Leftmost match.** `fileFilter` is applied with `String.prototype.match`
  without the `g` flag (src/index.ts:39). That returns the leftmost match in
  the path, not the last root in it.
- **No conflicting-declaration override.** The interceptor in
  src/index.ts:139-153 never turns a declaration file the host resolved into a miss.
- **No relative `.vue` fallback.** That interceptor never calls `resolveVueFile`.

Files:

| file | module | contents |
|---|---|---|
| prelude.dfy | `Prelude` | `Option`, the string predicates, `ReplaceFirst` |
| filters.dfy | `Filters` | `createFilter` and the two matchers |
| probe.dfy | `Probing` | the resolved-module record, the probe loop, the rebuilt target |
| plugin.dfy | `Plugin` | src/index.ts |
| utils.dfy | `Utils` | src/utils.ts |

## Model

| member | source | states |
|---|---|---|
| Prelude.ReplaceFirstAt | src/index.ts:42 | when `@/` first occurs at `i`, exactly that occurrence is removed and the rest is kept |
| Prelude.ReplaceFirstAbsent | src/index.ts:42 | a specifier without `@/` is left unchanged |
| Prelude.ReplaceFirst | src/index.ts:42 | `replace("@/", "")` with a string pattern: no occurrence leaves the text unchanged; otherwise one occurrence is replaced, so the length changes by the difference once |
| Prelude.OccursAtJoin | src/index.ts:16 | two adjacent occurrences make one occurrence of their concatenation |
| Prelude.ContainsOccurs | src/utils.ts:55 | an unanchored literal regex test holds iff the literal occurs at some offset |
| Prelude.ContainsNeedsChar | src/utils.ts:55 | a literal cannot occur in a string that lacks one of its characters |
| Filters.RootPattern | src/index.ts:13-19 | the `+=` loop builds the root's name followed by exactly `depth` copies of `/[^/]+` |
| Filters.RootPatternShape | src/index.ts:14-18 | the pattern is the name's length plus six characters per level long, starts with the name, and every 6-character slice after it is `/[^/]+` |
| Filters.RepeatSegmentAt | src/index.ts:15-17 | the `k`-th appended copy sits at offset `6k` |
| Filters.RepeatSegmentLength | src/index.ts:15-17 | `depth` appended copies take `6·depth` characters |
| Filters.RootPatterns | src/index.ts:13 | as many patterns as roots (the ensures); pattern `i` is `RootPatternText` of root `i` (the comprehension that defines it) |
| Filters.CreateFilter | src/index.ts:12-24 | the file filter is `/(`, the patterns joined by a vertical bar in roots order, then `)/`; the import filter is `^@/(`, the folders joined by a vertical bar, then `)\b`; the copy in src/utils.ts:13-25 is identical |
| Filters.NonSlashRun | src/index.ts:16 | `[^/]+` takes the whole run of non-`/` characters, up to the next `/` or the end |
| Filters.NonSlashRunExact | src/index.ts:16 | a run of non-`/` characters ended by `/` is exactly what `[^/]+` takes |
| Filters.SegmentsEnd | src/index.ts:16 | `depth` segments take at least two characters each |
| Filters.SegmentsHead | src/index.ts:16 | the first of a run of `/`-separated segments is what one `/[^/]+` takes |
| Filters.AllSegmentsTail | src/index.ts:16 | dropping the first of a list of segments leaves segments |
| Filters.SegmentsNext | src/index.ts:16 | after the first `/` and segment, the rest of the joined segments follows, ending at the same `/` |
| Filters.SegmentsFromOccurs | src/index.ts:16 | joined segments followed by `/` are exactly the successive `/`-delimited non-`/` runs from that offset |
| Filters.SegmentsFromCons | src/index.ts:16 | a `/`, one full run, then further runs, make one run more |
| Filters.SegmentsEndFrom | src/index.ts:16 | along such runs the repeated `/[^/]+` ends right before the closing `/` |
| Filters.SegmentsEndComplete | src/index.ts:16 | `depth` concrete `/`-prefixed non-empty segments followed by `/` are matched in full |
| Filters.AltEnd | src/index.ts:21 | one alternative matches at offset `i` only on `/` + name; its match ends right after a `/` |
| Filters.FirstAlternative | src/index.ts:21 | at one offset the first root in roots order that matches is taken, and no earlier root matches there |
| Filters.FirstMatchStart | src/index.ts:39 | the match starts at the leftmost offset where some alternative matches, and nothing matches before it |
| Filters.FileFilter.Exec | src/index.ts:39-41 | `m.index + m[0].length`: defined iff some offset matches; it ends just after a `/` and is the end of the leftmost match |
| Filters.FileFilter.Alternatives | src/index.ts:21 | the alternatives are the roots; with no roots the regex `/()/` has the one empty alternative, whose source text is the same |
| Filters.FileFilter.Test | src/index.ts:143 | a passing path has at least two characters, for the `/` before and after a root; the full characterisation is `FileFilterTestIff` |
| Filters.PlaceParts | src/index.ts:39 | facts about where the parts of `pre + "/" + name + segs + "/" + rest` sit |
| Filters.PlaceRootAt | src/index.ts:39 | any prefix, then a root with its segments and a `/`, puts the root right after the prefix |
| Filters.AltEndFromParts | src/index.ts:21 | a `/`, the name, the segments and a closing `/` make the alternative match there |
| Filters.AltEndAtRoot | src/index.ts:21 | a root placed at `i` is matched there, ending after the `/` that follows its segments |
| Filters.FirstAlternativeIs | src/index.ts:21 | a root that matches, with no earlier root matching at that offset, is the alternative taken |
| Filters.FirstMatchStartIs | src/index.ts:39 | an offset that matches, with no match at any earlier offset, is where the match starts |
| Filters.SplitBoundary | src/index.ts:39-41 | when no root sits at any earlier offset and no earlier root sits at the same offset, the prefix kept is everything up to and including the `/` after the root's `depth` segments |
| Filters.SegmentsEndCons | src/index.ts:16 | one step of the repeated `/[^/]+`: a `/`, a non-empty run without `/`, then the remaining segments to the same end |
| Filters.SegmentsEndSound | src/index.ts:16 | where `depth` copies of `/[^/]+` end, that many real segments were crossed, and they sit exactly there |
| Filters.SoundStep | src/index.ts:16 | one segment in front of segments already crossed makes one list of segments crossed from the earlier offset |
| Filters.JoinCons | src/index.ts:16 | the joined text of a list of segments is `/`, the first segment, then the rest joined |
| Filters.AllSegmentsCons | src/index.ts:16 | a segment in front of segments gives segments |
| Filters.AltEndSound | src/index.ts:21 | where one alternative matches, its root really sits there and the match ends after the `/` that follows the segments |
| Filters.AltEndIff | src/index.ts:21 | an alternative matches at an offset iff its root sits there |
| Filters.MatchAtRoot | src/index.ts:21 | the alternation matches at an offset only where some root sits |
| Filters.RootAtMatches | src/index.ts:21 | a root sitting at an offset makes the alternation match there |
| Filters.NoEarlierRoot | src/index.ts:21 | no alternative matching before root `k` means no earlier root sits at that offset |
| Filters.NoEarlierOffset | src/index.ts:39 | no match before an offset means no root sits before it |
| Filters.ExecParts | src/index.ts:39-41 | a passing path has a leftmost start and a first root there, and `Exec` ends where that root's alternative ends |
| Filters.ExecMatch | src/index.ts:39-41 | converse of `SplitBoundary`: a match ends just after the `/` following a root that really sits in the path, with no root at an earlier offset and no earlier root at the same offset |
| Filters.FileFilterTestIff | src/index.ts:143 | `fileFilter.test(path)` iff some root sits somewhere in the path |
| Filters.EmptyRootsMatchDoubleSlash | src/index.ts:21 | with no roots, `/()/` splits `a//b` after its second `/` |
| Filters.AnyFolderMatchesExists | src/index.ts:22 | the alternation accepts iff some folder's alternative does, trying later folders when an earlier one fails at `\b` |
| Filters.ImportFilterAccepts | src/index.ts:22 | `importFilter.test(spec)` iff `spec` starts with `@/` + one of the alternatives (the configured folders, or the empty name when there are none) and `\b` holds right after it |
| Filters.ImportFilter.Test | src/index.ts:142 | no ensures of its own: `importFilter.test(spec)` is characterised by `ImportFilterAccepts` (both directions) and `ImportFilterAliased` |
| Filters.ImportFilter.Alternatives | src/index.ts:22 | the alternatives are the folders; with no folders the regex `^@/()\b` has the one empty alternative, whose source text is the same |
| Filters.AnyFolderMatchesAliased | src/index.ts:22 | every alternative starts with the literal `@/` |
| Filters.ImportFilterAliased | src/index.ts:142 | only a specifier starting with `@/` passes `importFilter.test` |
| Filters.EmptyFoldersAccept | src/index.ts:22 | with no folders, `@/x` passes while `@/` and `@/-x` fail at `\b` |
| Filters.FolderTextFromAll | src/index.ts:22 | the character-by-character check of a folder's text holds iff every character agrees |
| Filters.FolderMatchesIsPrefix | src/index.ts:22 | a folder's alternative matches iff the specifier starts with `@/` + the folder and `\b` holds right after it |
| Filters.FolderMatchesWordEnd | src/index.ts:22 | for a folder ending in a word character, `\b` means the specifier ends there or continues with a non-word character |
| Probing.FirstExisting | src/index.ts:46-51 | the first extension in `.ts, .tsx, .js, .jsx` order whose candidate exists; none before it exists; none when none exists |
| Probing.FirstExistingIs | src/index.ts:46-51 | the first existing candidate is unique |
| Probing.FirstExistingNone | src/index.ts:46-51 | no existing candidate means no hit |
| Probing.Probe | src/index.ts:46-51 | the `for … break` loop returns the first extension whose candidate exists, and no hit only when none exists |
| Probing.AliasTarget | src/index.ts:39-42 | no ensures of its own: the rebuilt target `containingFile.slice(0, m.index + m[0].length) + moduleName.replace("@/", "")` is characterised by `AliasTargetShape` |
| Probing.AliasTargetShape | src/index.ts:39-42 | the target is a prefix of the containing file that ends in `/`, followed by the specifier minus its leading `@/` |
| Plugin.Lookup | src/index.ts:44-67 | a hit is an existing file and one of the target's candidates for its case (directory `index`, direct, `/index`) |
| Plugin.LookupDirectory | src/index.ts:45-51 | a target ending in `/` picks the first existing `target + "index" + ext` |
| Plugin.LookupDirectoryMiss | src/index.ts:45-51 | a target ending in `/` with no `index` file is a miss; `target + ext` is never tried |
| Plugin.LookupMiss | src/index.ts:53-67 | any other target with neither `target + ext` nor `target + "/index" + ext` existing is a miss |
| Plugin.LookupDirect | src/index.ts:53-58 | another target picks the first existing `target + ext` whatever `index` files exist, so `.ts` beats `.js` |
| Plugin.LookupIndexFallback | src/index.ts:59-66 | `target + "/index" + ext` is used only when no `target + ext` exists |
| Plugin.AsModule | src/index.ts:72 | the answer is `{ resolvedFileName }` alone, or `undefined` exactly when nothing is cached |
| Plugin.Step | src/index.ts:43-72 | an answer is given exactly when the target ends up cached, it is the cached name, and only the target can be added |
| Plugin.StepCached | src/index.ts:43 | a cached target is answered from the cache without depending on the file system |
| Plugin.StepMiss | src/index.ts:68-72 | an answer of `undefined` leaves the cache unchanged, and happens exactly for an uncached target with no hit |
| Plugin.StepTwice | src/index.ts:43-72 | a second identical call returns the same answer and changes nothing |
| Plugin.StepGrows | src/index.ts:68-70 | only the called target can be added, and stored entries never change |
| Plugin.StepCoherent | src/index.ts:43-72 | from a coherent cache, every cached name stays a candidate of its key, and every answer is one for its target |
| Plugin.TailRun | src/index.ts:144 | the trailing run of characters other than `.`, `/`, `\` is maximal |
| Plugin.HasExtensionIsRegex | src/index.ts:144 | the check equals the regex `\.[^\\/.]+$`: a `.` followed to the end by one or more such characters |
| Plugin.HasExtension | src/index.ts:144 | a name with an extension has at least two characters and does not end in `.`, `/` or `\` |
| Plugin.ShouldResolve | src/index.ts:140-145 | no ensures of its own: the four conditions (host miss, `importFilter.test`, `fileFilter.test`, no extension) are spelled out by `ShouldResolveTarget` |
| Plugin.ShouldResolveTarget | src/index.ts:140-145 | the four conditions mean a host miss on an `@/` specifier with no extension, whose target is the containing file's prefix up to a `/` followed by the specifier past `@/` |
| Plugin.MapEntry | src/index.ts:140-152 | an entry not meeting all four conditions is kept as is with the cache untouched; stored entries never change; from a coherent cache the cache stays coherent and a replaced entry has no `extension` and names a candidate of its target |
| Plugin.InterceptUpTo | src/index.ts:139-153 | the map keeps position and length, and every entry not meeting all four conditions is the host's entry verbatim; an entry meeting them is the alias resolver's answer on the cache the earlier entries left, `undefined` only when its target is uncached and has no candidate file (`InterceptSelected`) |
| Plugin.Intercept | src/index.ts:139-153 | the answer has the host's length, and every entry not meeting all four conditions is the host's entry verbatim; an entry meeting them is the alias resolver's answer, `undefined` only when its target is uncached and has no candidate file (`InterceptSelected` with `n` the host's length) |
| Plugin.InterceptGrows | src/index.ts:139-153 | a whole call only adds cache entries and never changes a stored one |
| Plugin.InterceptCoherent | src/index.ts:139-153 | a coherent cache stays coherent through a whole call |
| Plugin.InterceptKeeps | src/index.ts:139-153 | mapping one more entry leaves the earlier answers as they were |
| Plugin.InterceptLast | src/index.ts:140-152 | the entry mapped last is replaced well when the starting cache is coherent |
| Plugin.InterceptResolved | src/index.ts:139-153 | from a coherent cache, every replaced entry of the answer that is present has no `extension` and names a candidate of its own target |
| Plugin.ThreadLength | src/index.ts:139 | threading `n` steps gives `n` answers |
| Plugin.ThreadEntry | src/index.ts:139-153 | answer `i` of a threaded map is the step's answer on the cache the first `i` steps left, whatever steps follow |
| Plugin.InterceptIsThread | src/index.ts:139-153 | `resolvedModules.map` threading the cache is `Thread` with the per-entry callback as its step |
| Plugin.InterceptSelected | src/index.ts:140-150 | an entry meeting all four conditions is `resolvedModule(...)` of its rebuilt target, computed on the cache as the entries before it left it; it is `undefined` exactly when that target is not cached and no candidate file exists |
| Plugin.InterceptPrefix | src/index.ts:139 | the first `n` answers do not depend on later entries |
| Plugin.InterceptPassesThrough | src/index.ts:140-152 | when no specifier passes the import filter without an extension, the host's answer is returned unchanged |
| Plugin.VueFileNames | src/index.ts:172-174 | the list keeps only `.vue` names and is no longer than the input |
| Plugin.VueFileNamesMembers | src/index.ts:172-174 | a name is kept iff it is in the parsed list and ends in `.vue` |
| Plugin.VueFileNamesConcat | src/index.ts:172-174 | the filter keeps the original order |
| Plugin.VueFileNamesIdempotent | src/index.ts:172-174 | filtering twice equals filtering once |
| Plugin.PatchedScriptKind | src/index.ts:185-190 | `.vue` files are `Deferred`; every other file gets the original kind |
| Plugin.PatchedScriptKindIdempotent | src/index.ts:183-191 | overriding an already overridden `getScriptKind` would change nothing |
| Plugin.PluginFactory.constructor | src/index.ts:30-33 | the factory starts with an empty cache, registry and override set |
| Plugin.PluginFactory.ResolveAlias | src/index.ts:34-73 | `resolvedModule` rebuilds the target and does exactly one `Step` on the cache, keeping it coherent |
| Plugin.PluginFactory.ResolveModuleNames | src/index.ts:128-155 | the installed `resolveModuleNames` returns `Intercept` of the host's answer and leaves the cache it threads |
| Plugin.PluginFactory.GetExternalFiles | src/index.ts:303-305 | the list registered for the project, or `[]`; every name on it ends in `.vue` |
| Plugin.PluginFactory.Create | src/index.ts:76-191 | an inferred project is left alone; the interceptor is installed iff roots and folders are non-empty and the host resolves module names; `.vue` files are registered exactly when there are some, and then `getExternalFiles` lists exactly the parsed `.vue` names |
| Utils.ResolvePluginConfig | src/utils.ts:88-113 | a configured list, even an empty one, is kept; a missing one becomes the default |
| Utils.DefaultImportFilterAccepts | src/utils.ts:101-110 | the defaults are two roots and eight folders, and `@/api/x` and `@/api-utils` pass the default import filter |
| Utils.FolderMatchesHead | src/utils.ts:101-110 | a folder's alternative only matches a specifier whose third character is the folder's first |
| Utils.DefaultImportFilterRejects | src/utils.ts:101-110 | `@/apix` does not pass the default import filter |
| Utils.OutermostRootWins | src/index.ts:39-42 | for a file filter over the default roots, `/ACT/a/b/ACT/c/d/x.ts` is split after the outer `ACT/a/b/` (offset 9), not after the nearer `ACT/c/d/` |
| Utils.IsVue | src/utils.ts:140-142 | a `.vue` path has at least four characters and ends in `e`, so never in `/` |
| Utils.IsRelativeVue | src/utils.ts:144-146 | only a shape bound: a relative `.vue` path starts with `.` and has at least six characters, as `./.vue`; the full characterisation is `IsRelativeVueCases` |
| Utils.IsRelativeVueCases | src/utils.ts:144-146 | a relative `.vue` path ends in `.vue` and starts with `./`, `../`, `.\` or `..\` |
| Utils.ResolveVueFile | src/utils.ts:116-129 | a record exists iff the name is a relative `.vue` path; it is `.d.ts`, not external, and at `resolve(dirname(containingFile), name)` |
| Utils.ExtensionFieldValues | src/utils.ts:55 | `.ts` and `.tsx` hits carry their extension; `.js` and `.jsx` hits carry none |
| Utils.ExtensionField | src/utils.ts:55 | the field is the extension itself, present iff the extension contains `.ts` |
| Utils.CustomLookup | src/utils.ts:41-83 | a hit is an existing file, and its record is one the three branches can build for the target |
| Utils.CustomLookupNotExternal | src/utils.ts:43-78 | every record says `isExternalLibraryImport: false` |
| Utils.CustomLookupVue | src/utils.ts:41-48 | a `.vue` target resolves to itself as `.d.ts` iff it exists, and no other file matters |
| Utils.CustomLookupDirectory | src/utils.ts:49-59 | a target ending in `/` picks the first existing `index` file |
| Utils.CustomLookupDirect | src/utils.ts:61-70 | another target picks the first existing `target + ext` |
| Utils.CustomLookupIndexFallback | src/utils.ts:71-82 | the `/index` probe is reached only when no `target + ext` exists |
| Utils.CustomLookupDirectoryMiss | src/utils.ts:49-59 | a target ending in `/` with no `index` file is a miss |
| Utils.CustomLookupMiss | src/utils.ts:60-83 | any other non-`.vue` target with neither `target + ext` nor `target + "/index" + ext` existing is a miss |
| Utils.CustomStepMissKeepsCache | src/utils.ts:40-85 | a miss leaves the cache unchanged, and happens exactly for an uncached target with no hit |
| Utils.CustomStepCached | src/utils.ts:40 | a cached target returns the stored record whatever the file system holds |
| Utils.CustomStepTwice | src/utils.ts:40-85 | a second identical call returns the same record and changes nothing |
| Utils.CustomStepGrows | src/utils.ts:40-85 | only the called target can be added, and stored records never change |
| Utils.CustomStep | src/utils.ts:40-85 | a record is returned exactly when the target ends up cached, it is the cached record, and only the target can be added |
| Utils.CustomResolver.constructor | src/utils.ts:29 | the module-level cache starts empty |
| Utils.CustomResolver.ResolvedCustomRelativeModule | src/utils.ts:30-86 | rebuilds the target and does exactly one `CustomStep`, keeping every stored record one the resolver can build for its key |

## Left out

- `getVueSourceFile` (src/utils.ts:148-178): it only calls `@vue/compiler-sfc` and the TypeScript parser, which are not part of this model.
- The language-service `Proxy` routing, the logging proxies on `vueTsLsHost`, `vueTs.createLanguageService` and `tsFaster.decorate` (src/index.ts:193-301): host and library plumbing. The model records only whether the language service is replaced (`Installed.decorated`).
- `log` and `createLog`: output to the server log only.
- `ts.sys.fileExists` and `info.project.fileExists`: the file system is the `files` parameter, or a boolean field of `CreateInfo` for the project file.
- `vue.createParsedCommandLine`: its file names are an input (`CreateInfo.parsedFileNames`).
- `path.resolve` and `path.dirname`: Node's path normalisation is given to `ResolveVueFile` as function parameters.
- General regular-expression semantics: root and folder names are taken as literal text. A name holding regex metacharacters (`.`, `|`, `(` …) would be read differently by the real regex.
- Filters.FolderMatchesWordEnd: stated only for folder names ending in a word character. For other names the general `WordBoundary` predicate still applies.
- UTF-16: strings are sequences of characters, and JavaScript's surrogate pairs are not modelled.
- The `__vue_getScriptKind` mark (src/index.ts:183-184): the code stores it on the project object, so every factory that sees the project shares it; the model keeps it per factory, as the set `scriptKindPatched`, and does not keep the saved function object. The installed override exists only as the standalone function `PatchedScriptKind`: no `PluginFactory` contract says that a marked project's `getScriptKind` is now `PatchedScriptKind(original, ·)`.
- Utils.CustomResolver.ResolvedCustomRelativeModule: requires that `fileFilter` matches the containing file. src/utils.ts:36-38 reads `m.index` of `containingFile.match(fileFilter)!`, which throws a `TypeError` when nothing matches, and no caller in src/ guards it; the model does not capture that throw.
- A conflicting-declaration override and a relative `.vue` fallback in the interceptor: src/index.ts:139-153 has neither, so neither is modelled.
- `RootConfig.depth` is a `nat`: a negative depth runs the loop of src/index.ts:15 zero times and a fractional one as often as its ceiling, so it behaves as that natural number; the model takes the natural number as given and not the conversion.
