/**
  The consolidated helpers of src/utils.ts: the plugin configuration with its
  defaults, the `.vue` path predicates, the relative `.vue` resolver, and
  `resolvedCustomRelativeModule` with the target-level cache it fills.
 */
module Utils {
  import opened Prelude
  import opened Filters
  import opened Probing

  // ---------------------------------------------------------------------
  // resolvePluginConfig
  // ---------------------------------------------------------------------

  /** The plugin's configuration payload; an absent key is `None`. */
  datatype PluginConfig = PluginConfig(roots: Option<seq<RootConfig>>, folders: Option<seq<string>>)

  /** The effective roots and folders. */
  datatype AliasConfig = AliasConfig(roots: seq<RootConfig>, folders: seq<string>)

  const DefaultRoots: seq<RootConfig> := [RootConfig("ACT", 2), RootConfig("COMMON", 1)]

  const DefaultFolders: seq<string> :=
    ["api", "components", "pages", "store", "img", "js", "style", "scripts"]

  /**
    `config.roots || defaults` and `config.folders || defaults`: a configured
    list, even an empty one, is kept; only a missing key falls back.
   */
  function ResolvePluginConfig(config: PluginConfig): (c: AliasConfig)
    ensures config.roots.Some? ==> c.roots == config.roots.value
    ensures config.roots.None? ==> c.roots == DefaultRoots
    ensures config.folders.Some? ==> c.folders == config.folders.value
    ensures config.folders.None? ==> c.folders == DefaultFolders
  {
    AliasConfig(
      match config.roots case Some(rs) => rs case None => DefaultRoots,
      match config.folders case Some(fs) => fs case None => DefaultFolders)
  }

  /**
    With nothing configured, alias resolution is on (both lists are
    non-empty), and the default import filter treats folder names as whole
    path segments: `@/api/x` and `@/api-utils` pass.
   */
  lemma DefaultImportFilterAccepts()
    ensures var c := ResolvePluginConfig(PluginConfig(None, None));
      && |c.roots| == 2 && |c.folders| == 8
      && ImportFilter(ImportFilterSource(c.folders), c.folders).Test("@/api/x")
      && ImportFilter(ImportFilterSource(c.folders), c.folders).Test("@/api-utils")
  {
    assert FolderMatches("@/api/x", "api");
    assert FolderMatches("@/api-utils", "api");
  }

  /**
    With the default roots, the split is after the outermost root on the
    path: in `/ACT/a/b/ACT/c/d/x.ts` it falls after `ACT/a/b/`, not after the
    nearer `ACT/c/d/`.
   */
  lemma OutermostRootWins(f: FileFilter)
    requires f.roots == DefaultRoots
    ensures f.Exec("/ACT/a/b/ACT/c/d/x.ts") == Some(9)
  {
    assert f.Alternatives()[0] == RootConfig("ACT", 2);
    OuterRootAt();
    SplitBoundary(f, "/ACT/a/b/ACT/c/d/x.ts", 0, 0, ["a", "b"]);
  }

  /** The outer `ACT/a/b/` sits at offset 0 of `/ACT/a/b/ACT/c/d/x.ts`. */
  lemma OuterRootAt()
    ensures RootAt("/ACT/a/b/ACT/c/d/x.ts", 0, RootConfig("ACT", 2), ["a", "b"])
  {
    JoinAB();
    OuterRootText();
  }

  lemma JoinAB()
    ensures JoinSegments(["a", "b"]) == "/a/b"
  {
    assert JoinSegments(["b"]) == "/b";
    assert ["a", "b"][1..] == ["b"];
  }

  lemma OuterRootText()
    ensures "/ACT/a/b/ACT/c/d/x.ts"[1..4] == "ACT" && "/ACT/a/b/ACT/c/d/x.ts"[4..8] == "/a/b"
  {
  }

  /** The alternative for `folder` can only match a specifier whose third character is the folder's first. */
  lemma FolderMatchesHead(spec: string, folder: string)
    requires |folder| > 0
    ensures FolderMatches(spec, folder) ==> |spec| > 2 && spec[2] == folder[0]
  {
    if FolderMatches(spec, folder) {
      assert spec[..|folder| + 2][2] == ("@/" + folder)[2];
    }
  }

  /** ... and `@/apix` does not pass: `api` is followed by a word character, and no other default folder starts with `a`. */
  lemma DefaultImportFilterRejects()
    ensures !ImportFilter(ImportFilterSource(DefaultFolders), DefaultFolders).Test("@/apix")
  {
    AnyFolderMatchesExists("@/apix", DefaultFolders, 0);
    forall j | 0 <= j < |DefaultFolders| ensures !FolderMatches("@/apix", DefaultFolders[j]) {
      if j == 0 {
        assert !WordBoundary("@/apix", 5);
      } else {
        FolderMatchesHead("@/apix", DefaultFolders[j]);
      }
    }
  }

  // ---------------------------------------------------------------------
  // isVue, isRelativeVue, resolveVueFile
  // ---------------------------------------------------------------------

  /** `/\.vue$/.test(file)`; such a path never ends in `/`, so it is never a directory-style target. */
  predicate IsVue(file: string)
    ensures IsVue(file) ==> |file| >= 4 && file[|file| - 1] == 'e'
  {
    EndsWith(file, ".vue")
  }

  predicate IsPathSeparator(c: char) {
    c == '/' || c == '\\'
  }

  /**
    `/^\.\.?($|[\\/])/.test(file)`: one or two dots, then the end of the
    string or a path separator (the regex backtracks from two dots to one).
   */
  predicate HasRelativePrefix(file: string) {
    || (|file| >= 1 && file[0] == '.' && (|file| == 1 || IsPathSeparator(file[1])))
    || (|file| >= 2 && file[0] == '.' && file[1] == '.' && (|file| == 2 || IsPathSeparator(file[2])))
  }

  /** `isRelativeVue(file)`; the shortest such paths are `./.vue` and `.\.vue`. */
  predicate IsRelativeVue(file: string)
    ensures IsRelativeVue(file) ==> |file| >= 6 && file[0] == '.'
  {
    IsVue(file) && HasRelativePrefix(file)
  }

  /** A relative `.vue` path is one that ends in `.vue` and starts with `./`, `../`, `.\` or `..\`. */
  lemma IsRelativeVueCases(file: string)
    ensures IsRelativeVue(file) <==>
      && EndsWith(file, ".vue")
      && (StartsWith(file, "./") || StartsWith(file, "../") || StartsWith(file, ".\\") || StartsWith(file, "..\\"))
  {
    if |file| >= 2 {
      assert StartsWith(file, "./") <==> file[0] == '.' && file[1] == '/';
      assert StartsWith(file, ".\\") <==> file[0] == '.' && file[1] == '\\';
    }
    if |file| >= 3 {
      assert StartsWith(file, "../") <==> file[0] == '.' && file[1] == '.' && file[2] == '/';
      assert StartsWith(file, "..\\") <==> file[0] == '.' && file[1] == '.' && file[2] == '\\';
    }
    if EndsWith(file, ".vue") {
      assert |file| >= 4;
      assert file[|file| - 4..] == ".vue";
      assert file[|file| - 1] == 'e';
    }
  }

  /**
    `resolveVueFile(name, containingFile)`. `path.resolve` and `path.dirname`
    are Node's own and are parameters here.
   */
  function ResolveVueFile(
    name: string, containingFile: string,
    resolve: (string, string) -> string, dirname: string -> string): (r: Option<ResolvedModule>)
    ensures r.Some? <==> IsRelativeVue(name)
    ensures r.Some? ==> r.value.extension == Some(".d.ts") && r.value.isExternalLibraryImport == Some(false)
    ensures r.Some? ==> r.value.resolvedFileName == resolve(dirname(containingFile), name)
  {
    if IsRelativeVue(name) then
      Some(ResolvedModule(resolve(dirname(containingFile), name), Some(false), Some(".d.ts")))
    else None
  }

  // ---------------------------------------------------------------------
  // resolvedCustomRelativeModule
  // ---------------------------------------------------------------------

  /** `/\.ts/.test(ext) ? ext : undefined`. */
  function ExtensionField(ext: string): (r: Option<string>)
    ensures r.Some? ==> r.value == ext
    ensures r.Some? <==> Contains(ext, ".ts")
  {
    if Contains(ext, ".ts") then Some(ext) else None
  }

  /** The record for a `.vue` target: declaration-only, no probing. */
  function VueRecord(target: string): ResolvedModule {
    ResolvedModule(target, Some(false), Some(".d.ts"))
  }

  /** The record for a probed hit with extension number `k`. */
  function ProbedRecord(base: string, infix: string, k: nat): ResolvedModule
    requires k < |Extensions|
  {
    ResolvedModule(Candidate(base, infix, k), Some(false), ExtensionField(Extensions[k]))
  }

  /** What the three branches of `resolvedCustomRelativeModule` find for a target, before caching. */
  function CustomLookup(target: string, files: set<string>): (r: Option<ResolvedModule>)
    ensures r.Some? ==> r.value.resolvedFileName in files && RecordFor(target, r.value)
  {
    if IsVue(target) then
      (if target in files then Some(VueRecord(target)) else None)
    else if EndsWith(target, "/") then
      match FirstExisting(target, "index", files, 0)
      case Some(k) => Some(ProbedRecord(target, "index", k))
      case None => None
    else
      match FirstExisting(target, "", files, 0)
      case Some(k) => Some(ProbedRecord(target, "", k))
      case None =>
        match FirstExisting(target, "/index", files, 0)
        case Some(k) => Some(ProbedRecord(target, "/index", k))
        case None => None
  }

  /** `rec` is a record the resolver may store under `target`. */
  ghost predicate RecordFor(target: string, rec: ResolvedModule) {
    if IsVue(target) then rec == VueRecord(target)
    else if EndsWith(target, "/") then
      exists k :: 0 <= k < |Extensions| && rec == ProbedRecord(target, "index", k)
    else
      exists k :: 0 <= k < |Extensions| && (rec == ProbedRecord(target, "", k) || rec == ProbedRecord(target, "/index", k))
  }

  /** Only `.ts` and `.tsx` hits carry an `extension`. */
  lemma ExtensionFieldValues()
    ensures ExtensionField(".ts") == Some(".ts")
    ensures ExtensionField(".tsx") == Some(".tsx")
    ensures ExtensionField(".js") == None
    ensures ExtensionField(".jsx") == None
  {
    assert StartsWith(".ts", ".ts");
    assert StartsWith(".tsx", ".ts");
    ContainsNeedsChar(".js", ".ts", 't');
    ContainsNeedsChar(".jsx", ".ts", 't');
  }

  /** Every record the resolver produces says it is not an external library import. */
  lemma CustomLookupNotExternal(target: string, files: set<string>)
    ensures CustomLookup(target, files).Some? ==> CustomLookup(target, files).value.isExternalLibraryImport == Some(false)
  {
  }

  /**
    A `.vue` target is resolved to itself, declaration-only, exactly when it
    exists, and nothing else about the file system matters: no extension
    probing happens.
   */
  lemma CustomLookupVue(target: string, files: set<string>, other: set<string>)
    requires IsVue(target)
    requires (target in files) == (target in other)
    ensures CustomLookup(target, files).Some? <==> target in files
    ensures CustomLookup(target, files).Some? ==>
      CustomLookup(target, files).value == ResolvedModule(target, Some(false), Some(".d.ts"))
    ensures CustomLookup(target, files) == CustomLookup(target, other)
  {
  }

  /** A directory-style target resolves to the first existing `index` file in priority order. */
  lemma CustomLookupDirectory(target: string, files: set<string>, k: nat)
    requires EndsWith(target, "/") && k < |Extensions|
    requires Candidate(target, "index", k) in files
    requires forall j :: 0 <= j < k ==> Candidate(target, "index", j) !in files
    ensures CustomLookup(target, files) == Some(ResolvedModule(target + "index" + Extensions[k], Some(false), ExtensionField(Extensions[k])))
  {
    assert !IsVue(target) by {
      assert target[|target| - 1] == '/';
    }
    FirstExistingIs(target, "index", files, k);
  }

  /**
    A plain target resolves to the first existing `target + ext`, whatever
    `index` files exist; so with both `.ts` and `.js` present, `.ts` wins.
   */
  lemma CustomLookupDirect(target: string, files: set<string>, k: nat)
    requires !IsVue(target) && !EndsWith(target, "/") && k < |Extensions|
    requires Candidate(target, "", k) in files
    requires forall j :: 0 <= j < k ==> Candidate(target, "", j) !in files
    ensures CustomLookup(target, files) == Some(ResolvedModule(target + Extensions[k], Some(false), ExtensionField(Extensions[k])))
  {
    FirstExistingIs(target, "", files, k);
    assert target + "" == target;
  }

  /** The `/index` fallback is reached only when no `target + ext` exists. */
  lemma CustomLookupIndexFallback(target: string, files: set<string>, k: nat)
    requires !IsVue(target) && !EndsWith(target, "/") && k < |Extensions|
    requires forall j :: 0 <= j < |Extensions| ==> Candidate(target, "", j) !in files
    requires Candidate(target, "/index", k) in files
    requires forall j :: 0 <= j < k ==> Candidate(target, "/index", j) !in files
    ensures CustomLookup(target, files) == Some(ResolvedModule(target + "/index" + Extensions[k], Some(false), ExtensionField(Extensions[k])))
  {
    FirstExistingNone(target, "", files);
    FirstExistingIs(target, "/index", files, k);
  }

  /** A directory-style target with no `index` file is a miss; nothing else is tried. */
  lemma CustomLookupDirectoryMiss(target: string, files: set<string>)
    requires EndsWith(target, "/")
    requires forall j :: 0 <= j < |Extensions| ==> Candidate(target, "index", j) !in files
    ensures CustomLookup(target, files) == None
  {
    assert !IsVue(target) by {
      assert target[|target| - 1] == '/';
    }
    FirstExistingNone(target, "index", files);
  }

  /** A plain target is a miss exactly when neither `target + ext` nor `target + "/index" + ext` exists. */
  lemma CustomLookupMiss(target: string, files: set<string>)
    requires !IsVue(target) && !EndsWith(target, "/")
    requires forall j :: 0 <= j < |Extensions| ==> Candidate(target, "", j) !in files
    requires forall j :: 0 <= j < |Extensions| ==> Candidate(target, "/index", j) !in files
    ensures CustomLookup(target, files) == None
  {
    FirstExistingNone(target, "", files);
    FirstExistingNone(target, "/index", files);
  }

  /** The state change of one call: the cache after it, and what it returns. */
  datatype CustomOutcome = CustomOutcome(cache: map<string, ResolvedModule>, found: Option<ResolvedModule>)

  /** One call on the cache: a stored record is returned as is; otherwise probe, and store only a hit. */
  function CustomStep(cache: map<string, ResolvedModule>, target: string, files: set<string>): (o: CustomOutcome)
    ensures o.found.Some? <==> target in o.cache
    ensures o.found.Some? ==> o.cache[target] == o.found.value
    ensures o.cache.Keys <= cache.Keys + {target}
  {
    if target in cache then CustomOutcome(cache, Some(cache[target]))
    else match CustomLookup(target, files)
      case None => CustomOutcome(cache, None)
      case Some(rec) => CustomOutcome(cache[target := rec], Some(rec))
  }

  /** A miss leaves the cache as it was. */
  lemma CustomStepMissKeepsCache(cache: map<string, ResolvedModule>, target: string, files: set<string>)
    ensures CustomStep(cache, target, files).found.None? ==> CustomStep(cache, target, files).cache == cache
    ensures CustomStep(cache, target, files).found.None? <==> target !in cache && CustomLookup(target, files).None?
  {
  }

  /** A stored target is answered from the cache, whatever the file system now holds. */
  lemma CustomStepCached(cache: map<string, ResolvedModule>, target: string, files: set<string>, other: set<string>)
    requires target in cache
    ensures CustomStep(cache, target, files) == CustomStep(cache, target, other) == CustomOutcome(cache, Some(cache[target]))
  {
  }

  /** Two calls in a row for the same target, with the file system unchanged, agree; the second changes nothing. */
  lemma CustomStepTwice(cache: map<string, ResolvedModule>, target: string, files: set<string>)
    ensures var first := CustomStep(cache, target, files);
      CustomStep(first.cache, target, files) == first
  {
  }

  /** The cache only grows; only the called target can be added. */
  lemma CustomStepGrows(cache: map<string, ResolvedModule>, target: string, files: set<string>)
    ensures var c := CustomStep(cache, target, files).cache;
      && cache.Keys <= c.Keys <= cache.Keys + {target}
      && forall t :: t in cache ==> c[t] == cache[t]
  {
  }

  /** The target-level `cache` of src/utils.ts and the resolver that fills it. */
  class CustomResolver {
    var cache: map<string, ResolvedModule>

    /** Every stored record is one the resolver can produce for its key. */
    ghost predicate Valid()
      reads this
    {
      forall t :: t in cache ==> RecordFor(t, cache[t])
    }

    constructor ()
      ensures Valid() && cache == map[]
    {
      cache := map[];
    }

    /**
      `resolvedCustomRelativeModule(ts, moduleName, containingFile, fileFilter)`;
      the caller has checked that `fileFilter` matches `containingFile`.
     */
    method ResolvedCustomRelativeModule(
      moduleName: string, containingFile: string, fileFilter: FileFilter, files: set<string>)
      returns (r: Option<ResolvedModule>)
      requires Valid() && fileFilter.Test(containingFile)
      modifies this
      ensures Valid()
      ensures var o := CustomStep(old(cache), AliasTarget(fileFilter, containingFile, moduleName), files);
        cache == o.cache && r == o.found
    {
      var m := fileFilter.Exec(containingFile).value;
      var target := containingFile[..m] + ReplaceFirst(moduleName, "@/", "");
      if target !in cache {
        if IsVue(target) {
          if target in files {
            cache := cache[target := VueRecord(target)];
          }
        } else if EndsWith(target, "/") {
          var k := Probe(target, "index", files);
          if k.Some? {
            cache := cache[target := ProbedRecord(target, "index", k.value)];
          }
        } else {
          var k := Probe(target, "", files);
          if k.Some? {
            cache := cache[target := ProbedRecord(target, "", k.value)];
          }
          if target !in cache {
            var k2 := Probe(target, "/index", files);
            if k2.Some? {
              cache := cache[target := ProbedRecord(target, "/index", k2.value)];
            }
          }
        }
      }
      r := if target in cache then Some(cache[target]) else None;
    }
  }
}
