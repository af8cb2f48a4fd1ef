/**
  The plugin factory of src/index.ts: its own copy of the alias resolver
  with a cache of resolved file names, the `resolveModuleNames`
  interceptor, the `.vue` file list registered per project, and the
  `getScriptKind` override.
 */
module Plugin {
  import opened Prelude
  import opened Filters
  import opened Probing
  import opened Utils

  // ---------------------------------------------------------------------
  // resolvedModule
  // ---------------------------------------------------------------------

  /** `name` is a file the resolver may pick for `target`. */
  ghost predicate CandidateOf(target: string, name: string) {
    if EndsWith(target, "/") then
      exists k :: 0 <= k < |Extensions| && name == Candidate(target, "index", k)
    else
      exists k :: 0 <= k < |Extensions| && (name == Candidate(target, "", k) || name == Candidate(target, "/index", k))
  }

  /** Every cached name is a candidate of its key. */
  ghost predicate Coherent(cache: map<string, string>) {
    forall t :: t in cache ==> CandidateOf(t, cache[t])
  }

  /** The probes of `resolvedModule` for a target that is not cached yet. */
  function Lookup(target: string, files: set<string>): (r: Option<string>)
    ensures r.Some? ==> r.value in files && CandidateOf(target, r.value) && |r.value| > |target|
  {
    if EndsWith(target, "/") then
      match FirstExisting(target, "index", files, 0)
      case Some(k) => Some(Candidate(target, "index", k))
      case None => None
    else
      match FirstExisting(target, "", files, 0)
      case Some(k) => Some(Candidate(target, "", k))
      case None =>
        match FirstExisting(target, "/index", files, 0)
        case Some(k) => Some(Candidate(target, "/index", k))
        case None => None
  }

  /** A directory-style target picks the first existing `index` file in extension order. */
  lemma LookupDirectory(target: string, files: set<string>, k: nat)
    requires EndsWith(target, "/") && k < |Extensions|
    requires target + "index" + Extensions[k] in files
    requires forall j :: 0 <= j < k ==> target + "index" + Extensions[j] !in files
    ensures Lookup(target, files) == Some(target + "index" + Extensions[k])
  {
    FirstExistingIs(target, "index", files, k);
  }

  /** A directory-style target with no `index` file is a miss; nothing else is tried. */
  lemma LookupDirectoryMiss(target: string, files: set<string>)
    requires EndsWith(target, "/")
    requires forall j :: 0 <= j < |Extensions| ==> target + "index" + Extensions[j] !in files
    ensures Lookup(target, files) == None
  {
    FirstExistingNone(target, "index", files);
  }

  /** A plain target is a miss exactly when neither `target + ext` nor `target + "/index" + ext` exists. */
  lemma LookupMiss(target: string, files: set<string>)
    requires !EndsWith(target, "/")
    requires forall j :: 0 <= j < |Extensions| ==> target + Extensions[j] !in files
    requires forall j :: 0 <= j < |Extensions| ==> target + "/index" + Extensions[j] !in files
    ensures Lookup(target, files) == None
  {
    assert target + "" == target;
    FirstExistingNone(target, "", files);
    FirstExistingNone(target, "/index", files);
  }

  /**
    A plain target picks the first existing `target + ext`, whatever `index`
    files exist: with both `x.ts` and `x.js` present, `x.ts` wins.
   */
  lemma LookupDirect(target: string, files: set<string>, k: nat)
    requires !EndsWith(target, "/") && k < |Extensions|
    requires target + Extensions[k] in files
    requires forall j :: 0 <= j < k ==> target + Extensions[j] !in files
    ensures Lookup(target, files) == Some(target + Extensions[k])
  {
    assert target + "" == target;
    FirstExistingIs(target, "", files, k);
  }

  /** `target + "/index" + ext` is consulted only when no `target + ext` exists. */
  lemma LookupIndexFallback(target: string, files: set<string>, k: nat)
    requires !EndsWith(target, "/") && k < |Extensions|
    requires forall j :: 0 <= j < |Extensions| ==> target + Extensions[j] !in files
    requires target + "/index" + Extensions[k] in files
    requires forall j :: 0 <= j < k ==> target + "/index" + Extensions[j] !in files
    ensures Lookup(target, files) == Some(target + "/index" + Extensions[k])
  {
    assert target + "" == target;
    FirstExistingNone(target, "", files);
    FirstExistingIs(target, "/index", files, k);
  }

  /** The effect of one `resolvedModule` call: the cache after it, and the file name it answers with. */
  datatype Outcome = Outcome(cache: map<string, string>, found: Option<string>)

  /**
    One call for an already rebuilt target: a cached name is returned without
    probing; otherwise the probes run, and only a hit is stored.
   */
  function Step(cache: map<string, string>, target: string, files: set<string>): (o: Outcome)
    ensures o.found.Some? <==> target in o.cache
    ensures o.found.Some? ==> o.cache[target] == o.found.value
    ensures o.cache.Keys <= cache.Keys + {target}
  {
    if target in cache then Outcome(cache, Some(cache[target]))
    else match Lookup(target, files)
      case None => Outcome(cache, None)
      case Some(name) => Outcome(cache[target := name], Some(name))
  }

  /** `{ resolvedFileName: cache[module] }` or `undefined`. */
  function AsModule(name: Option<string>): (r: Option<ResolvedModule>)
    ensures r.Some? <==> name.Some?
    ensures r.Some? ==> r.value.resolvedFileName == name.value
    ensures r.Some? ==> r.value.isExternalLibraryImport.None? && r.value.extension.None?
  {
    match name
    case None => None
    case Some(n) => Some(ResolvedModule(n, None, None))
  }

  /** A cached target is answered from the cache, whatever the file system holds now. */
  lemma StepCached(cache: map<string, string>, target: string, files: set<string>, other: set<string>)
    requires target in cache
    ensures Step(cache, target, files) == Step(cache, target, other) == Outcome(cache, Some(cache[target]))
  {
  }

  /** A miss answers `undefined` and leaves the cache as it was; a miss is exactly an uncached target with no probe hit. */
  lemma StepMiss(cache: map<string, string>, target: string, files: set<string>)
    ensures Step(cache, target, files).found.None? ==> Step(cache, target, files).cache == cache
    ensures Step(cache, target, files).found.None? <==> target !in cache && Lookup(target, files).None?
  {
  }

  /** Two calls in a row for the same target, with the file system unchanged, answer alike; the second changes nothing. */
  lemma StepTwice(cache: map<string, string>, target: string, files: set<string>)
    ensures var first := Step(cache, target, files);
      Step(first.cache, target, files) == first
  {
  }

  /** The cache only grows, by the called target at most, and an entry, once stored, never changes. */
  lemma StepGrows(cache: map<string, string>, target: string, files: set<string>)
    ensures var c := Step(cache, target, files).cache;
      && cache.Keys <= c.Keys <= cache.Keys + {target}
      && forall t :: t in cache ==> c[t] == cache[t]
  {
  }

  /** Every cached name is a candidate of its key, before and after a call; so is every answer. */
  lemma StepCoherent(cache: map<string, string>, target: string, files: set<string>)
    ensures Coherent(cache) ==> var o := Step(cache, target, files);
      && Coherent(o.cache)
      && (o.found.Some? ==> CandidateOf(target, o.found.value))
  {
  }

  // ---------------------------------------------------------------------
  // The resolveModuleNames interceptor
  // ---------------------------------------------------------------------

  predicate IsExtensionStop(c: char) {
    c == '.' || c == '/' || c == '\\'
  }

  /** The length of the run of characters other than `.`, `/` and `\` that ends `s`. */
  function TailRun(s: string): (n: nat)
    ensures n <= |s|
    ensures forall j :: |s| - n <= j < |s| ==> !IsExtensionStop(s[j])
    ensures n < |s| ==> IsExtensionStop(s[|s| - 1 - n])
  {
    if |s| == 0 || IsExtensionStop(s[|s| - 1]) then 0
    else TailRun(s[..|s| - 1]) + 1
  }

  /** `/\.[^\\/.]+$/.test(name)`: the last path segment carries an extension. */
  predicate HasExtension(name: string)
    ensures HasExtension(name) ==> |name| >= 2 && !IsExtensionStop(name[|name| - 1])
  {
    var n := TailRun(name);
    0 < n < |name| && name[|name| - 1 - n] == '.'
  }

  /** `HasExtension` is the regex: a `.` followed, up to the end, by one or more characters other than `.`, `/` and `\`. */
  lemma HasExtensionIsRegex(name: string)
    ensures HasExtension(name) <==>
      exists i :: 0 <= i < |name| - 1 && name[i] == '.' && forall j :: i < j < |name| ==> !IsExtensionStop(name[j])
  {
    var n := TailRun(name);
    if HasExtension(name) {
      var i := |name| - 1 - n;
      assert name[i] == '.' && forall j :: i < j < |name| ==> !IsExtensionStop(name[j]);
    }
  }

  /** `moduleNames[index]`; past the end it is `undefined`, which the regex test sees as the text "undefined". */
  function NameAt(names: seq<string>, i: nat): string {
    if i < |names| then names[i] else "undefined"
  }

  /** The four conditions under which the interceptor replaces the host's answer. */
  predicate ShouldResolve(host: Option<ResolvedModule>, name: string, containingFile: string, filters: Filters)
  {
    && host.None?
    && filters.importFilter.Test(name)
    && filters.fileFilter.Test(containingFile)
    && !HasExtension(name)
  }

  /**
    An entry the interceptor takes over is one the host left unresolved, an
    `@/` specifier with no extension, whose target is the containing file's
    directory prefix followed by the specifier past its `@/`.
   */
  lemma ShouldResolveTarget(host: Option<ResolvedModule>, name: string, containingFile: string, filters: Filters)
    ensures ShouldResolve(host, name, containingFile, filters) ==>
      && host.None? && StartsWith(name, "@/") && !HasExtension(name)
      && var e := filters.fileFilter.Exec(containingFile).value;
        AliasTarget(filters.fileFilter, containingFile, name) == containingFile[..e] + name[2..]
        && EndsWith(containingFile[..e], "/")
  {
    if ShouldResolve(host, name, containingFile, filters) {
      ImportFilterAliased(filters.importFilter, name);
      AliasTargetShape(filters.fileFilter, containingFile, name);
    }
  }

  /**
    A replaced entry is `undefined`, or a module with no `extension` whose
    file name is a candidate of the entry's own target.
   */
  ghost predicate ReplacedWell(
    filters: Filters, name: string, containingFile: string,
    entry: Option<ResolvedModule>, result: Option<ResolvedModule>)
  {
    ShouldResolve(entry, name, containingFile, filters) && result.Some? ==>
      && result.value.extension.None?
      && CandidateOf(AliasTarget(filters.fileFilter, containingFile, name), result.value.resolvedFileName)
  }

  /** The cache and the answer after one entry of the host's answer has been mapped. */
  datatype Entry = Entry(cache: map<string, string>, result: Option<ResolvedModule>)

  /**
    The callback of `resolvedModules.map`: an entry meeting the four
    conditions is replaced by the alias resolver's answer; any other entry is
    kept as it is.
   */
  function MapEntry(
    cache: map<string, string>, filters: Filters, name: string, containingFile: string,
    entry: Option<ResolvedModule>, files: set<string>): (e: Entry)
    ensures !ShouldResolve(entry, name, containingFile, filters) ==> e == Entry(cache, entry)
    ensures cache.Keys <= e.cache.Keys && forall t :: t in cache ==> e.cache[t] == cache[t]
    ensures Coherent(cache) ==> Coherent(e.cache)
    ensures Coherent(cache) ==> ReplacedWell(filters, name, containingFile, entry, e.result)
  {
    if ShouldResolve(entry, name, containingFile, filters) then
      var o := Step(cache, AliasTarget(filters.fileFilter, containingFile, name), files);
      StepCoherent(cache, AliasTarget(filters.fileFilter, containingFile, name), files);
      Entry(o.cache, AsModule(o.found))
    else Entry(cache, entry)
  }

  /** The state after the first `n` entries of the host's answer have been mapped. */
  datatype Batch = Batch(cache: map<string, string>, results: seq<Option<ResolvedModule>>)

  /** `resolvedModules.map(...)` over the first `n` host entries, threading the cache through the calls. */
  function InterceptUpTo(
    cache: map<string, string>, filters: Filters, names: seq<string>, containingFile: string,
    host: seq<Option<ResolvedModule>>, files: set<string>, n: nat): (b: Batch)
    requires n <= |host|
    ensures |b.results| == n
    ensures forall i :: 0 <= i < n && !ShouldResolve(host[i], NameAt(names, i), containingFile, filters) ==>
      b.results[i] == host[i]
  {
    if n == 0 then Batch(cache, [])
    else
      var prev := InterceptUpTo(cache, filters, names, containingFile, host, files, n - 1);
      var e := MapEntry(prev.cache, filters, NameAt(names, n - 1), containingFile, host[n - 1], files);
      Batch(e.cache, prev.results + [e.result])
  }

  /** The interceptor's answer for a whole call. */
  function Intercept(
    cache: map<string, string>, filters: Filters, names: seq<string>, containingFile: string,
    host: seq<Option<ResolvedModule>>, files: set<string>): (b: Batch)
    ensures |b.results| == |host|
    ensures forall i :: 0 <= i < |host| && !ShouldResolve(host[i], NameAt(names, i), containingFile, filters) ==>
      b.results[i] == host[i]
  {
    InterceptUpTo(cache, filters, names, containingFile, host, files, |host|)
  }

  /** Mapping only adds cache entries, and never changes one already there. */
  lemma {:induction false} InterceptGrows(
    cache: map<string, string>, filters: Filters, names: seq<string>, containingFile: string,
    host: seq<Option<ResolvedModule>>, files: set<string>, n: nat)
    requires n <= |host|
    ensures var b := InterceptUpTo(cache, filters, names, containingFile, host, files, n);
      cache.Keys <= b.cache.Keys && forall t :: t in cache ==> b.cache[t] == cache[t]
  {
    if n > 0 {
      InterceptGrows(cache, filters, names, containingFile, host, files, n - 1);
    }
  }

  /** A coherent cache stays coherent through a whole call. */
  lemma {:induction false} InterceptCoherent(
    cache: map<string, string>, filters: Filters, names: seq<string>, containingFile: string,
    host: seq<Option<ResolvedModule>>, files: set<string>, n: nat)
    requires n <= |host| && Coherent(cache)
    ensures Coherent(InterceptUpTo(cache, filters, names, containingFile, host, files, n).cache)
  {
    if n > 0 {
      InterceptCoherent(cache, filters, names, containingFile, host, files, n - 1);
    }
  }

  /** Mapping one more entry leaves the earlier answers as they were. */
  lemma InterceptKeeps(
    cache: map<string, string>, filters: Filters, names: seq<string>, containingFile: string,
    host: seq<Option<ResolvedModule>>, files: set<string>, n: nat, i: nat)
    requires i + 1 < n <= |host|
    ensures InterceptUpTo(cache, filters, names, containingFile, host, files, n).results[i]
         == InterceptUpTo(cache, filters, names, containingFile, host, files, n - 1).results[i]
  {
  }

  /** The entry mapped last is replaced well, since the cache it was resolved against is coherent. */
  lemma InterceptLast(
    cache: map<string, string>, filters: Filters, names: seq<string>, containingFile: string,
    host: seq<Option<ResolvedModule>>, files: set<string>, n: nat, i: nat)
    requires i + 1 == n <= |host| && Coherent(cache)
    ensures ReplacedWell(filters, NameAt(names, i), containingFile, host[i],
      InterceptUpTo(cache, filters, names, containingFile, host, files, n).results[i])
  {
    InterceptCoherent(cache, filters, names, containingFile, host, files, n - 1);
  }

  /** When the cache starts coherent, every replaced entry of the answer is `ReplacedWell`. */
  lemma {:induction false} InterceptResolved(
    cache: map<string, string>, filters: Filters, names: seq<string>, containingFile: string,
    host: seq<Option<ResolvedModule>>, files: set<string>, n: nat, i: nat)
    requires i < n <= |host| && Coherent(cache)
    ensures ReplacedWell(filters, NameAt(names, i), containingFile, host[i],
      InterceptUpTo(cache, filters, names, containingFile, host, files, n).results[i])
    decreases n
  {
    if i < n - 1 {
      InterceptResolved(cache, filters, names, containingFile, host, files, n - 1, i);
      InterceptKeeps(cache, filters, names, containingFile, host, files, n, i);
    } else {
      InterceptLast(cache, filters, names, containingFile, host, files, n, i);
    }
  }

  /**
    A reference definition of the map in `InterceptUpTo`: the first `n`
    applications of any per-entry step, each on the cache the one before it
    left, collecting their answers in order.
   */
  function Thread(cache: map<string, string>, step: (map<string, string>, nat) -> Entry, n: nat): Batch
  {
    if n == 0 then Batch(cache, [])
    else
      var prev := Thread(cache, step, n - 1);
      var e := step(prev.cache, n - 1);
      Batch(e.cache, prev.results + [e.result])
  }

  /** `n` steps give `n` answers. */
  lemma {:induction false} ThreadLength(cache: map<string, string>, step: (map<string, string>, nat) -> Entry, n: nat)
    ensures |Thread(cache, step, n).results| == n
  {
    if n > 0 {
      ThreadLength(cache, step, n - 1);
    }
  }

  /** Answer `i` is the step's answer on the cache the first `i` steps left, however many steps follow. */
  lemma {:induction false} ThreadEntry(cache: map<string, string>, step: (map<string, string>, nat) -> Entry, n: nat, i: nat)
    requires i < n
    ensures |Thread(cache, step, n).results| == n
    ensures Thread(cache, step, n).results[i] == step(Thread(cache, step, i).cache, i).result
    decreases n
  {
    ThreadLength(cache, step, n);
    if i < n - 1 {
      ThreadEntry(cache, step, n - 1, i);
    }
  }

  /** `InterceptUpTo` is `Thread` with `MapEntry` on entry `k` as its step. */
  lemma {:induction false} InterceptIsThread(
    cache: map<string, string>, filters: Filters, names: seq<string>, containingFile: string,
    host: seq<Option<ResolvedModule>>, files: set<string>, n: nat)
    requires n <= |host|
    ensures InterceptUpTo(cache, filters, names, containingFile, host, files, n)
         == Thread(cache, EntryStep(filters, names, containingFile, host, files), n)
  {
    if n > 0 {
      InterceptIsThread(cache, filters, names, containingFile, host, files, n - 1);
      var prev := InterceptUpTo(cache, filters, names, containingFile, host, files, n - 1);
      assert EntryStep(filters, names, containingFile, host, files)(prev.cache, n - 1)
          == MapEntry(prev.cache, filters, NameAt(names, n - 1), containingFile, host[n - 1], files);
    }
  }

  /** The callback of `resolvedModules.map` on entry `k`, as a step of `Thread`. */
  function EntryStep(filters: Filters, names: seq<string>, containingFile: string,
    host: seq<Option<ResolvedModule>>, files: set<string>): (map<string, string>, nat) -> Entry
  {
    (c: map<string, string>, k: nat) =>
      MapEntry(c, filters, NameAt(names, k), containingFile, if k < |host| then host[k] else None, files)
  }

  /**
    An entry meeting the four conditions becomes the alias resolver's answer,
    computed on the cache as the entries before it left it; it is `undefined`
    exactly when its target is not cached and no candidate file exists.
   */
  lemma InterceptSelected(
    cache: map<string, string>, filters: Filters, names: seq<string>, containingFile: string,
    host: seq<Option<ResolvedModule>>, files: set<string>, n: nat, i: nat)
    requires i < n <= |host| && ShouldResolve(host[i], NameAt(names, i), containingFile, filters)
    ensures var before := InterceptUpTo(cache, filters, names, containingFile, host, files, i).cache;
      var t := AliasTarget(filters.fileFilter, containingFile, NameAt(names, i));
      var r := InterceptUpTo(cache, filters, names, containingFile, host, files, n).results[i];
      && r == AsModule(Step(before, t, files).found)
      && (r.None? <==> t !in before && Lookup(t, files).None?)
  {
    var before := InterceptUpTo(cache, filters, names, containingFile, host, files, i).cache;
    var t := AliasTarget(filters.fileFilter, containingFile, NameAt(names, i));
    InterceptIsThread(cache, filters, names, containingFile, host, files, n);
    InterceptIsThread(cache, filters, names, containingFile, host, files, i);
    ThreadEntry(cache, EntryStep(filters, names, containingFile, host, files), n, i);
    StepMiss(before, t, files);
  }

  /** Mapping more entries only extends the answer: the first `n` results do not depend on what follows. */
  lemma {:induction false} InterceptPrefix(
    cache: map<string, string>, filters: Filters, names: seq<string>, containingFile: string,
    host: seq<Option<ResolvedModule>>, more: seq<Option<ResolvedModule>>, files: set<string>, n: nat)
    requires n <= |host|
    ensures InterceptUpTo(cache, filters, names, containingFile, host + more, files, n)
         == InterceptUpTo(cache, filters, names, containingFile, host, files, n)
  {
    if n > 0 {
      InterceptPrefix(cache, filters, names, containingFile, host, more, files, n - 1);
      assert (host + more)[n - 1] == host[n - 1];
    }
  }

  /** A specifier outside the alias folders, or one with an extension, is never resolved by the plugin. */
  lemma InterceptPassesThrough(
    cache: map<string, string>, filters: Filters, names: seq<string>, containingFile: string,
    host: seq<Option<ResolvedModule>>, files: set<string>)
    requires forall i :: 0 <= i < |host| ==> !filters.importFilter.Test(NameAt(names, i)) || HasExtension(NameAt(names, i))
    ensures Intercept(cache, filters, names, containingFile, host, files).results == host
  {
  }

  // ---------------------------------------------------------------------
  // .vue file list and getScriptKind
  // ---------------------------------------------------------------------

  /** `parsed.fileNames.filter((fileName) => fileName.endsWith(".vue"))`. */
  function VueFileNames(names: seq<string>): (r: seq<string>)
    ensures |r| <= |names|
    ensures forall f :: f in r ==> EndsWith(f, ".vue")
  {
    if |names| == 0 then []
    else (if EndsWith(names[0], ".vue") then [names[0]] else []) + VueFileNames(names[1..])
  }

  /** A name is kept exactly when it is one of the inputs and ends in `.vue`. */
  lemma {:induction false} VueFileNamesMembers(names: seq<string>, f: string)
    ensures f in VueFileNames(names) <==> f in names && EndsWith(f, ".vue")
  {
    if |names| > 0 {
      VueFileNamesMembers(names[1..], f);
      assert names == [names[0]] + names[1..];
    }
  }

  /** The filter keeps the original order: filtering a concatenation concatenates the filtered parts. */
  lemma {:induction false} VueFileNamesConcat(a: seq<string>, b: seq<string>)
    ensures VueFileNames(a + b) == VueFileNames(a) + VueFileNames(b)
  {
    if |a| > 0 {
      var head := if EndsWith(a[0], ".vue") then [a[0]] else [];
      assert (a + b)[0] == a[0];
      assert (a + b)[1..] == a[1..] + b;
      VueFileNamesConcat(a[1..], b);
      calc {
        VueFileNames(a + b);
        head + VueFileNames(a[1..] + b);
        head + (VueFileNames(a[1..]) + VueFileNames(b));
        (head + VueFileNames(a[1..])) + VueFileNames(b);
        VueFileNames(a) + VueFileNames(b);
      }
    } else {
      assert a + b == b;
    }
  }

  /** Filtering twice is filtering once. */
  lemma {:induction false} VueFileNamesIdempotent(names: seq<string>)
    ensures VueFileNames(VueFileNames(names)) == VueFileNames(names)
  {
    if |names| > 0 {
      var head := if EndsWith(names[0], ".vue") then [names[0]] else [];
      VueFileNamesIdempotent(names[1..]);
      VueFileNamesConcat(head, VueFileNames(names[1..]));
      if EndsWith(names[0], ".vue") {
        assert VueFileNames(head) == [names[0]] + VueFileNames(head[1..]);
      }
    }
  }

  /** The members of `ts.ScriptKind`. */
  datatype ScriptKind = Unknown | JS | JSX | TS | TSX | External | JSON | Deferred

  /** The overriding `getScriptKind`: `.vue` files are `Deferred`, everything else goes to the original. */
  function PatchedScriptKind(original: string -> ScriptKind, fileName: string): (k: ScriptKind)
    ensures EndsWith(fileName, ".vue") ==> k == Deferred
    ensures !EndsWith(fileName, ".vue") ==> k == original(fileName)
  {
    if EndsWith(fileName, ".vue") then Deferred else original(fileName)
  }

  /** Overriding an already overridden `getScriptKind` would change nothing. */
  lemma PatchedScriptKindIdempotent(original: string -> ScriptKind, fileName: string)
    ensures PatchedScriptKind((f: string) => PatchedScriptKind(original, f), fileName) == PatchedScriptKind(original, fileName)
  {
  }

  // ---------------------------------------------------------------------
  // The factory
  // ---------------------------------------------------------------------

  /** A tsserver project, by identity. */
  type ProjectId = nat

  /**
    What `create(info)` reads: the project, whether its name is an existing
    tsconfig path (`info.project.fileExists(projectName)`), whether the host
    has a `resolveModuleNames`, the parsed file names, and `info.config`.
   */
  datatype CreateInfo = CreateInfo(
    project: ProjectId,
    isConfigured: bool,
    hostResolvesModuleNames: bool,
    parsedFileNames: seq<string>,
    config: PluginConfig)

  /**
    What `create` leaves behind: the filters of the installed interceptor,
    if one was installed, and whether the language service was replaced by
    the Vue-aware proxy.
   */
  datatype Installed = Installed(interceptor: Option<Filters>, decorated: bool)

  /** The closure state of one plugin module factory. */
  class PluginFactory {
    var cache: map<string, string>
    var externalFiles: map<ProjectId, seq<string>>
    /** The projects whose `getScriptKind` has been overridden (the `__vue_getScriptKind` marker). */
    var scriptKindPatched: set<ProjectId>

    ghost predicate Valid()
      reads this
    {
      && Coherent(cache)
      && (forall p :: p in externalFiles ==> |externalFiles[p]| > 0 && forall f :: f in externalFiles[p] ==> EndsWith(f, ".vue"))
      && externalFiles.Keys <= scriptKindPatched
    }

    constructor ()
      ensures Valid()
      ensures cache == map[] && externalFiles == map[] && scriptKindPatched == {}
    {
      cache := map[];
      externalFiles := map[];
      scriptKindPatched := {};
    }

    /**
      `resolvedModule(moduleName, containingFile, fileFilter)`; every caller
      has checked that `fileFilter` matches `containingFile`.
     */
    method ResolveAlias(moduleName: string, containingFile: string, fileFilter: FileFilter, files: set<string>)
      returns (r: Option<ResolvedModule>)
      requires Valid() && fileFilter.Test(containingFile)
      modifies this`cache
      ensures Valid()
      ensures var o := Step(old(cache), AliasTarget(fileFilter, containingFile, moduleName), files);
        cache == o.cache && r == AsModule(o.found)
    {
      var m := fileFilter.Exec(containingFile).value;
      var target := containingFile[..m] + ReplaceFirst(moduleName, "@/", "");
      StepCoherent(cache, target, files);
      if target !in cache {
        var filename := "";
        if EndsWith(target, "/") {
          var k := Probe(target, "index", files);
          if k.Some? {
            filename := target + "index" + Extensions[k.value];
          }
        } else {
          var k := Probe(target, "", files);
          if k.Some? {
            filename := target + "" + Extensions[k.value];
          }
          if filename == "" {
            var k2 := Probe(target, "/index", files);
            if k2.Some? {
              filename := target + "/index" + Extensions[k2.value];
            }
          }
        }
        if filename != "" {
          cache := cache[target := filename];
        }
      }
      r := if target in cache then Some(ResolvedModule(cache[target], None, None)) else None;
    }

    /**
      The installed `info.languageServiceHost.resolveModuleNames`: the host's
      answer, with each entry the four conditions select replaced by the
      alias resolver's answer.
     */
    method ResolveModuleNames(
      filters: Filters, moduleNames: seq<string>, containingFile: string,
      host: seq<Option<ResolvedModule>>, files: set<string>)
      returns (results: seq<Option<ResolvedModule>>)
      requires Valid()
      modifies this`cache
      ensures Valid()
      ensures var b := Intercept(old(cache), filters, moduleNames, containingFile, host, files);
        results == b.results && cache == b.cache
    {
      results := [];
      for i := 0 to |host|
        invariant Valid()
        invariant var b := InterceptUpTo(old(cache), filters, moduleNames, containingFile, host, files, i);
          results == b.results && cache == b.cache
      {
        var name := NameAt(moduleNames, i);
        var m := host[i];
        if m.None? && filters.importFilter.Test(name) && filters.fileFilter.Test(containingFile) && !HasExtension(name) {
          m := ResolveAlias(name, containingFile, filters.fileFilter, files);
        }
        results := results + [m];
      }
    }

    /** `getExternalFiles(project)`: the `.vue` files registered for the project, or none. */
    function GetExternalFiles(project: ProjectId): (r: seq<string>)
      reads this
      requires Valid()
      ensures forall f :: f in r ==> EndsWith(f, ".vue")
      ensures project in externalFiles ==> r == externalFiles[project]
      ensures project !in externalFiles ==> r == []
    {
      if project in externalFiles then externalFiles[project] else []
    }

    /**
      `create(info)`. An inferred project is left alone. Otherwise the
      interceptor is installed when both roots and folders are non-empty and
      the host resolves module names; then, if the project has `.vue` files,
      they are registered and `getScriptKind` is overridden once.
     */
    method Create(info: CreateInfo) returns (inst: Installed)
      requires Valid()
      modifies this`externalFiles, this`scriptKindPatched
      ensures Valid()
      ensures var c := ResolvePluginConfig(info.config);
        var vue := VueFileNames(info.parsedFileNames);
        && inst.interceptor == (if info.isConfigured && |c.roots| > 0 && |c.folders| > 0 && info.hostResolvesModuleNames
                                then Some(Filters(FileFilter(FileFilterSource(c.roots), c.roots), ImportFilter(ImportFilterSource(c.folders), c.folders)))
                                else None)
        && inst.decorated == (info.isConfigured && |vue| > 0)
        && externalFiles == (if inst.decorated then old(externalFiles)[info.project := vue] else old(externalFiles))
        && scriptKindPatched == (if inst.decorated then old(scriptKindPatched) + {info.project} else old(scriptKindPatched))
      ensures inst.decorated ==> forall f :: f in GetExternalFiles(info.project) <==> f in info.parsedFileNames && EndsWith(f, ".vue")
    {
      if !info.isConfigured {
        return Installed(None, false);
      }
      var c := ResolvePluginConfig(info.config);
      var interceptor := None;
      if |c.roots| > 0 && |c.folders| > 0 {
        var f := CreateFilter(c.roots, c.folders);
        if info.hostResolvesModuleNames {
          interceptor := Some(f);
        }
      }
      var vue := VueFileNames(info.parsedFileNames);
      if |vue| == 0 {
        return Installed(interceptor, false);
      }
      externalFiles := externalFiles[info.project := vue];
      forall f ensures f in vue <==> f in info.parsedFileNames && EndsWith(f, ".vue") {
        VueFileNamesMembers(info.parsedFileNames, f);
      }
      if info.project !in scriptKindPatched {
        scriptKindPatched := scriptKindPatched + {info.project};
      }
      inst := Installed(interceptor, true);
    }
  }
}
