/**
  What both copies of the alias resolver share: the resolved-module record,
  the extension priority list, the probe loop `for (const ext of extensions)
  { if (fileExists(...)) { ...; break; } }`, and the rebuilt target path.

  File existence is a set of paths: `fileExists(p)` is `p in files`.
 */
module Probing {
  import opened Prelude
  import opened Filters

  /**
    The record handed back to the host. A field that the code leaves out
    of the object literal is `None`.
   */
  datatype ResolvedModule = ResolvedModule(
    resolvedFileName: string,
    isExternalLibraryImport: Option<bool>,
    extension: Option<string>)

  /** The probe order (src/index.ts:26, src/utils.ts:28). */
  const Extensions: seq<string> := [".ts", ".tsx", ".js", ".jsx"]

  /** The path probed for extension number `k`: `${base}${infix}${ext}`. */
  function Candidate(base: string, infix: string, k: nat): string
    requires k < |Extensions|
  {
    base + infix + Extensions[k]
  }

  /** The first extension, from index `from` on, whose candidate exists. */
  function FirstExisting(base: string, infix: string, files: set<string>, from: nat): (k: Option<nat>)
    requires from <= |Extensions|
    ensures k.Some? ==> from <= k.value < |Extensions| && Candidate(base, infix, k.value) in files
    ensures k.Some? ==> forall j :: from <= j < k.value ==> Candidate(base, infix, j) !in files
    ensures k.None? ==> forall j :: from <= j < |Extensions| ==> Candidate(base, infix, j) !in files
    decreases |Extensions| - from
  {
    if from == |Extensions| then None
    else if Candidate(base, infix, from) in files then Some(from)
    else FirstExisting(base, infix, files, from + 1)
  }

  /** The first existing candidate is unique: any `k` that is first is what `FirstExisting` finds. */
  lemma FirstExistingIs(base: string, infix: string, files: set<string>, k: nat)
    requires k < |Extensions| && Candidate(base, infix, k) in files
    requires forall j :: 0 <= j < k ==> Candidate(base, infix, j) !in files
    ensures FirstExisting(base, infix, files, 0) == Some(k)
  {
  }

  lemma FirstExistingNone(base: string, infix: string, files: set<string>)
    requires forall j :: 0 <= j < |Extensions| ==> Candidate(base, infix, j) !in files
    ensures FirstExisting(base, infix, files, 0) == None
  {
  }

  /** One probe loop: tries the candidates in priority order and stops at the first that exists. */
  method Probe(base: string, infix: string, files: set<string>) returns (k: Option<nat>)
    ensures k.Some? ==> k.value < |Extensions| && Candidate(base, infix, k.value) in files
    ensures k.Some? ==> forall j :: 0 <= j < k.value ==> Candidate(base, infix, j) !in files
    ensures k.None? ==> forall j :: 0 <= j < |Extensions| ==> Candidate(base, infix, j) !in files
    ensures k == FirstExisting(base, infix, files, 0)
  {
    k := None;
    var i := 0;
    while i < |Extensions|
      invariant 0 <= i <= |Extensions|
      invariant forall j :: 0 <= j < i ==> Candidate(base, infix, j) !in files
    {
      if base + infix + Extensions[i] in files {
        k := Some(i);
        FirstExistingIs(base, infix, files, i);
        return;
      }
      i := i + 1;
    }
    FirstExistingNone(base, infix, files);
  }

  /**
    The rebuilt absolute target: the containing file up to the end of the
    `fileFilter` match, then the specifier with its first `@/` removed.
   */
  function AliasTarget(ff: FileFilter, containingFile: string, moduleName: string): string
    requires ff.Test(containingFile)
  {
    containingFile[..ff.Exec(containingFile).value] + ReplaceFirst(moduleName, "@/", "")
  }

  /**
    For a specifier that starts with `@/` (every one the interceptor lets
    through does), the target is a prefix of the containing file ending in
    `/`, followed by the specifier without its two-character alias marker.
   */
  lemma AliasTargetShape(ff: FileFilter, containingFile: string, moduleName: string)
    requires ff.Test(containingFile) && StartsWith(moduleName, "@/")
    ensures var e := ff.Exec(containingFile).value;
      && AliasTarget(ff, containingFile, moduleName) == containingFile[..e] + moduleName[2..]
      && EndsWith(containingFile[..e], "/")
  {
  }
}
