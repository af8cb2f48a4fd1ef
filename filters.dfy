/**
  The pattern compiler `createFilter` and the two patterns it compiles.

  `createFilter` turns the configured roots and folders into the text of two
  regular expressions:
    fileFilter   = /(name1(/[^/]+){depth1}|name2...)/
    importFilter = ^@/(folder1|folder2|...)\b
  The regex engine itself is not modelled: each pattern comes with a matcher
  that does what that particular regex does on literal names (`FileFilter.Exec`
  and `ImportFilter.Test`).
 */
module Filters {
  import opened Prelude

  /** One alias root: a literal directory name followed by `depth` variable segments. */
  datatype RootConfig = RootConfig(name: string, depth: nat)

  /** The regex text of one variable path segment. */
  const SegmentPattern: string := "/[^/]+"

  function Repeat(s: string, n: nat): string {
    if n == 0 then "" else Repeat(s, n - 1) + s
  }

  /** The regex text emitted for one root: its name, then `depth` segment wildcards. */
  function RootPatternText(r: RootConfig): string {
    r.name + Repeat(SegmentPattern, r.depth)
  }

  /** `Array.prototype.join`. */
  function Join(parts: seq<string>, sep: string): string {
    if |parts| == 0 then ""
    else if |parts| == 1 then parts[0]
    else parts[0] + sep + Join(parts[1..], sep)
  }

  function RootPatterns(roots: seq<RootConfig>): (ps: seq<string>)
    ensures |ps| == |roots|
  {
    seq(|roots|, i requires 0 <= i < |roots| => RootPatternText(roots[i]))
  }

  function FileFilterSource(roots: seq<RootConfig>): string {
    "/(" + Join(RootPatterns(roots), "|") + ")/"
  }

  function ImportFilterSource(folders: seq<string>): string {
    "^@/(" + Join(folders, "|") + ")\\b"
  }

  // ---------------------------------------------------------------------
  // fileFilter: what the compiled regex finds in a containing-file path
  // ---------------------------------------------------------------------

  /** The length of the run of non-`/` characters starting at `from`; `[^/]+` always takes all of it. */
  function NonSlashRun(path: string, from: nat): (n: nat)
    requires from <= |path|
    ensures from + n <= |path|
    ensures forall k :: from <= k < from + n ==> path[k] != '/'
    ensures from + n == |path| || path[from + n] == '/'
    decreases |path| - from
  {
    if from == |path| || path[from] == '/' then 0 else 1 + NonSlashRun(path, from + 1)
  }

  /**
    Where `depth` copies of `/[^/]+` starting at `pos` end. Each `[^/]+` must
    be followed by `/` (the next copy's or the pattern's closing one), which
    can only be the first `/` after it, so the greedy run is the only choice.
   */
  function SegmentsEnd(path: string, pos: nat, depth: nat): (e: Option<nat>)
    requires pos <= |path|
    ensures e.Some? ==> pos + 2 * depth <= e.value <= |path|
    decreases depth
  {
    if depth == 0 then Some(pos)
    else if pos < |path| && path[pos] == '/' && NonSlashRun(path, pos + 1) > 0 then
      SegmentsEnd(path, pos + 1 + NonSlashRun(path, pos + 1), depth - 1)
    else None
  }

  /** The end of a match of `/` + one alternative + `/` that starts at offset `i`. */
  function AltEnd(path: string, i: nat, r: RootConfig): (e: Option<nat>)
    ensures e.Some? ==> i < |path| && path[i] == '/' && OccursAt(path, r.name, i + 1)
    ensures e.Some? ==> i + 2 + |r.name| + 2 * r.depth <= e.value <= |path| && path[e.value - 1] == '/'
  {
    if i < |path| && path[i] == '/' && OccursAt(path, r.name, i + 1) then
      CloseAfter(path, SegmentsEnd(path, i + 1 + |r.name|, r.depth))
    else None
  }

  /** The pattern's closing `/` right after the segments, if it is there. */
  function CloseAfter(path: string, e: Option<nat>): (c: Option<nat>)
    ensures c.Some? ==> e.Some? && c.value == e.value + 1 && e.value < |path| && path[e.value] == '/'
  {
    match e
    case Some(p) => if p < |path| && path[p] == '/' then Some(p + 1) else None
    case None => None
  }

  /** The first alternative, in roots order from index `from`, that matches at offset `i`. */
  function FirstAlternative(path: string, i: nat, roots: seq<RootConfig>, from: nat): (k: Option<nat>)
    requires from <= |roots|
    ensures k.Some? ==> from <= k.value < |roots| && AltEnd(path, i, roots[k.value]).Some?
    ensures k.Some? ==> forall j :: from <= j < k.value ==> AltEnd(path, i, roots[j]).None?
    ensures k.None? ==> forall j :: from <= j < |roots| ==> AltEnd(path, i, roots[j]).None?
    decreases |roots| - from
  {
    if from == |roots| then None
    else if AltEnd(path, i, roots[from]).Some? then Some(from)
    else FirstAlternative(path, i, roots, from + 1)
  }

  /** The end of the match that the alternation finds at offset `i`, if any. */
  function MatchAt(path: string, i: nat, roots: seq<RootConfig>): Option<nat> {
    match FirstAlternative(path, i, roots, 0)
    case None => None
    case Some(k) => AltEnd(path, i, roots[k])
  }

  /** The leftmost offset at or after `from` where the alternation matches. */
  function FirstMatchStart(path: string, roots: seq<RootConfig>, from: nat): (s: Option<nat>)
    requires from <= |path|
    ensures s.Some? ==> from <= s.value < |path| && MatchAt(path, s.value, roots).Some?
    ensures s.Some? ==> forall j :: from <= j < s.value ==> MatchAt(path, j, roots).None?
    ensures s.None? ==> forall j :: from <= j < |path| ==> MatchAt(path, j, roots).None?
    decreases |path| - from
  {
    if from == |path| then None
    else if MatchAt(path, from, roots).Some? then Some(from)
    else FirstMatchStart(path, roots, from + 1)
  }

  /** The compiled `fileFilter`: its regex text and the roots it was built from. */
  datatype FileFilter = FileFilter(source: string, roots: seq<RootConfig>) {

    /**
      The alternatives of the compiled regex. With no roots the joined text is
      empty and the regex is `/()/`: one alternative, the empty name with no
      segments, which the same text also stands for.
     */
    function Alternatives(): (alts: seq<RootConfig>)
      ensures |alts| > 0
      ensures |roots| > 0 ==> alts == roots
      ensures FileFilterSource(alts) == FileFilterSource(roots)
    {
      if |roots| == 0 then
        assert RootPatterns([RootConfig("", 0)]) == [""];
        [RootConfig("", 0)]
      else roots
    }

    /**
      `m.index + m[0].length` for `m = path.match(fileFilter)`: the end of the
      leftmost match, which always ends just after a `/`.
     */
    function Exec(path: string): (m: Option<nat>)
      ensures m.Some? <==> FirstMatchStart(path, Alternatives(), 0).Some?
      ensures m.Some? ==> 0 < m.value <= |path| && path[m.value - 1] == '/'
      ensures m.Some? ==> m == MatchAt(path, FirstMatchStart(path, Alternatives(), 0).value, Alternatives())
    {
      match FirstMatchStart(path, Alternatives(), 0)
      case None => None
      case Some(i) => MatchAt(path, i, Alternatives())
    }

    /** `fileFilter.test(path)`: a match needs the two `/` around a root. */
    predicate Test(path: string)
      ensures Test(path) ==> |path| >= 2
    {
      Exec(path).Some?
    }
  }

  // ---------------------------------------------------------------------
  // importFilter: which specifiers the compiled regex accepts
  // ---------------------------------------------------------------------

  /** `\b` at offset `k`: exactly one of the characters around it is a word character. */
  predicate WordBoundary(s: string, k: nat)
    requires 0 < k <= |s|
  {
    IsWordChar(s[k - 1]) != (k < |s| && IsWordChar(s[k]))
  }

  /** The characters of `folder` from index `k` on follow the `@/` of `spec`. */
  predicate FolderTextFrom(spec: string, folder: string, k: nat)
    requires k <= |folder|
    decreases |folder| - k
  {
    k == |folder| || (2 + k < |spec| && spec[2 + k] == folder[k] && FolderTextFrom(spec, folder, k + 1))
  }

  /** The alternative for `folder` matches at the start of `spec`, boundary included. */
  predicate FolderMatches(spec: string, folder: string) {
    && |folder| + 2 <= |spec| && spec[0] == '@' && spec[1] == '/'
    && FolderTextFrom(spec, folder, 0)
    && WordBoundary(spec, |folder| + 2)
  }

  /** The alternation from index `from` on; a failed `\b` backtracks into the next folder. */
  predicate AnyFolderMatches(spec: string, folders: seq<string>, from: nat)
    requires from <= |folders|
    decreases |folders| - from
  {
    from < |folders| && (FolderMatches(spec, folders[from]) || AnyFolderMatches(spec, folders, from + 1))
  }

  /** The compiled `importFilter`: its regex text and the folders it was built from. */
  datatype ImportFilter = ImportFilter(source: string, folders: seq<string>) {

    /**
      The alternatives of the compiled regex. With no folders the regex is
      `^@/()\b`: one alternative, the empty folder name.
     */
    function Alternatives(): (alts: seq<string>)
      ensures |alts| > 0
      ensures |folders| > 0 ==> alts == folders
      ensures ImportFilterSource(alts) == ImportFilterSource(folders)
    {
      if |folders| == 0 then [""] else folders
    }

    /** `importFilter.test(spec)`: the regex is anchored at a leading `@/`. */
    predicate Test(spec: string)
    {
      AnyFolderMatches(spec, Alternatives(), 0)
    }
  }

  datatype Filters = Filters(fileFilter: FileFilter, importFilter: ImportFilter)

  // ---------------------------------------------------------------------
  // createFilter
  // ---------------------------------------------------------------------

  /** The `res += "/[^/]+"` loop for one root. */
  method RootPattern(r: RootConfig) returns (res: string)
    ensures res == RootPatternText(r)
  {
    res := r.name;
    for i := 0 to r.depth
      invariant res == r.name + Repeat(SegmentPattern, i)
    {
      res := res + SegmentPattern;
    }
  }

  /** `createFilter(roots, folders)`. */
  method CreateFilter(roots: seq<RootConfig>, folders: seq<string>) returns (f: Filters)
    ensures f.fileFilter == FileFilter(FileFilterSource(roots), roots)
    ensures f.importFilter == ImportFilter(ImportFilterSource(folders), folders)
  {
    var rootsStr: seq<string> := [];
    for i := 0 to |roots|
      invariant rootsStr == RootPatterns(roots[..i])
    {
      var p := RootPattern(roots[i]);
      rootsStr := rootsStr + [p];
    }
    assert roots[..|roots|] == roots;
    f := Filters(FileFilter("/(" + Join(rootsStr, "|") + ")/", roots),
                 ImportFilter("^@/(" + Join(folders, "|") + ")\\b", folders));
  }

  // ---------------------------------------------------------------------
  // Properties
  // ---------------------------------------------------------------------

  lemma {:induction false} RepeatSegmentAt(n: nat, k: nat)
    requires k < n
    ensures |Repeat(SegmentPattern, n)| == 6 * n
    ensures Repeat(SegmentPattern, n)[6 * k..6 * k + 6] == SegmentPattern
    decreases n
  {
    RepeatSegmentLength(n - 1);
    if k < n - 1 {
      RepeatSegmentAt(n - 1, k);
      assert Repeat(SegmentPattern, n)[6 * k..6 * k + 6] == Repeat(SegmentPattern, n - 1)[6 * k..6 * k + 6];
    } else {
      assert Repeat(SegmentPattern, n)[6 * k..6 * k + 6] == SegmentPattern;
    }
  }

  lemma {:induction false} RepeatSegmentLength(n: nat)
    ensures |Repeat(SegmentPattern, n)| == 6 * n
    decreases n
  {
    if n > 0 {
      RepeatSegmentLength(n - 1);
    }
  }

  /** A root's pattern is its name followed by exactly `depth` copies of `/[^/]+`. */
  lemma RootPatternShape(r: RootConfig)
    ensures |RootPatternText(r)| == |r.name| + 6 * r.depth
    ensures RootPatternText(r)[..|r.name|] == r.name
    ensures forall k :: 0 <= k < r.depth ==>
      RootPatternText(r)[|r.name| + 6 * k..|r.name| + 6 * k + 6] == SegmentPattern
  {
    RepeatSegmentLength(r.depth);
    var p := RootPatternText(r);
    forall k | 0 <= k < r.depth
      ensures p[|r.name| + 6 * k..|r.name| + 6 * k + 6] == SegmentPattern
    {
      RepeatSegmentAt(r.depth, k);
      assert p[|r.name| + 6 * k..|r.name| + 6 * k + 6] == Repeat(SegmentPattern, r.depth)[6 * k..6 * k + 6];
    }
  }

  /** A slash-free, non-empty path segment: what `[^/]+` matches. */
  predicate IsSegment(s: string) {
    |s| > 0 && forall k :: 0 <= k < |s| ==> s[k] != '/'
  }

  /** Every element of `segs` is a segment. */
  predicate AllSegments(segs: seq<string>) {
    forall k :: 0 <= k < |segs| ==> IsSegment(segs[k])
  }

  function JoinSegments(segs: seq<string>): string {
    if |segs| == 0 then "" else "/" + segs[0] + JoinSegments(segs[1..])
  }

  lemma {:induction false} NonSlashRunExact(path: string, from: nat, n: nat)
    requires from + n < |path| && path[from + n] == '/'
    requires forall k :: from <= k < from + n ==> path[k] != '/'
    ensures NonSlashRun(path, from) == n
    decreases n
  {
    if n > 0 {
      NonSlashRunExact(path, from + 1, n - 1);
    }
  }

  /** The first segment of a joined sequence, as seen at `pos` in `path`. */
  lemma SegmentsHead(path: string, pos: nat, segs: seq<string>, e: nat)
    requires |segs| > 0 && IsSegment(segs[0])
    requires OccursAt(path, JoinSegments(segs), pos)
    requires e == pos + |JoinSegments(segs)| && e < |path| && path[e] == '/'
    ensures path[pos] == '/'
    ensures pos + 1 + |segs[0]| < |path| && path[pos + 1 + |segs[0]|] == '/'
    ensures NonSlashRun(path, pos + 1) == |segs[0]|
    ensures OccursAt(path, JoinSegments(segs[1..]), pos + 1 + |segs[0]|)
    ensures |JoinSegments(segs)| == 1 + |segs[0]| + |JoinSegments(segs[1..])|
  {
    var s0, rest := segs[0], segs[1..];
    var tail := JoinSegments(rest);
    var next := pos + 1 + |s0|;
    assert JoinSegments(segs) == ("/" + s0) + tail;
    OccursAtConcat(path, "/" + s0, tail, pos);
    OccursAtConcat(path, "/", s0, pos);
    OccursAtIndex(path, "/", pos, 0);
    if |rest| > 0 {
      assert tail == "/" + rest[0] + JoinSegments(rest[1..]);
      OccursAtIndex(path, tail, next, 0);
    }
    forall k | pos + 1 <= k < next ensures path[k] != '/' {
      OccursAtIndex(path, s0, pos + 1, k - pos - 1);
    }
    NonSlashRunExact(path, pos + 1, |s0|);
  }

  /** `segs` are the runs of non-`/` characters between consecutive `/`s from `pos` on. */
  ghost predicate SegmentsFrom(path: string, pos: nat, segs: seq<string>)
    decreases |segs|
  {
    && pos < |path| && path[pos] == '/'
    && (|segs| > 0 ==>
      && |segs[0]| > 0
      && NonSlashRun(path, pos + 1) == |segs[0]|
      && SegmentsFrom(path, pos + 1 + |segs[0]|, segs[1..]))
  }

  lemma AllSegmentsTail(segs: seq<string>)
    requires |segs| > 0 && AllSegments(segs)
    ensures AllSegments(segs[1..])
  {
    forall k | 0 <= k < |segs| - 1 ensures IsSegment(segs[1..][k]) {
      assert segs[1..][k] == segs[k + 1];
    }
  }

  lemma SegmentsFromCons(path: string, pos: nat, segs: seq<string>)
    requires |segs| > 0 && |segs[0]| > 0 && pos < |path| && path[pos] == '/'
    requires NonSlashRun(path, pos + 1) == |segs[0]|
    requires SegmentsFrom(path, pos + 1 + |segs[0]|, segs[1..])
    ensures SegmentsFrom(path, pos, segs)
  {
  }

  /** Segments joined with `/` and followed by `/`, found at `pos`, are the runs `SegmentsFrom` describes. */
  lemma {:induction false} SegmentsFromOccurs(path: string, pos: nat, segs: seq<string>, e: nat)
    requires AllSegments(segs)
    requires OccursAt(path, JoinSegments(segs), pos)
    requires e == pos + |JoinSegments(segs)| && e < |path| && path[e] == '/'
    ensures SegmentsFrom(path, pos, segs)
    decreases |segs|
  {
    if |segs| == 0 {
      assert path[pos] == '/';
    } else {
      var next := pos + 1 + |segs[0]|;
      SegmentsNext(path, pos, segs, e);
      SegmentsFromOccurs(path, next, segs[1..], e);
      SegmentsFromCons(path, pos, segs);
    }
  }

  /** What `SegmentsFromOccurs` needs to go on with the remaining segments. */
  lemma SegmentsNext(path: string, pos: nat, segs: seq<string>, e: nat)
    requires |segs| > 0 && AllSegments(segs)
    requires OccursAt(path, JoinSegments(segs), pos)
    requires e == pos + |JoinSegments(segs)| && e < |path| && path[e] == '/'
    ensures |segs[0]| > 0 && pos < |path| && path[pos] == '/' && NonSlashRun(path, pos + 1) == |segs[0]|
    ensures AllSegments(segs[1..])
    ensures OccursAt(path, JoinSegments(segs[1..]), pos + 1 + |segs[0]|)
    ensures e == pos + 1 + |segs[0]| + |JoinSegments(segs[1..])|
  {
    assert IsSegment(segs[0]);
    SegmentsHead(path, pos, segs, e);
    AllSegmentsTail(segs);
  }

  /** Along such runs, `depth` copies of `/[^/]+` end right before the last `/`. */
  lemma {:induction false} SegmentsEndFrom(path: string, pos: nat, segs: seq<string>)
    requires SegmentsFrom(path, pos, segs)
    ensures SegmentsEnd(path, pos, |segs|) == Some(pos + |JoinSegments(segs)|)
    decreases |segs|
  {
    if |segs| > 0 {
      var next := pos + 1 + |segs[0]|;
      SegmentsEndFrom(path, next, segs[1..]);
      assert SegmentsEnd(path, pos, |segs|) == SegmentsEnd(path, next, |segs| - 1);
      assert |JoinSegments(segs)| == 1 + |segs[0]| + |JoinSegments(segs[1..])|;
    }
  }

  /** Completeness of `SegmentsEnd`: `depth` slash-separated segments followed by `/` are found. */
  lemma SegmentsEndComplete(path: string, pos: nat, segs: seq<string>, depth: nat)
    requires depth == |segs| && AllSegments(segs)
    requires OccursAt(path, JoinSegments(segs), pos)
    requires pos + |JoinSegments(segs)| < |path| && path[pos + |JoinSegments(segs)|] == '/'
    ensures SegmentsEnd(path, pos, depth) == Some(pos + |JoinSegments(segs)|)
  {
    SegmentsFromOccurs(path, pos, segs, pos + |JoinSegments(segs)|);
    SegmentsEndFrom(path, pos, segs);
  }

  /**
    The root `r` sits at offset `i` of `path`: a `/`, the root's name, exactly
    `depth` variable segments `segs`, and then a `/`.
   */
  predicate RootAt(path: string, i: nat, r: RootConfig, segs: seq<string>) {
    && |segs| == r.depth
    && AllSegments(segs)
    && i < |path| && path[i] == '/'
    && OccursAt(path, r.name, i + 1)
    && OccursAt(path, JoinSegments(segs), i + 1 + |r.name|)
    && i + 1 + |r.name| + |JoinSegments(segs)| < |path|
    && path[i + 1 + |r.name| + |JoinSegments(segs)|] == '/'
  }

  lemma PlaceParts(pre: string, name: string, j: string, rest: string)
    ensures (pre + "/" + name + j + "/" + rest)[|pre|] == '/'
    ensures OccursAt(pre + "/" + name + j + "/" + rest, name, |pre| + 1)
    ensures OccursAt(pre + "/" + name + j + "/" + rest, j, |pre| + 1 + |name|)
    ensures (pre + "/" + name + j + "/" + rest)[|pre| + 1 + |name| + |j|] == '/'
  {
    var path := pre + "/" + name + j + "/" + rest;
    OccursAtStart(pre + "/" + name + j + "/", rest);
    OccursAtConcat(path, pre + "/" + name + j, "/", 0);
    OccursAtConcat(path, pre + "/" + name, j, 0);
    OccursAtConcat(path, pre + "/", name, 0);
    OccursAtConcat(path, pre, "/", 0);
    OccursAtIndex(path, "/", |pre|, 0);
    OccursAtIndex(path, "/", |pre| + 1 + |name| + |j|, 0);
  }

  /** Any prefix, then the root with its segments, then `/` and anything: the root sits right after the prefix. */
  lemma PlaceRootAt(pre: string, r: RootConfig, segs: seq<string>, rest: string)
    requires |segs| == r.depth
    requires AllSegments(segs)
    ensures RootAt(pre + "/" + r.name + JoinSegments(segs) + "/" + rest, |pre|, r, segs)
  {
    PlaceParts(pre, r.name, JoinSegments(segs), rest);
  }

  lemma AltEndFromParts(path: string, i: nat, r: RootConfig, q: nat, e: nat)
    requires i < |path| && path[i] == '/' && OccursAt(path, r.name, i + 1)
    requires SegmentsEnd(path, i + 1 + |r.name|, r.depth) == Some(q)
    requires q < |path| && path[q] == '/' && e == q + 1
    ensures AltEnd(path, i, r) == Some(e)
  {
  }

  /** A root at offset `i` is matched there, and the match ends just after the `/` that follows its segments. */
  lemma AltEndAtRoot(path: string, i: nat, r: RootConfig, segs: seq<string>)
    requires RootAt(path, i, r, segs)
    ensures AltEnd(path, i, r) == Some(i + |r.name| + |JoinSegments(segs)| + 2)
  {
    SegmentsEndComplete(path, i + 1 + |r.name|, segs, r.depth);
    AltEndFromParts(path, i, r, i + 1 + |r.name| + |JoinSegments(segs)|, i + |r.name| + |JoinSegments(segs)| + 2);
  }

  /** The first matching root is unique: a root that matches, with none matching before it, is the one taken. */
  lemma FirstAlternativeIs(path: string, i: nat, roots: seq<RootConfig>, k: nat)
    requires k < |roots| && AltEnd(path, i, roots[k]).Some?
    requires forall j :: 0 <= j < k ==> AltEnd(path, i, roots[j]).None?
    ensures FirstAlternative(path, i, roots, 0) == Some(k)
  {
  }

  /** The leftmost match start is unique in the same way. */
  lemma FirstMatchStartIs(path: string, roots: seq<RootConfig>, i: nat)
    requires i < |path| && MatchAt(path, i, roots).Some?
    requires forall j :: 0 <= j < i ==> MatchAt(path, j, roots).None?
    ensures FirstMatchStart(path, roots, 0) == Some(i)
  {
  }

  /**
    The split boundary of the compiled `fileFilter`: when no root sits
    earlier in the path and no earlier root sits at the same offset, the
    match ends just after the `/` that follows the root's `depth` segments,
    however many directories come before the root.
   */
  lemma SplitBoundary(f: FileFilter, path: string, i: nat, k: nat, segs: seq<string>)
    requires k < |f.Alternatives()| && RootAt(path, i, f.Alternatives()[k], segs)
    requires forall j, s :: 0 <= j < k ==> !RootAt(path, i, f.Alternatives()[j], s)
    requires forall j, k2, s :: 0 <= j < i && 0 <= k2 < |f.Alternatives()| ==> !RootAt(path, j, f.Alternatives()[k2], s)
    ensures f.Exec(path) == Some(i + |f.Alternatives()[k].name| + |JoinSegments(segs)| + 2)
  {
    var alts := f.Alternatives();
    forall j | 0 <= j < k ensures AltEnd(path, i, alts[j]).None? {
      AltEndIff(path, i, alts[j]);
    }
    forall j | 0 <= j < i ensures MatchAt(path, j, alts).None? {
      MatchAtRoot(path, j, alts);
    }
    AltEndAtRoot(path, i, alts[k], segs);
    FirstAlternativeIs(path, i, alts, k);
    FirstMatchStartIs(path, alts, i);
  }

  /** One step of `SegmentsEnd`: a `/`, then a greedy run `s0` of non-`/` characters, then the remaining segments. */
  lemma SegmentsEndCons(path: string, pos: nat, depth: nat, e: nat) returns (n: nat, s0: string)
    requires 0 < depth && pos <= |path| && SegmentsEnd(path, pos, depth) == Some(e)
    ensures pos + 1 + n <= |path| && |s0| == n
    ensures SegmentsEnd(path, pos + 1 + n, depth - 1) == Some(e)
    ensures IsSegment(s0) && OccursAt(path, "/" + s0, pos)
  {
    n := NonSlashRun(path, pos + 1);
    s0 := path[pos + 1..pos + 1 + n];
    forall k | 0 <= k < |s0| ensures s0[k] != '/' {
      assert s0[k] == path[pos + 1 + k];
    }
    assert path[pos..pos + 1 + n] == "/" + s0;
  }

  /** Soundness of `SegmentsEnd`: where it ends, `depth` real segments were crossed. */
  lemma {:induction false} SegmentsEndSound(path: string, pos: nat, depth: nat, e: nat) returns (segs: seq<string>)
    requires pos <= |path| && SegmentsEnd(path, pos, depth) == Some(e)
    ensures |segs| == depth && AllSegments(segs)
    ensures OccursAt(path, JoinSegments(segs), pos)
    ensures e == pos + |JoinSegments(segs)|
    decreases depth
  {
    if depth == 0 {
      segs := [];
    } else {
      var n, s0 := SegmentsEndCons(path, pos, depth, e);
      var rest := SegmentsEndSound(path, pos + 1 + n, depth - 1, e);
      SoundStep(path, pos, n, s0, rest, e);
      segs := [s0] + rest;
    }
  }

  /** One segment in front of segments already crossed: together they were crossed from `pos`. */
  lemma SoundStep(path: string, pos: nat, n: nat, s0: string, rest: seq<string>, e: nat)
    requires |s0| == n && IsSegment(s0) && OccursAt(path, "/" + s0, pos)
    requires AllSegments(rest) && OccursAt(path, JoinSegments(rest), pos + 1 + n)
    requires e == pos + 1 + n + |JoinSegments(rest)|
    ensures AllSegments([s0] + rest)
    ensures OccursAt(path, JoinSegments([s0] + rest), pos)
    ensures e == pos + |JoinSegments([s0] + rest)|
  {
    assert |"/" + s0| == 1 + n;
    OccursAtJoin(path, "/" + s0, JoinSegments(rest), pos);
    JoinCons(s0, rest);
    AllSegmentsCons(s0, rest);
  }

  lemma JoinCons(s0: string, rest: seq<string>)
    ensures JoinSegments([s0] + rest) == "/" + s0 + JoinSegments(rest)
  {
    assert ([s0] + rest)[1..] == rest;
  }

  lemma AllSegmentsCons(s0: string, rest: seq<string>)
    requires IsSegment(s0) && AllSegments(rest)
    ensures AllSegments([s0] + rest)
  {
    forall k | 0 <= k < 1 + |rest| ensures IsSegment(([s0] + rest)[k]) {
      if k > 0 {
        assert ([s0] + rest)[k] == rest[k - 1];
      }
    }
  }

  /** Soundness of one alternative: where it matches, the root really sits, and the match ends after it. */
  lemma AltEndSound(path: string, i: nat, r: RootConfig, e: nat) returns (segs: seq<string>)
    requires AltEnd(path, i, r) == Some(e)
    ensures RootAt(path, i, r, segs) && e == i + |r.name| + |JoinSegments(segs)| + 2
  {
    var p := i + 1 + |r.name|;
    var q := SegmentsEnd(path, p, r.depth).value;
    segs := SegmentsEndSound(path, p, r.depth, q);
  }

  /** An alternative matches at offset `i` exactly when its root sits there. */
  lemma AltEndIff(path: string, i: nat, r: RootConfig)
    ensures AltEnd(path, i, r).Some? <==> exists segs :: RootAt(path, i, r, segs)
  {
    if exists segs :: RootAt(path, i, r, segs) {
      var segs :| RootAt(path, i, r, segs);
      AltEndAtRoot(path, i, r, segs);
    }
    if AltEnd(path, i, r).Some? {
      var segs := AltEndSound(path, i, r, AltEnd(path, i, r).value);
    }
  }

  /** The alternation matches at `j` only where some root sits. */
  lemma MatchAtRoot(path: string, j: nat, roots: seq<RootConfig>)
    ensures MatchAt(path, j, roots).Some? ==> exists k, segs :: 0 <= k < |roots| && RootAt(path, j, roots[k], segs)
  {
    if MatchAt(path, j, roots).Some? {
      var k := FirstAlternative(path, j, roots, 0).value;
      AltEndIff(path, j, roots[k]);
    }
  }

  /** A root sitting at `j` makes the alternation match there. */
  lemma RootAtMatches(path: string, j: nat, roots: seq<RootConfig>, k: nat, segs: seq<string>)
    ensures k < |roots| && RootAt(path, j, roots[k], segs) ==> MatchAt(path, j, roots).Some?
  {
    if k < |roots| && RootAt(path, j, roots[k], segs) {
      AltEndAtRoot(path, j, roots[k], segs);
    }
  }

  /** No alternative matching at `i` before `k` means no earlier root sits at `i`. */
  lemma NoEarlierRoot(path: string, i: nat, roots: seq<RootConfig>, k: nat)
    requires k <= |roots|
    requires forall j :: 0 <= j < k ==> AltEnd(path, i, roots[j]).None?
    ensures forall j, s :: 0 <= j < k ==> !RootAt(path, i, roots[j], s)
  {
    forall j, s | 0 <= j < k ensures !RootAt(path, i, roots[j], s) {
      AltEndIff(path, i, roots[j]);
    }
  }

  /** No match before offset `i` means no root sits before `i`. */
  lemma NoEarlierOffset(path: string, i: nat, roots: seq<RootConfig>)
    requires forall j :: 0 <= j < i ==> MatchAt(path, j, roots).None?
    ensures forall j, k2, s :: 0 <= j < i && 0 <= k2 < |roots| ==> !RootAt(path, j, roots[k2], s)
  {
    forall j, k2, s | 0 <= j < i && 0 <= k2 < |roots| ensures !RootAt(path, j, roots[k2], s) {
      RootAtMatches(path, j, roots, k2, s);
    }
  }

  /** Where `Exec` ends: the alternative found first at the leftmost offset. */
  lemma ExecParts(f: FileFilter, path: string) returns (i: nat, k: nat, e: nat)
    requires f.Test(path)
    ensures i < |path| && k < |f.Alternatives()|
    ensures f.Exec(path) == Some(e) && AltEnd(path, i, f.Alternatives()[k]) == Some(e)
    ensures forall j :: 0 <= j < k ==> AltEnd(path, i, f.Alternatives()[j]).None?
    ensures forall j :: 0 <= j < i ==> MatchAt(path, j, f.Alternatives()).None?
  {
    var alts := f.Alternatives();
    i := FirstMatchStart(path, alts, 0).value;
    k := FirstAlternative(path, i, alts, 0).value;
    e := f.Exec(path).value;
  }

  /**
    Soundness of the compiled `fileFilter`: a match ends just after the `/`
    that follows a root that really sits in the path; no root sits at any
    earlier offset, and no earlier root at the same offset.
   */
  lemma ExecMatch(f: FileFilter, path: string) returns (i: nat, k: nat, segs: seq<string>, e: nat)
    requires f.Test(path)
    ensures k < |f.Alternatives()| && RootAt(path, i, f.Alternatives()[k], segs)
    ensures f.Exec(path) == Some(e) && e == i + |f.Alternatives()[k].name| + |JoinSegments(segs)| + 2
    ensures forall j, s :: 0 <= j < k ==> !RootAt(path, i, f.Alternatives()[j], s)
    ensures forall j, k2, s :: 0 <= j < i && 0 <= k2 < |f.Alternatives()| ==> !RootAt(path, j, f.Alternatives()[k2], s)
  {
    var alts := f.Alternatives();
    i, k, e := ExecParts(f, path);
    var r := alts[k];
    segs := AltEndSound(path, i, r, e);
    NoEarlierRoot(path, i, alts, k);
    NoEarlierOffset(path, i, alts);
  }

  /** `fileFilter.test(path)` holds exactly when some root sits somewhere in the path. */
  lemma FileFilterTestIff(f: FileFilter, path: string)
    ensures f.Test(path) <==>
      exists i, k, segs :: 0 <= k < |f.Alternatives()| && RootAt(path, i, f.Alternatives()[k], segs)
  {
    var alts := f.Alternatives();
    if f.Test(path) {
      var i, k, segs, e := ExecMatch(f, path);
    }
    if exists i, k, segs :: 0 <= k < |alts| && RootAt(path, i, alts[k], segs) {
      var i, k, segs :| 0 <= k < |alts| && RootAt(path, i, alts[k], segs);
      RootAtMatches(path, i, alts, k, segs);
    }
  }

  /** With no roots the regex is `/()/`, which splits `a//b` after its second `/`. */
  lemma EmptyRootsMatchDoubleSlash()
    ensures FileFilter(FileFilterSource([]), []).Exec("a//b") == Some(3)
  {
    var f := FileFilter(FileFilterSource([]), []);
    var path := "a//b";
    assert RootAt(path, 1, f.Alternatives()[0], []);
    SplitBoundary(f, path, 1, 0, []);
  }

  /** The alternation accepts `spec` exactly when some configured folder's alternative does. */
  lemma {:induction false} AnyFolderMatchesExists(spec: string, folders: seq<string>, from: nat)
    requires from <= |folders|
    ensures AnyFolderMatches(spec, folders, from)
      <==> exists j :: from <= j < |folders| && FolderMatches(spec, folders[j])
    decreases |folders| - from
  {
    if from < |folders| {
      AnyFolderMatchesExists(spec, folders, from + 1);
    }
  }

  /** Every alternative starts with the literal `@/`, so only an aliased specifier passes. */
  lemma {:induction false} AnyFolderMatchesAliased(spec: string, folders: seq<string>, from: nat)
    requires from <= |folders|
    ensures AnyFolderMatches(spec, folders, from) ==> StartsWith(spec, "@/")
    decreases |folders| - from
  {
    if from < |folders| {
      AnyFolderMatchesAliased(spec, folders, from + 1);
      if FolderMatches(spec, folders[from]) {
        assert spec[..2] == "@/";
      }
    }
  }

  /** `importFilter.test(spec)` implies that `spec` starts with `@/`. */
  lemma ImportFilterAliased(f: ImportFilter, spec: string)
    ensures f.Test(spec) ==> StartsWith(spec, "@/")
  {
    AnyFolderMatchesAliased(spec, f.Alternatives(), 0);
  }

  lemma ImportFilterAccepts(f: ImportFilter, spec: string)
    ensures f.Test(spec) <==> exists folder :: folder in f.Alternatives() && FolderMatches(spec, folder)
  {
    var alts := f.Alternatives();
    AnyFolderMatchesExists(spec, alts, 0);
    if f.Test(spec) {
      var j :| 0 <= j < |alts| && FolderMatches(spec, alts[j]);
      assert alts[j] in alts;
    }
  }

  /**
    With no folders the regex is `^@/()\b`: it accepts `@/` followed by a
    word character, and nothing else.
   */
  lemma EmptyFoldersAccept()
    ensures ImportFilter(ImportFilterSource([]), []).Test("@/x")
    ensures !ImportFilter(ImportFilterSource([]), []).Test("@/")
    ensures !ImportFilter(ImportFilterSource([]), []).Test("@/-x")
  {
    assert FolderMatches("@/x", "");
  }

  lemma {:induction false} FolderTextFromAll(spec: string, folder: string, k: nat)
    requires k <= |folder| && |folder| + 2 <= |spec|
    ensures FolderTextFrom(spec, folder, k) <==> forall j :: k <= j < |folder| ==> spec[2 + j] == folder[j]
    decreases |folder| - k
  {
    if k < |folder| {
      FolderTextFromAll(spec, folder, k + 1);
    }
  }

  /** The alternative for `folder` is the literal `@/` followed by `folder`, then `\b`. */
  lemma FolderMatchesIsPrefix(spec: string, folder: string)
    ensures FolderMatches(spec, folder) <==>
      StartsWith(spec, "@/" + folder) && WordBoundary(spec, |folder| + 2)
  {
    var p := "@/" + folder;
    if |folder| + 2 <= |spec| {
      FolderTextFromAll(spec, folder, 0);
      if StartsWith(spec, p) {
        assert spec[0] == p[0] && spec[1] == p[1];
        forall j | 0 <= j < |folder| ensures spec[2 + j] == folder[j] {
          assert spec[2 + j] == spec[..|p|][2 + j] == p[2 + j];
        }
      }
      if spec[0] == '@' && spec[1] == '/' && FolderTextFrom(spec, folder, 0) {
        assert spec[..|p|] == p;
      }
    }
  }

  /**
    For a folder name ending in a word character, `\b` means the specifier
    ends right after the folder or continues with a non-word character:
    `@/api/x` and `@/api-utils` pass for `api`, `@/apix` does not.
   */
  lemma FolderMatchesWordEnd(spec: string, folder: string)
    requires |folder| > 0 && IsWordChar(folder[|folder| - 1])
    ensures FolderMatches(spec, folder) <==>
      StartsWith(spec, "@/" + folder)
      && (|spec| == |folder| + 2 || !IsWordChar(spec[|folder| + 2]))
  {
    FolderMatchesIsPrefix(spec, folder);
    if StartsWith(spec, "@/" + folder) {
      assert spec[|folder| + 1] == ("@/" + folder)[|folder| + 1] == folder[|folder| - 1];
    }
  }
}
