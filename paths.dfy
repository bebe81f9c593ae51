/**
 The sources-contained address of lib/loader.py (class Path).

 A canonical absolute path is its sequence of segments: "/a/b.py" is
 ["a", "b.py"] and the root "/" is []. `os.path.realpath` is modelled by
 its lexical part (split on '/', drop empty and "." pieces, ".." goes up
 one level and stays at the root); `os.path.relpath` by the algorithm of
 posixpath: common prefix, one ".." per remaining level of the start,
 then the rest of the path, and "." when nothing is left.
 */
module Paths {
  import opened Outcomes

  type Segments = seq<string>

  /** A segment of a canonical path: non-empty, not "." or "..", no '/'. */
  predicate IsSegment(s: string) {
    s != "" && s != "." && s != ".." && '/' !in s
  }

  predicate Canonical(p: Segments) {
    forall i :: 0 <= i < |p| ==> IsSegment(p[i])
  }

  predicate NoSlash(parts: seq<string>) {
    forall i :: 0 <= i < |parts| ==> '/' !in parts[i]
  }

  // ---------------------------------------------------------------------
  // String helpers: str.split('/'), sep.join, str.rfind, startswith('..')

  /** `s.split('/')`: the pieces between the slashes, empty ones included. */
  function Split(s: string): (parts: seq<string>)
    ensures |parts| >= 1
    ensures NoSlash(parts)
  {
    if s == [] then [""]
    else
      var rest := Split(s[1..]);
      if s[0] == '/' then [""] + rest
      else [[s[0]] + rest[0]] + rest[1..]
  }

  /** `sep.join(parts)`. */
  function Join(parts: seq<string>, sep: char): string
  {
    if parts == [] then ""
    else if |parts| == 1 then parts[0]
    else parts[0] + [sep] + Join(parts[1..], sep)
  }

  /** Index of the last occurrence of `c` in `s` (`str.rfind`, None for -1). */
  function LastIndexOf(s: string, c: char): (r: Option<nat>)
    ensures r.None? ==> forall k :: 0 <= k < |s| ==> s[k] != c
    ensures r.Some? ==> r.value < |s| && s[r.value] == c
    ensures r.Some? ==> forall k :: r.value < k < |s| ==> s[k] != c
  {
    if s == [] then None
    else if s[|s| - 1] == c then Some(|s| - 1)
    else
      var r := LastIndexOf(s[..|s| - 1], c);
      assert s == s[..|s| - 1] + [s[|s| - 1]];
      r
  }

  predicate StartsWithDotDot(s: string) {
    |s| >= 2 && s[0] == '.' && s[1] == '.'
  }

  /** `s.rstrip('/')`. */
  function RStripSlash(s: string): (r: string)
    ensures |r| <= |s| && r == s[..|r|]
    ensures r == [] || r[|r| - 1] != '/'
    ensures forall i :: |r| <= i < |s| ==> s[i] == '/'
  {
    if s != [] && s[|s| - 1] == '/' then RStripSlash(s[..|s| - 1]) else s
  }

  /** `os.path.split(s)[0]`: everything before the last '/', trailing slashes
      removed unless the head consists of slashes only. */
  function SplitHead(s: string): string
  {
    var i := match LastIndexOf(s, '/') case None => 0 case Some(j) => j + 1;
    var head := s[..i];
    if head != [] && !AllSlashes(head) then RStripSlash(head) else head
  }

  predicate AllSlashes(s: string) {
    forall k :: 0 <= k < |s| ==> s[k] == '/'
  }

  /** Replace every '/' by '.' (`'.'.join(s.split('/'))`). */
  function SlashesToDots(s: string): (r: string)
    ensures |r| == |s|
    ensures forall i :: 0 <= i < |s| ==> r[i] == (if s[i] == '/' then '.' else s[i])
  {
    if s == [] then [] else [if s[0] == '/' then '.' else s[0]] + SlashesToDots(s[1..])
  }

  // ---------------------------------------------------------------------
  // realpath and relpath

  /** Lexical normalisation of `parts` against the canonical directory `base`. */
  function Normalize(parts: seq<string>, base: Segments): (p: Segments)
    requires Canonical(base) && NoSlash(parts)
    ensures Canonical(p)
  {
    if parts == [] then base
    else
      var head := parts[0];
      var next :=
        if head == "" || head == "." then base
        else if head == ".." then (if base == [] then [] else base[..|base| - 1])
        else base + [head];
      Normalize(parts[1..], next)
  }

  /** `os.path.realpath(raw)`, lexically, with `cwd` for a relative `raw`. */
  function RealPath(raw: string, cwd: Segments): (p: Segments)
    requires Canonical(cwd)
    ensures Canonical(p)
  {
    Normalize(Split(raw), if raw != [] && raw[0] == '/' then [] else cwd)
  }

  function CommonPrefixLength(a: Segments, b: Segments): (n: nat)
    ensures n <= |a| && n <= |b|
    ensures a[..n] == b[..n]
    ensures n < |a| && n < |b| ==> a[n] != b[n]
  {
    if a == [] || b == [] || a[0] != b[0] then 0
    else 1 + CommonPrefixLength(a[1..], b[1..])
  }

  function Repeat(s: string, n: nat): (r: seq<string>)
    ensures |r| == n && forall i :: 0 <= i < n ==> r[i] == s
  {
    if n == 0 then [] else [s] + Repeat(s, n - 1)
  }

  /** The segments of `os.path.relpath(full, start)`. */
  function RelSegments(full: Segments, start: Segments): seq<string>
  {
    var i := CommonPrefixLength(start, full);
    Repeat("..", |start| - i) + full[i..]
  }

  /** `os.path.relpath(full, start)`. */
  function RelPathString(full: Segments, start: Segments): string
  {
    var rel := RelSegments(full, start);
    if rel == [] then "." else Join(rel, '/')
  }

  // ---------------------------------------------------------------------
  // The address

  /** The repository: its base directory and its sources directory. */
  datatype Repository = Repository(basepath: Segments, sources: Segments)

  predicate ValidRepository(repo: Repository) {
    Canonical(repo.basepath) && Canonical(repo.sources)
  }

  datatype Path = Path(
    repository: Repository,
    fullPath: Segments,        // full_path
    srcRelPath: string,        // src_rel_path
    fullDir: Segments,         // full_dir
    srcRelDir: string,         // src_rel_dir
    filename: string,
    basename: string,
    extension: Option<string>)

  /** `filename.rsplit('.', 1)`, or the whole name and no extension. */
  function SplitExtension(filename: string): (r: (string, Option<string>))
    ensures r.1.Some? <==> '.' in filename
    ensures r.1.Some? ==> r.0 + "." + r.1.value == filename && '.' !in r.1.value
    ensures r.1.None? ==> r.0 == filename
  {
    match LastIndexOf(filename, '.')
    case None => (filename, None)
    case Some(i) =>
      assert filename == filename[..i] + "." + filename[i + 1..];
      (filename[..i], Some(filename[i + 1..]))
  }

  /** `in_sources`: a plain prefix test on the relative path string. */
  predicate InSources(p: Path) {
    !StartsWithDotDot(p.srcRelPath)
  }

  /** `os.path.split(full_path)[1]`: the last segment, "" for the root. */
  function LastSegment(full: Segments): string {
    if full == [] then "" else full[|full| - 1]
  }

  /** The constructor `Path(path, repository)` once `full_path` is known. */
  function FromFullPath(full: Segments, repo: Repository): Result<Path>
  {
    var relPath := RelPathString(full, repo.sources);
    if StartsWithDotDot(relPath) then Err(NotInSources)
    else
      var filename := LastSegment(full);
      var fullDir := if full == [] then [] else full[..|full| - 1];
      var split := SplitExtension(filename);
      Ok(Path(repo, full, relPath, fullDir, SplitHead(relPath), filename, split.0, split.1))
  }

  /** The constructor `Path(path, repository)`. */
  function NewPath(raw: string, cwd: Segments, repo: Repository): Result<Path>
    requires Canonical(cwd)
  {
    FromFullPath(RealPath(raw, cwd), repo)
  }

  /** A path as the constructor builds it. */
  predicate Wf(p: Path) {
    ValidRepository(p.repository) && Canonical(p.fullPath)
    && FromFullPath(p.fullPath, p.repository) == Ok(p)
  }

  /** `dot_path`. */
  function DotPath(p: Path): string {
    SlashesToDots(p.srcRelDir) + "." + p.basename
  }

  /** `rel_path`: the assertion against a leading '/' is an AssertionFailure. */
  function RelPath(p: Path, path: string): Result<Path>
    requires Wf(p)
  {
    if |path| >= 1 && path[0] == '/' then Err(AssertionFailure)
    else FromFullPath(Normalize(Split(path), p.fullDir), p.repository)
  }

  /** `replace_extension`. */
  function ReplaceExtension(p: Path, newExt: string): Result<Path>
    requires Wf(p)
  {
    FromFullPath(Normalize(Split(p.basename + "." + newExt), p.fullDir), p.repository)
  }

  /** `exists`: the file system is the set of existing canonical paths. */
  predicate Exists(p: Path, fs: set<Segments>) {
    p.fullPath in fs
  }

  /** `__eq__`: every address is of the one class, so only `full_path` counts. */
  predicate Eq(p: Path, q: Path) {
    p.fullPath == q.fullPath
  }

  // ---------------------------------------------------------------------
  // Properties

  /** `full` lies in the tree under `root`, and its first segment below the
      root does not begin with "..". */
  predicate Within(full: Segments, root: Segments) {
    |root| <= |full| && full[..|root|] == root
    && (|full| == |root| || !StartsWithDotDot(full[|root|]))
  }

  lemma {:induction false} JoinSplit(s: string)
    ensures Join(Split(s), '/') == s
  {
    if s != [] {
      var rest := Split(s[1..]);
      JoinSplit(s[1..]);
      if s[0] == '/' {
        assert ([""] + rest)[1..] == rest;
      } else {
        var parts := [[s[0]] + rest[0]] + rest[1..];
        assert parts[1..] == rest[1..];
        if |rest| > 1 {
          assert Join(rest, '/') == rest[0] + "/" + Join(rest[1..], '/');
        }
      }
      assert s == [s[0]] + s[1..];
    }
  }

  lemma {:induction false} SplitNoSlash(a: string)
    requires '/' !in a
    ensures Split(a) == [a]
  {
    if a != [] {
      SplitNoSlash(a[1..]);
      assert a == [a[0]] + a[1..];
    }
  }

  lemma {:induction false} SplitAtSlash(a: string, b: string)
    requires '/' !in a
    ensures Split(a + "/" + b) == [a] + Split(b)
  {
    var s := a + "/" + b;
    if a == [] {
      assert s[1..] == b;
    } else {
      assert s[1..] == a[1..] + "/" + b;
      SplitAtSlash(a[1..], b);
      assert a == [a[0]] + a[1..];
    }
  }

  lemma {:induction false} SplitJoin(parts: seq<string>)
    requires |parts| >= 1 && NoSlash(parts)
    ensures Split(Join(parts, '/')) == parts
  {
    if |parts| == 1 {
      SplitNoSlash(parts[0]);
    } else {
      SplitJoin(parts[1..]);
      SplitAtSlash(parts[0], Join(parts[1..], '/'));
      assert parts == [parts[0]] + parts[1..];
    }
  }

  lemma {:induction false} NormalizeCanonical(segs: Segments, base: Segments)
    requires Canonical(base) && Canonical(segs)
    ensures Normalize(segs, base) == base + segs
  {
    if segs != [] {
      NormalizeCanonical(segs[1..], base + [segs[0]]);
      assert base + [segs[0]] + segs[1..] == base + segs;
    }
  }

  /** realpath leaves the rendering "/a/b/..." of a canonical path unchanged. */
  lemma RealPathOfCanonical(p: Segments, cwd: Segments)
    requires Canonical(p) && Canonical(cwd)
    ensures RealPath("/" + Join(p, '/'), cwd) == p
  {
    var raw := "/" + Join(p, '/');
    SplitAtSlash("", Join(p, '/'));
    assert raw == "" + "/" + Join(p, '/');
    if p == [] {
      assert Split(raw) == ["", ""];
      assert Normalize(["", ""], []) == Normalize([""], []) == [];
    } else {
      SplitJoin(p);
      NormalizeCanonical(p, []);
      assert Split(raw) == [""] + p;
      assert Split(raw)[1..] == p;
    }
  }

  lemma JoinStartsWithDotDot(parts: seq<string>)
    requires |parts| >= 1 && parts[0] != "" && parts[0] != "."
    ensures StartsWithDotDot(Join(parts, '/')) <==> StartsWithDotDot(parts[0])
  {
    var j := Join(parts, '/');
    assert j[..|parts[0]|] == parts[0];
    if |parts[0]| == 1 {
      assert parts[0] == [parts[0][0]];
    }
  }

  /** The constructor succeeds exactly for paths in the tree under the sources
      directory whose first segment below it does not begin with "..";
      in particular every path outside that tree is refused. */
  lemma InSourcesIff(full: Segments, repo: Repository)
    requires Canonical(full)
    ensures FromFullPath(full, repo).Ok? <==> Within(full, repo.sources)
    ensures FromFullPath(full, repo).Ok? ==> InSources(FromFullPath(full, repo).value)
  {
    var srcs := repo.sources;
    var i := CommonPrefixLength(srcs, full);
    var rel := RelSegments(full, srcs);
    if |srcs| <= |full| && full[..|srcs|] == srcs {
      assert forall k :: 0 <= k < |srcs| ==> srcs[k] == full[k];
      assert rel == full[|srcs|..];
      if rel != [] {
        JoinStartsWithDotDot(rel);
        assert rel[0] == full[|srcs|];
      }
    } else {
      assert i < |srcs|;
      assert rel[0] == "..";
      JoinStartsWithDotDot(rel);
    }
  }

  lemma {:induction false} JoinSnoc(xs: seq<string>, x: string, sep: char)
    requires |xs| >= 1
    ensures Join(xs + [x], sep) == Join(xs, sep) + [sep] + x
  {
    if |xs| > 1 {
      JoinSnoc(xs[1..], x, sep);
      assert (xs + [x])[1..] == xs[1..] + [x];
    } else {
      assert (xs + [x])[1..] == [x];
    }
  }

  lemma {:induction false} SlashesToDotsJoin(xs: seq<string>)
    requires NoSlash(xs)
    ensures SlashesToDots(Join(xs, '/')) == Join(xs, '.')
  {
    if |xs| == 1 {
      assert SlashesToDots(xs[0]) == xs[0];
    } else if |xs| > 1 {
      SlashesToDotsJoin(xs[1..]);
      var a, b := xs[0], Join(xs[1..], '/');
      assert SlashesToDots(a + "/" + b) == a + "." + SlashesToDots(b);
    }
  }

  /** The last `c` of `j + [c] + last` is the one added, when `last` has none. */
  lemma LastIndexAfter(j: string, c: char, last: string)
    requires c !in last
    ensures LastIndexOf(j + [c] + last, c) == Some(|j|)
  {
    var s := j + [c] + last;
    assert s[|j|] == c;
    assert forall k :: |j| < k < |s| ==> s[k] == last[k - |j| - 1];
  }

  /** A join of non-empty '/'-free parts neither starts nor ends with '/'. */
  lemma {:induction false} JoinEnds(xs: seq<string>)
    requires |xs| >= 1 && NoSlash(xs)
    requires forall i :: 0 <= i < |xs| ==> xs[i] != ""
    ensures Join(xs, '/') != ""
    ensures Join(xs, '/')[0] != '/'
    ensures Join(xs, '/')[|Join(xs, '/')| - 1] != '/'
  {
    if |xs| > 1 {
      JoinEnds(xs[1..]);
      assert Join(xs, '/') == xs[0] + "/" + Join(xs[1..], '/');
    }
  }

  lemma SplitHeadSnoc(j: string, last: string)
    requires '/' !in last && j != [] && j[0] != '/' && j[|j| - 1] != '/'
    ensures SplitHead(j + "/" + last) == j
  {
    LastIndexAfter(j, '/', last);
    var head := (j + "/" + last)[..|j| + 1];
    assert head == j + "/";
    assert head[0] != '/';
    assert head[..|head| - 1] == j;
    assert RStripSlash(head) == RStripSlash(j) == j;
  }

  lemma SplitHeadNoSlash(x: string)
    requires '/' !in x
    ensures SplitHead(x) == ""
  {
    assert forall k :: 0 <= k < |x| ==> x[k] != '/';
  }

  /** The head `os.path.split` gives for a '/'-joined sequence of '/'-free,
      non-empty segments: all but the last segment. */
  lemma SplitHeadJoin(rel: seq<string>)
    requires |rel| >= 2 && NoSlash(rel)
    requires forall i :: 0 <= i < |rel| ==> rel[i] != ""
    ensures SplitHead(Join(rel, '/')) == Join(rel[..|rel| - 1], '/')
  {
    var init, last := rel[..|rel| - 1], rel[|rel| - 1];
    assert init + [last] == rel;
    assert NoSlash(init) && forall i :: 0 <= i < |init| ==> init[i] != "" by {
      assert forall i :: 0 <= i < |init| ==> init[i] == rel[i];
    }
    JoinSnoc(init, last, '/');
    JoinEnds(init);
    var j := Join(init, '/');
    assert Join(rel, '/') == j + "/" + last;
    SplitHeadSnoc(j, last);
  }

  /** Every segment of a relative path is ".." or a canonical segment. */
  lemma RelSegmentsShape(full: Segments, start: Segments)
    requires Canonical(full)
    ensures var rel := RelSegments(full, start);
      forall k :: 0 <= k < |rel| ==> rel[k] == ".." || IsSegment(rel[k])
  {
    var i := CommonPrefixLength(start, full);
    var rel := RelSegments(full, start);
    forall k | 0 <= k < |rel| ensures rel[k] == ".." || IsSegment(rel[k]) {
      if k >= |start| - i {
        assert rel[k] == full[i + k - (|start| - i)];
      }
    }
  }

  /** `dot_path` computed on a relative path string made of the segments `rel`. */
  lemma DotPathOfRel(rel: seq<string>)
    requires forall k :: 0 <= k < |rel| ==> rel[k] == ".." || IsSegment(rel[k])
    ensures var relPath := if rel == [] then "." else Join(rel, '/');
      SlashesToDots(SplitHead(relPath)) == if |rel| <= 1 then "" else Join(rel[..|rel| - 1], '.')
  {
    if rel == [] {
      SplitHeadNoSlash(".");
    } else if |rel| == 1 {
      SplitHeadNoSlash(rel[0]);
    } else {
      SplitHeadJoin(rel);
      SlashesToDotsJoin(rel[..|rel| - 1]);
    }
  }

  /** `dot_path` joins the segments of the source-relative directory with '.'
      and appends '.' and the basename; for a file directly under the
      sources directory the directory part is empty, so the result starts
      with '.'. */
  lemma DotPathSegments(p: Path)
    requires Wf(p)
    ensures var rel := RelSegments(p.fullPath, p.repository.sources);
      DotPath(p) == (if |rel| <= 1 then "" else Join(rel[..|rel| - 1], '.')) + "." + p.basename
  {
    var rel := RelSegments(p.fullPath, p.repository.sources);
    assert p.srcRelDir == SplitHead(RelPathString(p.fullPath, p.repository.sources));
    RelSegmentsShape(p.fullPath, p.repository.sources);
    DotPathOfRel(rel);
  }

  /** The fields the constructor derives: the directory and the file name
      make up the full path, the address is in sources, and the file name
      is split at its last '.'. */
  lemma ConstructedFields(p: Path)
    requires Wf(p)
    ensures Canonical(p.fullDir) && InSources(p)
    ensures p.filename == LastSegment(p.fullPath)
    ensures p.fullPath != [] ==> p.fullPath == p.fullDir + [p.filename]
    ensures p.extension.Some? ==> p.basename + "." + p.extension.value == p.filename && '.' !in p.extension.value
    ensures p.extension.None? ==> p.basename == p.filename && '.' !in p.filename
  {
    Fields(p);
    var full := p.fullPath;
    if full != [] {
      assert full == full[..|full| - 1] + [full[|full| - 1]];
    }
  }

  /** The fields of a constructed address, one unfolding of the constructor. */
  lemma Fields(p: Path)
    requires Wf(p)
    ensures p.srcRelPath == RelPathString(p.fullPath, p.repository.sources)
    ensures !StartsWithDotDot(p.srcRelPath)
    ensures p.fullDir == if p.fullPath == [] then [] else p.fullPath[..|p.fullPath| - 1]
    ensures p.filename == LastSegment(p.fullPath)
    ensures (p.basename, p.extension) == SplitExtension(p.filename)
  {
    var r := FromFullPath(p.fullPath, p.repository);
    assert r == Ok(p);
  }

  /** The constructor `Path(path, repository)` succeeds exactly when the
      resolved path lies within the sources directory, and then builds the
      address of that resolved path. */
  lemma NewPathIff(raw: string, cwd: Segments, repo: Repository)
    requires Canonical(cwd) && ValidRepository(repo)
    ensures NewPath(raw, cwd, repo).Ok? <==> Within(RealPath(raw, cwd), repo.sources)
    ensures NewPath(raw, cwd, repo).Err? ==> NewPath(raw, cwd, repo).error == NotInSources
    ensures NewPath(raw, cwd, repo).Ok? ==>
      var q := NewPath(raw, cwd, repo).value;
      Wf(q) && q.fullPath == RealPath(raw, cwd) && q.repository == repo && InSources(q)
  {
    InSourcesIff(RealPath(raw, cwd), repo);
  }

  /** `rel_path` refuses an absolute name; otherwise it builds the address
      the name denotes from the directory of `p`, when that lies within the
      sources directory. */
  lemma RelPathIff(p: Path, path: string)
    requires Wf(p)
    ensures |path| >= 1 && path[0] == '/' ==> RelPath(p, path) == Err(AssertionFailure)
    ensures !(|path| >= 1 && path[0] == '/') ==>
      (RelPath(p, path).Ok? <==> Within(Normalize(Split(path), p.fullDir), p.repository.sources))
    ensures !(|path| >= 1 && path[0] == '/') && RelPath(p, path).Err? ==> RelPath(p, path).error == NotInSources
    ensures RelPath(p, path).Ok? ==>
      var q := RelPath(p, path).value;
      Wf(q) && q.repository == p.repository && q.fullPath == Normalize(Split(path), p.fullDir)
  {
    if !(|path| >= 1 && path[0] == '/') {
      ConstructedFields(p);
      var t := Normalize(Split(path), p.fullDir);
      assert RelPath(p, path) == FromFullPath(t, p.repository);
      InSourcesIff(t, p.repository);
      if FromFullPath(t, p.repository).Ok? {
        FromFullPathOk(t, p.repository);
      }
    }
  }

  /** A plain file name names a sibling of `p` in the same directory. */
  lemma RelPathSibling(p: Path, name: string)
    requires Wf(p) && IsSegment(name)
    ensures RelPath(p, name) == FromFullPath(p.fullDir + [name], p.repository)
    ensures RelPath(p, name).Ok? ==>
      RelPath(p, name).value.fullDir == p.fullDir && RelPath(p, name).value.filename == name
  {
    ConstructedFields(p);
    SplitNoSlash(name);
    NormalizeCanonical([name], p.fullDir);
    var full := p.fullDir + [name];
    if FromFullPath(full, p.repository).Ok? {
      FromFullPathOk(full, p.repository);
    }
  }

  /** `rsplit('.', 1)` of `b + "." + e` gives back `b` and `e` when `e` has no '.'. */
  lemma SplitExtensionJoin(b: string, e: string)
    requires '.' !in e
    ensures SplitExtension(b + "." + e) == (b, Some(e))
  {
    var f := b + "." + e;
    LastIndexAfter(b, '.', e);
    assert f[..|b|] == b && f[|b| + 1..] == e;
  }

  /** What the constructor builds from a canonical path it accepts. */
  lemma FromFullPathOk(full: Segments, repo: Repository)
    requires Canonical(full) && ValidRepository(repo) && FromFullPath(full, repo).Ok?
    ensures var q := FromFullPath(full, repo).value;
      && Wf(q) && q.repository == repo && q.fullPath == full
      && q.fullDir == (if full == [] then [] else full[..|full| - 1])
      && (q.basename, q.extension) == SplitExtension(LastSegment(full))
  {
  }

  /** The base name of a constructed address has no '/'. */
  lemma BasenameNoSlash(p: Path)
    requires Wf(p)
    ensures '/' !in p.basename
  {
    ConstructedFields(p);
    if p.fullPath != [] {
      assert IsSegment(p.fullPath[|p.fullPath| - 1]);
    }
    if p.extension.Some? {
      assert p.filename[..|p.basename|] == p.basename;
    }
  }

  /** `replace_extension` resolves `basename.newExt` in the directory of `p`. */
  lemma ReplaceExtensionTarget(p: Path, newExt: string)
    requires Wf(p)
    requires newExt != "" && '/' !in newExt && '.' !in newExt
    ensures var name := p.basename + "." + newExt;
      IsSegment(name) && Canonical(p.fullDir + [name])
      && ReplaceExtension(p, newExt) == FromFullPath(p.fullDir + [name], p.repository)
  {
    var name := p.basename + "." + newExt;
    ConstructedFields(p);
    BasenameNoSlash(p);
    assert name[|name| - 1] == newExt[|newExt| - 1];
    assert IsSegment(name);
    SplitNoSlash(name);
    NormalizeCanonical([name], p.fullDir);
  }

  /** `replace_extension` with a plain extension names the sibling file with
      the same base name and the new extension; it fails only when that
      sibling is outside the sources directory, which cannot happen for a
      file in a subdirectory of the sources directory. */
  lemma ReplaceExtensionSibling(p: Path, newExt: string)
    requires Wf(p)
    requires newExt != "" && '/' !in newExt && '.' !in newExt
    ensures var name := p.basename + "." + newExt;
      ReplaceExtension(p, newExt).Ok? <==> Within(p.fullDir + [name], p.repository.sources)
    ensures ReplaceExtension(p, newExt).Err? ==> ReplaceExtension(p, newExt).error == NotInSources
    ensures |p.fullPath| >= |p.repository.sources| + 2 ==> ReplaceExtension(p, newExt).Ok?
    ensures ReplaceExtension(p, newExt).Ok? ==>
      var q := ReplaceExtension(p, newExt).value;
      && Wf(q) && q.repository == p.repository
      && q.fullPath == p.fullDir + [p.basename + "." + newExt]
      && q.fullDir == p.fullDir && q.basename == p.basename && q.extension == Some(newExt)
  {
    var name := p.basename + "." + newExt;
    var full := p.fullDir + [name];
    var srcs := p.repository.sources;
    ReplaceExtensionTarget(p, newExt);
    InSourcesIff(full, p.repository);
    if FromFullPath(full, p.repository).Ok? {
      FromFullPathOk(full, p.repository);
      SplitExtensionJoin(p.basename, newExt);
    }
    if |p.fullPath| >= |srcs| + 2 {
      ConstructedFields(p);
      InSourcesIff(p.fullPath, p.repository);
      assert full[..|srcs|] == p.fullPath[..|srcs|];
      assert full[|srcs|] == p.fullPath[|srcs|];
    }
  }

  /** Two addresses built by the constructor in one repository are `__eq__`
      exactly when they are the same address. */
  lemma EqIsIdentity(p: Path, q: Path)
    requires Wf(p) && Wf(q) && p.repository == q.repository
    ensures Eq(p, q) <==> p == q
  {
  }
}
