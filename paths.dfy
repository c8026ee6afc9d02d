/** Slash-separated path handling used by the dedup walk callback:
    the relative path of a walked file (strings.TrimPrefix) and the
    destination path built from it (filepath.Dir, filepath.Base,
    filepath.Join). Dir, Base and Join follow Go's results on clean paths,
    which is what the walker and filepath.Abs hand to the callback. */
module Paths {

  const Separator: char := '/'

  /** Index of the last separator among the first n characters of p, or -1. */
  function LastSlashBefore(p: string, n: nat): (i: int)
    requires n <= |p|
    ensures -1 <= i < n
    ensures i >= 0 ==> p[i] == Separator
    ensures forall j :: i < j < n ==> p[j] != Separator
  {
    if n == 0 then -1
    else if p[n - 1] == Separator then n - 1
    else LastSlashBefore(p, n - 1)
  }

  /** Index of the last separator of p, or -1 when p has none. */
  function LastSlash(p: string): (i: int)
    ensures -1 <= i < |p|
    ensures i >= 0 ==> p[i] == Separator
    ensures forall j :: i < j < |p| ==> p[j] != Separator
  {
    LastSlashBefore(p, |p|)
  }

  /** strings.TrimPrefix: s without a leading prefix; s itself when it does
      not start with prefix. */
  function TrimPrefix(s: string, prefix: string): (r: string)
    ensures prefix <= s ==> prefix + r == s
    ensures !(prefix <= s) ==> r == s
  {
    if prefix <= s then s[|prefix|..] else s
  }

  /** strings.HasSuffix */
  predicate HasSuffix(s: string, suffix: string)
  {
    |suffix| <= |s| && s[|s| - |suffix|..] == suffix
  }

  /** The walk callback's relative path: the source path with
      inDir + separator removed from its front. */
  function RelPath(sourcePath: string, inDir: string): string
  {
    TrimPrefix(sourcePath, inDir + [Separator])
  }

  /** One path element: non-empty, no separator, neither "." nor "..". */
  predicate IsName(s: string)
  {
    |s| > 0 && Separator !in s && s != "." && s != ".."
  }

  /** A clean relative path: names joined by single separators. */
  predicate IsCleanRel(p: string)
    decreases |p|
  {
    var i := LastSlash(p);
    if i < 0 then IsName(p) else IsName(p[i + 1..]) && IsCleanRel(p[..i])
  }

  /** filepath.Dir on a clean path: everything before the last separator. */
  function Dir(p: string): string
  {
    var i := LastSlash(p);
    if i < 0 then "." else if i == 0 then "/" else p[..i]
  }

  /** filepath.Base on a clean path: the last element. */
  function Base(p: string): string
  {
    if p == "" then "." else if p == "/" then "/" else p[LastSlash(p) + 1..]
  }

  /** filepath.Join of two elements, on clean operands. */
  function Join(a: string, b: string): string
  {
    if b == "" || b == "." || b == "/" then a
    else if a == "" then b
    else
      var tail := if b[0] == Separator then b[1..] else b;
      if a == "/" then "/" + tail else a + "/" + tail
  }

  /** Where the callback writes a copied file: Join(Join(outDir, Dir(rel)), Base(rel)). */
  function DestPath(outDir: string, rel: string): string
  {
    Join(Join(outDir, Dir(rel)), Base(rel))
  }

  /** A clean relative path neither starts nor ends with a separator and is
      never "." */
  lemma {:induction false} CleanRelShape(p: string)
    requires IsCleanRel(p)
    ensures |p| > 0 && p[0] != Separator && p[|p| - 1] != Separator && p != "."
    decreases |p|
  {
    var i := LastSlash(p);
    if i >= 0 {
      CleanRelShape(p[..i]);
      assert p[0] == p[..i][0];
    }
  }

  /** Dir and Base split a clean relative path at its last separator. */
  lemma DirBaseSplit(p: string)
    requires IsCleanRel(p)
    ensures IsName(Base(p))
    ensures Dir(p) == "." ==> Base(p) == p
    ensures Dir(p) != "." ==> IsCleanRel(Dir(p)) && Dir(p) + "/" + Base(p) == p
  {
    var i := LastSlash(p);
    CleanRelShape(p);
    if i >= 0 {
      CleanRelShape(p[..i]);
      assert p[..i] + "/" + p[i + 1..] == p;
    }
  }

  /** Two names joined by a separator form a clean relative path. */
  lemma NamePairClean(d: string, b: string)
    requires IsName(d) && IsName(b)
    ensures IsCleanRel(d + "/" + b)
  {
    var p := d + "/" + b;
    assert p[|d|] == Separator;
    assert forall j :: |d| < j < |p| ==> p[j] == b[j - |d| - 1];
    var i := LastSlash(p);
    assert i == |d|;
    assert p[i + 1..] == b && p[..i] == d;
    assert LastSlash(d) == -1;
  }

  /** A path that is non-empty, does not start with a separator and is not
      "." is appended by Join after exactly one separator. */
  lemma JoinRel(a: string, b: string)
    requires a != "" && |b| > 0 && b[0] != Separator && b != "."
    ensures Join(a, b) == (if a == "/" then "/" + b else a + "/" + b)
  {
  }

  /** Joining two relative elements in turn onto a directory. */
  lemma JoinTwice(a: string, d: string, b: string)
    requires a != ""
    requires |d| > 0 && d[0] != Separator && d != "."
    requires |b| > 0 && b[0] != Separator && b != "."
    ensures Join(Join(a, d), b) == (if a == "/" then "/" + (d + "/" + b) else a + "/" + (d + "/" + b))
  {
    JoinRel(a, d);
    var ad := Join(a, d);
    JoinRel(ad, b);
    if a == "/" {
      assert "/" + d + "/" + b == "/" + (d + "/" + b);
    } else {
      assert a + "/" + d + "/" + b == a + "/" + (d + "/" + b);
    }
  }

  /** The destination of a clean relative path is outDir/rel. */
  lemma DestPathUnder(outDir: string, rel: string)
    requires outDir != "" && IsCleanRel(rel)
    ensures DestPath(outDir, rel) == (if outDir == "/" then "/" + rel else outDir + "/" + rel)
  {
    DirBaseSplit(rel);
    var d, b := Dir(rel), Base(rel);
    assert IsCleanRel(b) by { assert LastSlash(b) == -1; }
    CleanRelShape(b);
    if d == "." {
      assert Join(outDir, d) == outDir;
      JoinRel(outDir, b);
    } else {
      CleanRelShape(d);
      JoinTwice(outDir, d, b);
    }
  }

  /** Distinct clean relative paths get distinct destinations. */
  lemma DestPathInjective(outDir: string, r1: string, r2: string)
    requires outDir != "" && IsCleanRel(r1) && IsCleanRel(r2)
    requires r1 != r2
    ensures DestPath(outDir, r1) != DestPath(outDir, r2)
  {
    DestPathUnder(outDir, r1);
    DestPathUnder(outDir, r2);
    var pre := if outDir == "/" then "/" else outDir + "/";
    assert r1 == (pre + r1)[|pre|..] && r2 == (pre + r2)[|pre|..];
  }

  /** A file below inDir keeps exactly the part after inDir/ as its
      relative path; the walk root itself, lacking that prefix, keeps its
      full path. */
  lemma RelPathUnderRoot(inDir: string, rel: string)
    ensures RelPath(inDir + "/" + rel, inDir) == rel
    ensures RelPath(inDir, inDir) == inDir
  {
    assert inDir + [Separator] <= inDir + "/" + rel;
    assert !(inDir + [Separator] <= inDir);
  }

  /** Distinct source paths that both carry the inDir/ prefix have distinct
      relative paths. */
  lemma RelPathInjective(inDir: string, p1: string, p2: string)
    requires inDir + [Separator] <= p1 && inDir + [Separator] <= p2
    requires p1 != p2
    ensures RelPath(p1, inDir) != RelPath(p2, inDir)
  {
  }
}
