/** The part of the POSIX filesystem that pipeline.py touches: a map from paths to nodes, and the
    os/shutil operations it calls, each with the errors they raise. */
module FileSystem {
  import opened Wrappers

  type Name = string
  /** A path as its sequence of components; `os.path.join(a, b)` is `a + [b]`. */
  type Path = seq<Name>
  type Bytes = seq<bv8>

  datatype Node = File(content: Bytes) | Dir
  type FS = map<Path, Node>

  predicate IsFile(fs: FS, p: Path) {
    p in fs && fs[p].File?
  }

  predicate IsDir(fs: FS, p: Path) {
    p in fs && fs[p].Dir?
  }

  /** p is q or lies beneath it. */
  predicate Under(p: Path, q: Path) {
    |q| <= |p| && p[..|q|] == q
  }

  /** os.listdir(d) on a directory: the names of the entries directly beneath it. */
  function Children(fs: FS, d: Path): set<Name> {
    set p | p in fs && |p| == |d| + 1 && p[..|d|] == d :: p[|d|]
  }

  /** A listing of s, as os.listdir returns one: every name once, in some order. */
  predicate IsListing(names: seq<Name>, s: set<Name>) {
    && (forall i, j :: 0 <= i < j < |names| ==> names[i] != names[j])
    && (forall i :: 0 <= i < |names| ==> names[i] in s)
    && (forall n :: n in s ==> n in names)
  }

  /** fs' is fs with directories added at some prefixes of p, and nothing else changed. */
  predicate AddsDirsAlong(fs: FS, fs': FS, p: Path) {
    && (forall q :: q in fs ==> q in fs' && fs'[q] == fs[q])
    && (forall q :: q in fs' && q !in fs ==> fs'[q] == Dir && 0 < |q| <= |p| && q == p[..|q|])
  }

  function MakePrefixes(fs: FS, p: Path, n: nat): (r: Option<FS>)
    requires n <= |p|
    ensures r.None? <==> exists k :: 0 < k <= n && IsFile(fs, p[..k])
    ensures r.Some? ==> AddsDirsAlong(fs, r.value, p[..n])
    ensures r.Some? ==> forall k :: 0 < k <= n ==> IsDir(r.value, p[..k])
  {
    if n == 0 then Some(fs)
    else
      match MakePrefixes(fs, p, n - 1)
      case None => None
      case Some(fs1) =>
        PrefixStep(fs, fs1, p, n);
        if IsFile(fs1, p[..n]) then None
        else if IsDir(fs1, p[..n]) then Some(fs1)
        else Some(fs1[p[..n] := Dir])
  }

  /** The step of MakePrefixes at p[..n], once the shorter prefixes are directories: p[..n] is a
      file exactly when some prefix up to it was one, and otherwise making it a directory (unless
      it is one) extends the directories added along p. */
  lemma PrefixStep(fs: FS, fs1: FS, p: Path, n: nat)
    requires 0 < n <= |p|
    requires AddsDirsAlong(fs, fs1, p[..n - 1])
    requires forall k :: 0 < k <= n - 1 ==> IsDir(fs1, p[..k])
    requires !exists k :: 0 < k <= n - 1 && IsFile(fs, p[..k])
    ensures IsFile(fs1, p[..n]) <==> exists k :: 0 < k <= n && IsFile(fs, p[..k])
    ensures !IsFile(fs1, p[..n]) ==>
      var fs2 := if IsDir(fs1, p[..n]) then fs1 else fs1[p[..n] := Dir];
      AddsDirsAlong(fs, fs2, p[..n]) && forall k :: 0 < k <= n ==> IsDir(fs2, p[..k])
  {
    var d := p[..n];
    if IsFile(fs1, d) {
      assert d in fs && IsFile(fs, p[..n]);
    }
    if !IsFile(fs1, d) {
      var fs2 := if IsDir(fs1, d) then fs1 else fs1[d := Dir];
      forall q | q in fs2 && q !in fs ensures fs2[q] == Dir && 0 < |q| <= n && q == d[..|q|] {
        if q != d {
          assert p[..n - 1][..|q|] == d[..|q|];
        }
      }
      forall k | 0 < k <= n ensures IsDir(fs2, p[..k]) {
        if k < n {
          assert |p[..k]| != |d|;
        }
      }
    }
  }

  /** os.makedirs(p, exist_ok=True): creates every missing prefix of p as a directory; raises when
      some prefix is a file, or when p is empty. */
  function MakeDirs(fs: FS, p: Path): (r: Option<FS>)
    ensures r.None? <==> p == [] || exists k :: 0 < k <= |p| && IsFile(fs, p[..k])
    ensures r.Some? ==> AddsDirsAlong(fs, r.value, p)
    ensures r.Some? ==> forall k :: 0 < k <= |p| ==> IsDir(r.value, p[..k])
  {
    if p == [] then None
    else
      assert p[..|p|] == p;
      MakePrefixes(fs, p, |p|)
  }

  /** Creating directories that already exist changes nothing: a second makedirs of the same path
      succeeds and leaves the filesystem as the first one left it. */
  lemma MakeDirsIdempotent(fs: FS, p: Path)
    requires MakeDirs(fs, p).Some?
    ensures MakeDirs(MakeDirs(fs, p).value, p) == MakeDirs(fs, p)
  {
    var fs1 := MakeDirs(fs, p).value;
    PrefixesExisting(fs1, p, |p|);
    assert p[..|p|] == p;
  }

  lemma {:induction false} PrefixesExisting(fs: FS, p: Path, n: nat)
    requires n <= |p|
    requires forall k :: 0 < k <= |p| ==> IsDir(fs, p[..k])
    ensures MakePrefixes(fs, p, n) == Some(fs)
  {
    if n > 0 {
      PrefixesExisting(fs, p, n - 1);
    }
  }

  /** The directory holding p exists (a one-component path sits in the working directory). */
  predicate ParentIsDir(fs: FS, p: Path) {
    |p| == 1 || (|p| > 1 && IsDir(fs, p[..|p| - 1]))
  }

  /** open(p, "wb") followed by the writes: fails when p is a directory or its parent is not one. */
  function WriteFile(fs: FS, p: Path, data: Bytes): Option<FS> {
    if ParentIsDir(fs, p) && !IsDir(fs, p) then Some(fs[p := File(data)]) else None
  }

  /** open(p, "rb").read(): fails unless p is a file. */
  function ReadFile(fs: FS, p: Path): Option<Bytes> {
    if IsFile(fs, p) then Some(fs[p].content) else None
  }

  /** shutil.copy(src, dst): into dst/<basename(src)> when dst is a directory, else onto dst. */
  function Copy(fs: FS, src: Path, dst: Path): Option<FS>
    requires src != []
  {
    match ReadFile(fs, src)
    case None => None
    case Some(data) => WriteFile(fs, if IsDir(fs, dst) then dst + [src[|src| - 1]] else dst, data)
  }

  /** shutil.rmtree(p): p and everything beneath it disappear; raises unless p is a directory. */
  function RemoveTree(fs: FS, p: Path): (r: Option<FS>)
    ensures r.Some? <==> IsDir(fs, p)
    ensures r.Some? ==> forall q :: q in r.value <==> q in fs && !Under(q, p)
    ensures r.Some? ==> forall q :: q in r.value ==> r.value[q] == fs[q]
  {
    if IsDir(fs, p) then Some(map q | q in fs && !Under(q, p) :: fs[q]) else None
  }

  /** Directories added along a path no longer than d add no entries directly beneath d. */
  lemma ChildrenKeep(fs: FS, fs': FS, p: Path, d: Path)
    requires AddsDirsAlong(fs, fs', p) && |p| <= |d|
    ensures Children(fs', d) == Children(fs, d)
  {
    forall n | n in Children(fs', d) ensures n in Children(fs, d) {
      var q :| q in fs' && |q| == |d| + 1 && q[..|d|] == d && q[|d|] == n;
    }
  }
}
