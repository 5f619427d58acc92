/** OrganizeAndProcessFiles.run: every member of extracted goes into a folder under processed named
    after its base name; a .gz member is decompressed there under the base name, any other member
    is copied there under its own name. Afterwards extracted is removed when delete_archives is
    set. */
module Organize {
  import opened Wrappers
  import opened FileSystem
  import opened Tasks
  import opened Stages
  import PosixPath

  /** splitext(file_name)[0] and [1]. */
  function Base(name: Name): Name {
    PosixPath.SplitExt(name).0
  }

  function Ext(name: Name): Name {
    PosixPath.SplitExt(name).1
  }

  /** extracted/<name>: where a member is read from. */
  function Source(cfg: Config, name: Name): Path {
    Output(cfg, VerifyAndExtractTar) + [name]
  }

  /** processed/<base>: the member's folder. */
  function Folder(cfg: Config, name: Name): Path {
    Output(cfg, OrganizeAndProcessFiles) + [Base(name)]
  }

  /** Where the member ends up: processed/<base>/<base> for a .gz member, processed/<base>/<name>
      (shutil.copy into the folder keeps the name) for any other. */
  function Destination(cfg: Config, name: Name): Path {
    Folder(cfg, name) + [if Ext(name) == ".gz" then Base(name) else name]
  }

  /** What gzip produces from a member's bytes: the bytes that reach the output file before the
      stream ends or breaks, and whether it ended intact. */
  datatype Inflation = Inflation(output: Bytes, intact: bool)

  /** The bytes a finished item leaves at its destination. */
  function Payload(fs: FS, cfg: Config, name: Name, gunzip: Bytes -> Inflation): Bytes
    requires IsFile(fs, Source(cfg, name))
  {
    var data := fs[Source(cfg, name)].content;
    if Ext(name) == ".gz" then gunzip(data).output else data
  }

  /** One pass of the member loop: makedirs(folder), then decompress or copy. The decompressed
      file is opened for writing before gzip reads the stream, so a damaged member still leaves
      what was decompressed so far. */
  function OrganizeItem(fs: FS, cfg: Config, name: Name, gunzip: Bytes -> Inflation): RunResult {
    var src := Source(cfg, name);
    var folder := Folder(cfg, name);
    match MakeDirs(fs, folder)
    case None => RunResult(fs, Failed(CannotCreate(folder)))
    case Some(fs1) =>
      if Ext(name) == ".gz" then
        var dest := folder + [Base(name)];
        match ReadFile(fs1, src)
        case None => RunResult(fs1, Failed(CannotRead(src)))
        case Some(data) =>
          var out := gunzip(data);
          match WriteFile(fs1, dest, out.output)
          case None => RunResult(fs1, Failed(CannotWrite(dest)))
          case Some(fs2) => RunResult(fs2, if out.intact then Done else Failed(CorruptMember(src)))
      else
        match Copy(fs1, src, folder)
        case None => RunResult(fs1, Failed(CannotCopy(src)))
        case Some(fs2) => RunResult(fs2, Done)
  }

  /** The member loop over names in listing order; the first exception ends the run. */
  function OrganizeItems(fs: FS, cfg: Config, names: seq<Name>, gunzip: Bytes -> Inflation): RunResult
    decreases |names|
  {
    if names == [] then RunResult(fs, Done)
    else
      var r := OrganizeItem(fs, cfg, names[0], gunzip);
      if r.status.Failed? then r else OrganizeItems(r.fs, cfg, names[1..], gunzip)
  }

  /** The whole run(): makedirs(processed), list extracted, the member loop, then rmtree(extracted)
      when delete_archives is set and the loop finished. */
  function Organized(fs: FS, cfg: Config, listing: set<Name> -> seq<Name>,
                     gunzip: Bytes -> Inflation): RunResult
  {
    var processed := Output(cfg, OrganizeAndProcessFiles);
    var extracted := Output(cfg, VerifyAndExtractTar);
    match MakeDirs(fs, processed)
    case None => RunResult(fs, Failed(CannotCreate(processed)))
    case Some(fs1) =>
      if !IsDir(fs1, extracted) then RunResult(fs1, Failed(CannotList(extracted)))
      else
        var r := OrganizeItems(fs1, cfg, listing(Children(fs1, extracted)), gunzip);
        if r.status.Failed? || !cfg.deleteArchives then r
        else
          match RemoveTree(r.fs, extracted)
          case None => RunResult(r.fs, Failed(CannotRemove(extracted)))
          case Some(fs2) => RunResult(fs2, Done)
  }

  /** The run() as a loop over the listing, step by step on the filesystem. */
  method Organize(fs: FS, cfg: Config, listing: set<Name> -> seq<Name>, gunzip: Bytes -> Inflation)
    returns (r: RunResult)
    ensures r == Organized(fs, cfg, listing, gunzip)
  {
    var processed := Output(cfg, OrganizeAndProcessFiles);
    var extracted := Output(cfg, VerifyAndExtractTar);
    var made := MakeDirs(fs, processed);
    if made.None? {
      return RunResult(fs, Failed(CannotCreate(processed)));
    }
    var cur := made.value;
    if !IsDir(cur, extracted) {
      return RunResult(cur, Failed(CannotList(extracted)));
    }
    var names := listing(Children(cur, extracted));
    ghost var start := cur;
    for i := 0 to |names|
      invariant OrganizeItems(cur, cfg, names[i..], gunzip) == OrganizeItems(start, cfg, names, gunzip)
    {
      var name := names[i];
      assert names[i..][0] == name && names[i..][1..] == names[i + 1..];
      var (base, ext) := PosixPath.SplitExt(name);
      var src := extracted + [name];
      var folder := processed + [base];
      var withFolder := MakeDirs(cur, folder);
      if withFolder.None? {
        return RunResult(cur, Failed(CannotCreate(folder)));
      }
      var next := withFolder.value;
      if ext == ".gz" {
        var dest := folder + [base];
        var data := ReadFile(next, src);
        if data.None? {
          return RunResult(next, Failed(CannotRead(src)));
        }
        var out := gunzip(data.value);
        var written := WriteFile(next, dest, out.output);
        if written.None? {
          return RunResult(next, Failed(CannotWrite(dest)));
        }
        if !out.intact {
          return RunResult(written.value, Failed(CorruptMember(src)));
        }
        cur := written.value;
      } else {
        var copied := Copy(next, src, folder);
        if copied.None? {
          return RunResult(next, Failed(CannotCopy(src)));
        }
        cur := copied.value;
      }
    }
    if cfg.deleteArchives {
      var removed := RemoveTree(cur, extracted);
      if removed.None? {
        return RunResult(cur, Failed(CannotRemove(extracted)));
      }
      cur := removed.value;
    }
    return RunResult(cur, Done);
  }

  /** Every destination is processed/<folder>/<file>: two components below processed. */
  lemma DestinationShape(cfg: Config, name: Name)
    ensures var d := Destination(cfg, name);
      && |d| == |cfg.outputDir| + 3
      && d[..|cfg.outputDir| + 2] == Folder(cfg, name)
      && d[..|cfg.outputDir| + 1] == Output(cfg, OrganizeAndProcessFiles)
      && d[|cfg.outputDir|] == "processed"
  {
    var d := Destination(cfg, name);
    assert d[..|cfg.outputDir| + 1] == Folder(cfg, name)[..|cfg.outputDir| + 1];
  }

  /** makedirs(folder) adds only folders above the destination, and leaves the source alone. */
  lemma FolderEffect(fs: FS, cfg: Config, name: Name)
    requires MakeDirs(fs, Folder(cfg, name)).Some?
    ensures var fs1 := MakeDirs(fs, Folder(cfg, name)).value;
      && IsDir(fs1, Folder(cfg, name))
      && (forall q :: q in fs1 && q !in fs ==> Under(Destination(cfg, name), q))
      && (IsFile(fs1, Source(cfg, name)) <==> IsFile(fs, Source(cfg, name)))
  {
    var folder := Folder(cfg, name);
    var dest := Destination(cfg, name);
    var src := Source(cfg, name);
    var fs1 := MakeDirs(fs, folder).value;
    DestinationShape(cfg, name);
    assert folder[..|folder|] == folder;
    forall q | q in fs1 && q !in fs ensures Under(dest, q) {
      assert dest[..|q|] == folder[..|q|];
    }
    assert src[|cfg.outputDir|] != dest[|cfg.outputDir|];
  }

  /** One pass of the loop changes nothing but the member's destination and the folders above it,
      removes nothing, and when it finishes the destination holds the member's bytes (decompressed
      for .gz) read from extracted. */
  lemma ItemEffect(fs: FS, cfg: Config, name: Name, gunzip: Bytes -> Inflation)
    ensures var r := OrganizeItem(fs, cfg, name, gunzip);
      var dest := Destination(cfg, name);
      && (forall q :: q in fs ==> q in r.fs)
      && (forall q :: q in fs && q != dest ==> r.fs[q] == fs[q])
      && (forall q :: q in r.fs && q !in fs ==> Under(dest, q))
      && (r.status.Done? ==>
            IsFile(fs, Source(cfg, name)) && dest in r.fs && r.fs[dest] == File(Payload(fs, cfg, name, gunzip)))
      && (r.status.Done? ==> IsDir(r.fs, Folder(cfg, name)))
  {
    var folder := Folder(cfg, name);
    var src := Source(cfg, name);
    var dest := Destination(cfg, name);
    var r := OrganizeItem(fs, cfg, name, gunzip);
    if MakeDirs(fs, folder).Some? {
      var fs1 := MakeDirs(fs, folder).value;
      FolderEffect(fs, cfg, name);
      assert dest[..|dest| - 1] == folder;
      assert Under(dest, dest);
      assert folder != dest;
      if IsFile(fs1, src) && !IsDir(fs1, dest) {
        var data := fs1[src].content;
        assert data == fs[src].content;
        var bytes := if Ext(name) == ".gz" then gunzip(data).output else data;
        assert Ext(name) != ".gz" ==> Copy(fs1, src, folder) == Some(fs1[dest := File(bytes)]) by {
          assert src[|src| - 1] == name;
        }
        assert r.fs == fs1[dest := File(bytes)];
      } else {
        assert r.fs == fs1;
      }
    }
  }

  /** q is a destination of one of names, or a folder above one. */
  ghost predicate Touched(cfg: Config, names: seq<Name>, q: Path) {
    exists k :: 0 <= k < |names| && Under(Destination(cfg, names[k]), q)
  }

  /** The member loop removes no path, and rewrites an existing path only when it is the
      destination of some member. */
  lemma {:induction false} ItemsKeep(fs: FS, cfg: Config, names: seq<Name>, gunzip: Bytes -> Inflation, q: Path)
    requires q in fs
    ensures var r := OrganizeItems(fs, cfg, names, gunzip);
      && q in r.fs
      && ((forall k :: 0 <= k < |names| ==> q != Destination(cfg, names[k])) ==> r.fs[q] == fs[q])
    decreases |names|
  {
    if names != [] {
      var r0 := OrganizeItem(fs, cfg, names[0], gunzip);
      ItemEffect(fs, cfg, names[0], gunzip);
      if r0.status.Done? {
        var rest := names[1..];
        ItemsKeep(r0.fs, cfg, rest, gunzip, q);
        if forall k :: 0 <= k < |names| ==> q != Destination(cfg, names[k]) {
          assert q != Destination(cfg, names[0]);
          forall k | 0 <= k < |rest| ensures q != Destination(cfg, rest[k]) {
            assert rest[k] == names[k + 1];
          }
        }
      }
    }
  }

  /** The member loop adds only destinations and the folders above them. */
  lemma {:induction false} ItemsAdd(fs: FS, cfg: Config, names: seq<Name>, gunzip: Bytes -> Inflation, q: Path)
    requires q in OrganizeItems(fs, cfg, names, gunzip).fs && q !in fs
    ensures Touched(cfg, names, q)
    decreases |names|, 1
  {
    if q in OrganizeItem(fs, cfg, names[0], gunzip).fs {
      ItemAdds(fs, cfg, names[0], gunzip, q);
      assert Under(Destination(cfg, names[0]), q);
    } else {
      LaterAdds(fs, cfg, names, gunzip, q);
    }
  }

  /** A path the first pass did not add was added by the loop over the rest. */
  lemma {:induction false} LaterAdds(fs: FS, cfg: Config, names: seq<Name>, gunzip: Bytes -> Inflation, q: Path)
    requires q in OrganizeItems(fs, cfg, names, gunzip).fs && q !in fs
    requires names != [] && q !in OrganizeItem(fs, cfg, names[0], gunzip).fs
    ensures Touched(cfg, names, q)
    decreases |names|, 0
  {
    var r0 := OrganizeItem(fs, cfg, names[0], gunzip);
    var rest := names[1..];
    assert OrganizeItems(fs, cfg, names, gunzip) == OrganizeItems(r0.fs, cfg, rest, gunzip);
    ItemsAdd(r0.fs, cfg, rest, gunzip, q);
    TouchedShift(cfg, names, q);
  }

  /** What a tail of names touches, names touches. */
  lemma TouchedShift(cfg: Config, names: seq<Name>, q: Path)
    requires names != [] && Touched(cfg, names[1..], q)
    ensures Touched(cfg, names, q)
  {
    var rest := names[1..];
    var k :| 0 <= k < |rest| && Under(Destination(cfg, rest[k]), q);
    assert rest[k] == names[k + 1];
  }

  /** One pass adds only its destination and the folders above it. */
  lemma ItemAdds(fs: FS, cfg: Config, n: Name, gunzip: Bytes -> Inflation, q: Path)
    requires q in OrganizeItem(fs, cfg, n, gunzip).fs && q !in fs
    ensures Under(Destination(cfg, n), q)
  {
    ItemEffect(fs, cfg, n, gunzip);
  }

  /** No destination, and no folder above one, lies inside extracted. */
  lemma NothingTouchedInExtracted(cfg: Config, names: seq<Name>, q: Path)
    requires Under(q, Output(cfg, VerifyAndExtractTar))
    ensures !Touched(cfg, names, q)
    ensures forall k :: 0 <= k < |names| ==> q != Destination(cfg, names[k])
  {
    var n := |cfg.outputDir|;
    assert q[n] == "extracted";
    forall k | 0 <= k < |names| ensures !Under(Destination(cfg, names[k]), q) {
      DestinationShape(cfg, names[k]);
    }
  }

  /** No later name in names shares names[k]'s destination. */
  predicate LastDestination(cfg: Config, names: seq<Name>, k: int)
    requires 0 <= k < |names|
  {
    forall j :: k < j < |names| ==> Destination(cfg, names[j]) != Destination(cfg, names[k])
  }

  /** Sources live in extracted, destinations in processed. */
  lemma SourceApart(cfg: Config, n: Name, m: Name)
    ensures !Under(Destination(cfg, n), Source(cfg, m))
    ensures Source(cfg, m) != Destination(cfg, n)
  {
    DestinationShape(cfg, n);
    assert Source(cfg, m)[|cfg.outputDir|] == "extracted";
  }

  /** A finished loop read every member from a file in extracted. */
  lemma {:induction false} ItemsReadSources(fs: FS, cfg: Config, names: seq<Name>, gunzip: Bytes -> Inflation, k: nat)
    requires OrganizeItems(fs, cfg, names, gunzip).status.Done?
    requires k < |names|
    ensures IsFile(fs, Source(cfg, names[k]))
    decreases |names|, 1
  {
    if k == 0 {
      ItemEffect(fs, cfg, names[0], gunzip);
    } else {
      LaterSource(fs, cfg, names, gunzip, k);
    }
  }

  /** A later member was read by the loop over the rest, from a file the first pass left alone. */
  lemma {:induction false} LaterSource(fs: FS, cfg: Config, names: seq<Name>, gunzip: Bytes -> Inflation, k: nat)
    requires OrganizeItems(fs, cfg, names, gunzip).status.Done?
    requires 0 < k < |names|
    ensures IsFile(fs, Source(cfg, names[k]))
    decreases |names|, 0
  {
    var n := names[k];
    var rest := names[1..];
    assert rest[k - 1] == n;
    var r0 := ItemsStep(fs, cfg, names, gunzip);
    ItemsReadSources(r0.fs, cfg, rest, gunzip, k - 1);
    SourceKept(fs, cfg, names[0], n, gunzip);
  }

  /** A finished member loop finished its first pass and then the loop over the rest. */
  lemma ItemsStep(fs: FS, cfg: Config, names: seq<Name>, gunzip: Bytes -> Inflation) returns (r0: RunResult)
    requires names != [] && OrganizeItems(fs, cfg, names, gunzip).status.Done?
    ensures r0 == OrganizeItem(fs, cfg, names[0], gunzip) && r0.status.Done?
    ensures OrganizeItems(r0.fs, cfg, names[1..], gunzip) == OrganizeItems(fs, cfg, names, gunzip)
  {
    r0 := OrganizeItem(fs, cfg, names[0], gunzip);
  }

  /** A finished pass for member n leaves the file of member m in extracted as it was. */
  lemma SourceUnchanged(fs: FS, cfg: Config, n: Name, m: Name, gunzip: Bytes -> Inflation)
    requires IsFile(OrganizeItem(fs, cfg, n, gunzip).fs, Source(cfg, m))
    ensures var r := OrganizeItem(fs, cfg, n, gunzip);
      IsFile(fs, Source(cfg, m)) && r.fs[Source(cfg, m)] == fs[Source(cfg, m)]
  {
    ItemEffect(fs, cfg, n, gunzip);
    SourceApart(cfg, n, m);
  }

  /** A pass of the loop for member n leaves the file of member m in extracted as it was. */
  lemma SourceKept(fs: FS, cfg: Config, n: Name, m: Name, gunzip: Bytes -> Inflation)
    ensures var r := OrganizeItem(fs, cfg, n, gunzip);
      IsFile(r.fs, Source(cfg, m)) ==> IsFile(fs, Source(cfg, m))
  {
    ItemEffect(fs, cfg, n, gunzip);
    SourceApart(cfg, n, m);
  }

  /** A finished loop leaves every member's folder in place as a directory. */
  lemma {:induction false} ItemsMakeFolders(fs: FS, cfg: Config, names: seq<Name>, gunzip: Bytes -> Inflation, k: nat)
    requires OrganizeItems(fs, cfg, names, gunzip).status.Done?
    requires k < |names|
    ensures IsDir(OrganizeItems(fs, cfg, names, gunzip).fs, Folder(cfg, names[k]))
    decreases |names|, 1
  {
    if k == 0 {
      FirstFolder(fs, cfg, names, gunzip);
    } else {
      LaterFolder(fs, cfg, names, gunzip, k);
    }
  }

  /** A later member's folder is made by the loop over the rest. */
  lemma {:induction false} LaterFolder(fs: FS, cfg: Config, names: seq<Name>, gunzip: Bytes -> Inflation, k: nat)
    requires OrganizeItems(fs, cfg, names, gunzip).status.Done?
    requires 0 < k < |names|
    ensures IsDir(OrganizeItems(fs, cfg, names, gunzip).fs, Folder(cfg, names[k]))
    decreases |names|, 0
  {
    var rest := names[1..];
    var r0 := ItemsStep(fs, cfg, names, gunzip);
    assert rest[k - 1] == names[k];
    ItemsMakeFolders(r0.fs, cfg, rest, gunzip, k - 1);
  }

  /** The first member's folder, made by the first pass, survives the rest of the loop. */
  lemma FirstFolder(fs: FS, cfg: Config, names: seq<Name>, gunzip: Bytes -> Inflation)
    requires OrganizeItems(fs, cfg, names, gunzip).status.Done?
    requires names != []
    ensures IsDir(OrganizeItems(fs, cfg, names, gunzip).fs, Folder(cfg, names[0]))
  {
    var r0 := ItemsStep(fs, cfg, names, gunzip);
    ItemFolder(fs, cfg, names[0], gunzip);
    FolderStays(r0.fs, cfg, names[0], names[1..], gunzip);
  }

  /** A finished pass leaves the member's folder a directory. */
  lemma ItemFolder(fs: FS, cfg: Config, n: Name, gunzip: Bytes -> Inflation)
    ensures var r := OrganizeItem(fs, cfg, n, gunzip);
      r.status.Done? ==> IsDir(r.fs, Folder(cfg, n))
  {
    ItemEffect(fs, cfg, n, gunzip);
  }

  /** The member loop keeps a folder of processed a directory. */
  lemma FolderStays(fs: FS, cfg: Config, n: Name, names: seq<Name>, gunzip: Bytes -> Inflation)
    requires IsDir(fs, Folder(cfg, n))
    ensures IsDir(OrganizeItems(fs, cfg, names, gunzip).fs, Folder(cfg, n))
  {
    var folder := Folder(cfg, n);
    ItemsKeep(fs, cfg, names, gunzip, folder);
    forall j | 0 <= j < |names| ensures folder != Destination(cfg, names[j]) {
      DestinationShape(cfg, names[j]);
    }
  }

  /** After a finished loop every member's destination is a file: the last member with that
      destination placed it. */
  lemma {:induction false} ItemsPlaceFile(fs: FS, cfg: Config, names: seq<Name>, gunzip: Bytes -> Inflation, k: nat)
    requires OrganizeItems(fs, cfg, names, gunzip).status.Done?
    requires k < |names|
    ensures IsFile(OrganizeItems(fs, cfg, names, gunzip).fs, Destination(cfg, names[k]))
    decreases |names|
  {
    if LastDestination(cfg, names, k) {
      ItemsPlaceContent(fs, cfg, names, gunzip, k);
    } else {
      var j :| k < j < |names| && Destination(cfg, names[j]) == Destination(cfg, names[k]);
      var r0 := ItemsStep(fs, cfg, names, gunzip);
      assert names[1..][j - 1] == names[j];
      ItemsPlaceFile(r0.fs, cfg, names[1..], gunzip, j - 1);
    }
  }

  /** After a finished loop a destination that no later member shares holds the member's bytes,
      decompressed for .gz, as they were in extracted. */
  lemma {:induction false} ItemsPlaceContent(fs: FS, cfg: Config, names: seq<Name>, gunzip: Bytes -> Inflation, k: nat)
    requires OrganizeItems(fs, cfg, names, gunzip).status.Done?
    requires k < |names| && LastDestination(cfg, names, k)
    ensures IsFile(fs, Source(cfg, names[k]))
    ensures var r := OrganizeItems(fs, cfg, names, gunzip);
      Destination(cfg, names[k]) in r.fs &&
      r.fs[Destination(cfg, names[k])] == File(Payload(fs, cfg, names[k], gunzip))
    decreases |names|, 1
  {
    if k == 0 {
      FirstContent(fs, cfg, names, gunzip);
    } else {
      LaterContent(fs, cfg, names, gunzip, k);
    }
  }

  /** The first member's bytes, written by the first pass, stay when no later member shares its
      destination. */
  lemma FirstContent(fs: FS, cfg: Config, names: seq<Name>, gunzip: Bytes -> Inflation)
    requires OrganizeItems(fs, cfg, names, gunzip).status.Done?
    requires names != [] && LastDestination(cfg, names, 0)
    ensures IsFile(fs, Source(cfg, names[0]))
    ensures var r := OrganizeItems(fs, cfg, names, gunzip);
      Destination(cfg, names[0]) in r.fs &&
      r.fs[Destination(cfg, names[0])] == File(Payload(fs, cfg, names[0], gunzip))
  {
    var r0 := ItemsStep(fs, cfg, names, gunzip);
    ItemEffect(fs, cfg, names[0], gunzip);
    var rest := names[1..];
    var dest0 := Destination(cfg, names[0]);
    forall j | 0 <= j < |rest| ensures dest0 != Destination(cfg, rest[j]) {
      assert rest[j] == names[j + 1];
    }
    ItemsKeep(r0.fs, cfg, rest, gunzip, dest0);
  }

  /** A later member's bytes are placed by the loop over the rest, read from a source the first
      pass left alone. */
  lemma {:induction false} LaterContent(fs: FS, cfg: Config, names: seq<Name>, gunzip: Bytes -> Inflation, k: nat)
    requires OrganizeItems(fs, cfg, names, gunzip).status.Done?
    requires 0 < k < |names| && LastDestination(cfg, names, k)
    ensures IsFile(fs, Source(cfg, names[k]))
    ensures var r := OrganizeItems(fs, cfg, names, gunzip);
      Destination(cfg, names[k]) in r.fs &&
      r.fs[Destination(cfg, names[k])] == File(Payload(fs, cfg, names[k], gunzip))
    decreases |names|, 0
  {
    var r0 := ItemsStep(fs, cfg, names, gunzip);
    var rest := names[1..];
    assert rest[k - 1] == names[k];
    assert LastDestination(cfg, rest, k - 1);
    ItemsPlaceContent(r0.fs, cfg, rest, gunzip, k - 1);
    SourceUnchanged(fs, cfg, names[0], names[k], gunzip);
  }

  /** The member loop leaves every path inside extracted as it found it. */
  lemma ItemsKeepExtracted(fs: FS, cfg: Config, names: seq<Name>, gunzip: Bytes -> Inflation, q: Path)
    requires Under(q, Output(cfg, VerifyAndExtractTar))
    ensures var r := OrganizeItems(fs, cfg, names, gunzip);
      (q in r.fs <==> q in fs) && (q in fs ==> r.fs[q] == fs[q])
  {
    NothingTouchedInExtracted(cfg, names, q);
    if q in fs {
      ItemsKeep(fs, cfg, names, gunzip, q);
    }
    if q in OrganizeItems(fs, cfg, names, gunzip).fs && q !in fs {
      ItemsAdd(fs, cfg, names, gunzip, q);
    }
  }

  /** A path inside extracted is untouched by a run that raised or that ran with delete_archives
      off. */
  lemma ExtractedUntouched(fs: FS, cfg: Config, listing: set<Name> -> seq<Name>,
                           gunzip: Bytes -> Inflation, q: Path)
    requires Under(q, Output(cfg, VerifyAndExtractTar))
    ensures var r := Organized(fs, cfg, listing, gunzip);
      r.status.Failed? || !cfg.deleteArchives ==>
        (q in r.fs <==> q in fs) && (q in fs ==> r.fs[q] == fs[q])
  {
    var processed := Output(cfg, OrganizeAndProcessFiles);
    var extracted := Output(cfg, VerifyAndExtractTar);
    var r := Organized(fs, cfg, listing, gunzip);
    if MakeDirs(fs, processed).Some? {
      var fs1 := MakeDirs(fs, processed).value;
      ProcessedLeavesExtracted(fs, cfg, q);
      if IsDir(fs1, extracted) {
        var names := listing(Children(fs1, extracted));
        ItemsKeepExtracted(fs1, cfg, names, gunzip, q);
        var items := OrganizeItems(fs1, cfg, names, gunzip);
        if items.status.Failed? || !cfg.deleteArchives {
          assert r == items;
        } else if RemoveTree(items.fs, extracted).None? {
          assert r.fs == items.fs;
        }
      } else {
        assert r.fs == fs1;
      }
    }
  }

  /** makedirs(processed) leaves every path inside extracted as it was. */
  lemma ProcessedLeavesExtracted(fs: FS, cfg: Config, q: Path)
    requires Under(q, Output(cfg, VerifyAndExtractTar))
    requires MakeDirs(fs, Output(cfg, OrganizeAndProcessFiles)).Some?
    ensures var fs1 := MakeDirs(fs, Output(cfg, OrganizeAndProcessFiles)).value;
      (q in fs1 <==> q in fs) && (q in fs ==> fs1[q] == fs[q])
  {
    var processed := Output(cfg, OrganizeAndProcessFiles);
    var fs1 := MakeDirs(fs, processed).value;
    var n := |cfg.outputDir|;
    assert AddsDirsAlong(fs, fs1, processed);
    assert q[n] == "extracted" && processed[n] == "processed";
    assert |processed| <= |q| && q != processed;
    assert processed[..|processed|] == processed;
  }

  /** A run that finishes with delete_archives set has removed extracted and everything in it. */
  lemma RemovedWhenDone(fs: FS, cfg: Config, listing: set<Name> -> seq<Name>, gunzip: Bytes -> Inflation)
    ensures var r := Organized(fs, cfg, listing, gunzip);
      r.status.Done? && cfg.deleteArchives ==>
        forall q :: Under(q, Output(cfg, VerifyAndExtractTar)) ==> q !in r.fs
  {
    var processed := Output(cfg, OrganizeAndProcessFiles);
    var extracted := Output(cfg, VerifyAndExtractTar);
    var r := Organized(fs, cfg, listing, gunzip);
    if r.status.Done? && cfg.deleteArchives {
      assert MakeDirs(fs, processed).Some?;
      var fs1 := MakeDirs(fs, processed).value;
      var items := OrganizeItems(fs1, cfg, listing(Children(fs1, extracted)), gunzip);
      assert RemoveTree(items.fs, extracted).Some?;
      assert r.fs == RemoveTree(items.fs, extracted).value;
    }
  }

  /** extracted is removed only when delete_archives is set and the member loop finished; every
      other run leaves everything inside extracted as it was. */
  lemma DeletionGated(fs: FS, cfg: Config, listing: set<Name> -> seq<Name>, gunzip: Bytes -> Inflation)
    ensures var r := Organized(fs, cfg, listing, gunzip);
      var extracted := Output(cfg, VerifyAndExtractTar);
      && (r.status.Failed? || !cfg.deleteArchives ==>
            forall q :: Under(q, extracted) ==> (q in r.fs <==> q in fs) && (q in fs ==> r.fs[q] == fs[q]))
      && (r.status.Done? && cfg.deleteArchives ==> forall q :: Under(q, extracted) ==> q !in r.fs)
  {
    forall q | Under(q, Output(cfg, VerifyAndExtractTar)) {
      ExtractedUntouched(fs, cfg, listing, gunzip, q);
    }
    RemovedWhenDone(fs, cfg, listing, gunzip);
  }

  /** Once the member loop has finished the run finishes too: rmtree(extracted) does not raise,
      since the loop leaves extracted in place. */
  lemma RemovalSucceeds(fs: FS, cfg: Config, listing: set<Name> -> seq<Name>, gunzip: Bytes -> Inflation)
    ensures var made := MakeDirs(fs, Output(cfg, OrganizeAndProcessFiles));
      var extracted := Output(cfg, VerifyAndExtractTar);
      made.Some? && IsDir(made.value, extracted) &&
      OrganizeItems(made.value, cfg, listing(Children(made.value, extracted)), gunzip).status.Done? ==>
        Organized(fs, cfg, listing, gunzip).status.Done?
  {
    var extracted := Output(cfg, VerifyAndExtractTar);
    var processed := Output(cfg, OrganizeAndProcessFiles);
    if MakeDirs(fs, processed).Some? {
      var fs1 := MakeDirs(fs, processed).value;
      if IsDir(fs1, extracted) {
        var names := listing(Children(fs1, extracted));
        var items := OrganizeItems(fs1, cfg, names, gunzip);
        assert IsDir(items.fs, extracted) by {
          assert Under(extracted, extracted);
          ItemsKeepExtracted(fs1, cfg, names, gunzip, extracted);
        }
        assert RemoveTree(items.fs, extracted).Some?;
      }
    }
  }

  /** After a finished run each member that was in extracted was a file there, and its
      destination is a file; when no other member shares that destination it holds the member's
      bytes, decompressed for .gz. This holds whatever order os.listdir gives. */
  lemma OrganizePlacesMember(fs: FS, cfg: Config, listing: set<Name> -> seq<Name>,
                             gunzip: Bytes -> Inflation, n: Name)
    requires forall s :: IsListing(listing(s), s)
    requires Organized(fs, cfg, listing, gunzip).status.Done?
    requires n in Children(fs, Output(cfg, VerifyAndExtractTar))
    ensures var r := Organized(fs, cfg, listing, gunzip);
      && IsFile(fs, Source(cfg, n))
      && IsFile(r.fs, Destination(cfg, n))
      && IsDir(r.fs, Folder(cfg, n))
      && ((forall m :: m in Children(fs, Output(cfg, VerifyAndExtractTar)) && m != n ==>
             Destination(cfg, m) != Destination(cfg, n)) ==>
          r.fs[Destination(cfg, n)] == File(Payload(fs, cfg, n, gunzip)))
  {
    var processed := Output(cfg, OrganizeAndProcessFiles);
    var extracted := Output(cfg, VerifyAndExtractTar);
    var fs1 := MakeDirs(fs, processed).value;
    ChildrenKeep(fs, fs1, processed, extracted);
    var members := Children(fs, extracted);
    var names := listing(members);
    assert IsListing(names, members);
    var k :| 0 <= k < |names| && names[k] == n;
    var src := Source(cfg, n);
    var dest := Destination(cfg, n);
    var folder := Folder(cfg, n);
    ItemsPlaceMember(fs1, cfg, names, gunzip, k);
    assert src[..|extracted|] == extracted;
    ProcessedLeavesExtracted(fs, cfg, src);
    DestinationShape(cfg, n);
    assert !Under(dest, extracted) && !Under(folder, extracted) by {
      assert dest[|cfg.outputDir|] == "processed";
      assert folder[|cfg.outputDir|] == "processed";
    }
    DoneOutsideExtracted(fs, cfg, listing, gunzip, dest);
    DoneOutsideExtracted(fs, cfg, listing, gunzip, folder);
    if forall m :: m in members && m != n ==> Destination(cfg, m) != dest {
      UniqueIsLast(cfg, names, members, k);
    }
  }

  /** A member whose destination no other member of the listed set shares is the last of its
      destination in the listing. */
  lemma UniqueIsLast(cfg: Config, names: seq<Name>, members: set<Name>, k: nat)
    requires IsListing(names, members) && k < |names|
    requires forall m :: m in members && m != names[k] ==> Destination(cfg, m) != Destination(cfg, names[k])
    ensures LastDestination(cfg, names, k)
  {
    forall j | k < j < |names| ensures Destination(cfg, names[j]) != Destination(cfg, names[k]) {
      assert names[j] in members && names[j] != names[k];
    }
  }

  /** After a finished member loop the k-th member was a file in extracted, its folder is a
      directory and its destination a file, holding its bytes when no later member shares it. */
  lemma ItemsPlaceMember(fs: FS, cfg: Config, names: seq<Name>, gunzip: Bytes -> Inflation, k: nat)
    requires OrganizeItems(fs, cfg, names, gunzip).status.Done?
    requires k < |names|
    ensures var r := OrganizeItems(fs, cfg, names, gunzip);
      && IsFile(fs, Source(cfg, names[k]))
      && IsFile(r.fs, Destination(cfg, names[k]))
      && IsDir(r.fs, Folder(cfg, names[k]))
      && (LastDestination(cfg, names, k) ==>
            r.fs[Destination(cfg, names[k])] == File(Payload(fs, cfg, names[k], gunzip)))
  {
    ItemsReadSources(fs, cfg, names, gunzip, k);
    ItemsPlaceFile(fs, cfg, names, gunzip, k);
    ItemsMakeFolders(fs, cfg, names, gunzip, k);
    if LastDestination(cfg, names, k) {
      ItemsPlaceContent(fs, cfg, names, gunzip, k);
    }
  }

  /** Outside extracted a finished run leaves exactly what the finished member loop left. */
  lemma DoneOutsideExtracted(fs: FS, cfg: Config, listing: set<Name> -> seq<Name>,
                             gunzip: Bytes -> Inflation, q: Path)
    requires Organized(fs, cfg, listing, gunzip).status.Done?
    requires !Under(q, Output(cfg, VerifyAndExtractTar))
    ensures MakeDirs(fs, Output(cfg, OrganizeAndProcessFiles)).Some?
    ensures var fs1 := MakeDirs(fs, Output(cfg, OrganizeAndProcessFiles)).value;
      var extracted := Output(cfg, VerifyAndExtractTar);
      var r := Organized(fs, cfg, listing, gunzip);
      && IsDir(fs1, extracted)
      && var items := OrganizeItems(fs1, cfg, listing(Children(fs1, extracted)), gunzip);
      && items.status.Done?
      && (q in r.fs <==> q in items.fs)
      && (q in items.fs ==> r.fs[q] == items.fs[q])
  {
    var processed := Output(cfg, OrganizeAndProcessFiles);
    var extracted := Output(cfg, VerifyAndExtractTar);
    assert MakeDirs(fs, processed).Some?;
    var fs1 := MakeDirs(fs, processed).value;
    assert IsDir(fs1, extracted);
  }

  /** processed is created first, so every run that got past that makedirs leaves it in place,
      finished or not, and luigi then counts OrganizeAndProcessFiles as complete. */
  lemma ProcessedSurvives(fs: FS, cfg: Config, listing: set<Name> -> seq<Name>, gunzip: Bytes -> Inflation)
    requires MakeDirs(fs, Output(cfg, OrganizeAndProcessFiles)).Some?
    ensures var r := Organized(fs, cfg, listing, gunzip);
      IsDir(r.fs, Output(cfg, OrganizeAndProcessFiles)) && Schedule(r.fs, cfg, OrganizeAndProcessFiles) == []
  {
    var processed := Output(cfg, OrganizeAndProcessFiles);
    var extracted := Output(cfg, VerifyAndExtractTar);
    var fs1 := MakeDirs(fs, processed).value;
    assert processed[..|processed|] == processed;
    assert IsDir(fs1, processed);
    if IsDir(fs1, extracted) {
      var names := listing(Children(fs1, extracted));
      ItemsKeep(fs1, cfg, names, gunzip, processed);
      forall k | 0 <= k < |names| ensures processed != Destination(cfg, names[k]) {
        DestinationShape(cfg, names[k]);
      }
      OutputsSeparate(cfg, OrganizeAndProcessFiles, VerifyAndExtractTar);
    }
  }

  /** A member's destination has the form processed/<f>/<f> that dispatch looks for exactly when
      it is a .gz member or has no extension at all; a copied member with an extension never
      does. */
  lemma DispatchPattern(cfg: Config, name: Name)
    ensures Destination(cfg, name) == Folder(cfg, name) + [Base(name)] <==>
      Ext(name) == ".gz" || Ext(name) == ""
  {
    PosixPath.SplitExtShape(name);
    var folder := Folder(cfg, name);
    var last := if Ext(name) == ".gz" then Base(name) else name;
    assert (folder + [last])[|folder|] == last;
    assert (folder + [Base(name)])[|folder|] == Base(name);
    if Ext(name) != ".gz" && name == Base(name) {
      assert |Base(name) + Ext(name)| == |Base(name)|;
    }
  }

  /** splitext of a one-dot name whose dot follows its first character. */
  lemma SplitExtAtOne(p: string)
    requires |p| >= 2 && p[0] != '.' && p[1] == '.'
    requires forall k :: 0 <= k < |p| ==> p[k] != '/'
    requires forall k :: 1 < k < |p| ==> p[k] != '.'
    ensures PosixPath.SplitExt(p) == (p[..1], p[1..])
  {
    NoSlash(p);
    LastDotAtOne(p);
    assert !PosixPath.AllChar(p[0..1], '.') by {
      assert p[0..1][0] == p[0];
    }
  }

  /** A path without '/' has no last '/'. */
  lemma NoSlash(p: string)
    requires forall k :: 0 <= k < |p| ==> p[k] != '/'
    ensures PosixPath.LastIndex(p, '/') == -1
  {
  }

  /** The last '.' of a string whose only '.' after its first character is its second. */
  lemma LastDotAtOne(p: string)
    requires |p| >= 2 && p[1] == '.'
    requires forall k :: 1 < k < |p| ==> p[k] != '.'
    ensures PosixPath.LastIndex(p, '.') == 1
  {
  }

  /** The characters of b, '.' and then ext, with ext starting at index 2. */
  lemma ShortLayout(b: char, ext: string, p: string)
    requires p == [b, '.'] + ext
    ensures |p| == |ext| + 2 && p[0] == b && p[1] == '.'
    ensures forall k :: 2 <= k < |p| ==> p[k] == ext[k - 2]
    ensures p[..1] == [b] && p[1..] == ['.'] + ext
  {
  }

  /** splitext of a one-letter base followed by a dot and a dot-free extension. */
  lemma SplitExtShort(b: char, ext: string)
    requires b != '.' && b != '/'
    requires forall k :: 0 <= k < |ext| ==> ext[k] != '/' && ext[k] != '.'
    ensures PosixPath.SplitExt([b, '.'] + ext) == ([b], ['.'] + ext)
  {
    var p := [b, '.'] + ext;
    ShortLayout(b, ext, p);
    SplitExtAtOne(p);
  }

  /** Members with the same base name share one folder yet keep apart within it: a.txt and a.csv
      both go to processed/a, as a.txt and a.csv. */
  lemma SameBaseSharesFolder(cfg: Config)
    ensures Folder(cfg, "a.txt") == Folder(cfg, "a.csv") == Output(cfg, OrganizeAndProcessFiles) + ["a"]
    ensures Destination(cfg, "a.txt") == Output(cfg, OrganizeAndProcessFiles) + ["a", "a.txt"]
    ensures Destination(cfg, "a.csv") == Output(cfg, OrganizeAndProcessFiles) + ["a", "a.csv"]
  {
    assert ['a', '.'] + "txt" == "a.txt";
    ShortNamePlaced(cfg, 'a', "txt");
    assert ['a', '.'] + "csv" == "a.csv";
    ShortNamePlaced(cfg, 'a', "csv");
  }

  /** A member named by one letter, a dot and an extension other than "gz" goes to the folder
      named by that letter, under its own name. */
  lemma ShortNamePlaced(cfg: Config, b: char, ext: string)
    requires b != '.' && b != '/' && ext != "gz"
    requires forall k :: 0 <= k < |ext| ==> ext[k] != '/' && ext[k] != '.'
    ensures Folder(cfg, [b, '.'] + ext) == Output(cfg, OrganizeAndProcessFiles) + [[b]]
    ensures Destination(cfg, [b, '.'] + ext) == Output(cfg, OrganizeAndProcessFiles) + [[b], [b, '.'] + ext]
  {
    SplitExtShort(b, ext);
    assert (['.'] + ext)[1..] == ext && ".gz"[1..] == "gz";
  }

  /** Every ancestor of p, and p itself, is a directory. */
  predicate DirsAlong(fs: FS, p: Path) {
    forall k :: 0 < k <= |p| ==> IsDir(fs, p[..k])
  }

  /** Beneath processed there are only folders, and beneath those only files: the layout the
      member loop itself produces. */
  predicate FoldersOfFiles(fs: FS, processed: Path) {
    && (forall q :: q in fs && |q| == |processed| + 1 && q[..|processed|] == processed ==> fs[q] == Dir)
    && (forall q :: q in fs && |q| == |processed| + 2 && q[..|processed|] == processed ==> fs[q].File?)
  }

  /** One pass of the loop finishes when processed is laid out as the loop lays it out, the member
      is a file and, for .gz, its stream is intact; and it keeps that layout. */
  lemma ItemSucceeds(fs: FS, cfg: Config, name: Name, gunzip: Bytes -> Inflation)
    requires DirsAlong(fs, Output(cfg, OrganizeAndProcessFiles))
    requires FoldersOfFiles(fs, Output(cfg, OrganizeAndProcessFiles))
    requires IsFile(fs, Source(cfg, name))
    requires Ext(name) == ".gz" ==> gunzip(fs[Source(cfg, name)].content).intact
    ensures var r := OrganizeItem(fs, cfg, name, gunzip);
      && r.status.Done?
      && DirsAlong(r.fs, Output(cfg, OrganizeAndProcessFiles))
      && FoldersOfFiles(r.fs, Output(cfg, OrganizeAndProcessFiles))
  {
    var folder := Folder(cfg, name);
    var dest := Destination(cfg, name);
    var src := Source(cfg, name);
    FolderLaidOut(fs, cfg, name);
    var fs1 := MakeDirs(fs, folder).value;
    var bytes := Payload(fs, cfg, name, gunzip);
    WriteLaidOut(fs1, cfg, name, bytes);
    assert dest[..|dest| - 1] == folder && src[|src| - 1] == name;
    assert OrganizeItem(fs, cfg, name, gunzip) == RunResult(fs1[dest := File(bytes)], Done);
  }

  /** In a laid-out processed, makedirs(folder) succeeds and keeps the layout; the destination is
      not a directory and the source is unchanged. */
  lemma FolderLaidOut(fs: FS, cfg: Config, name: Name)
    requires DirsAlong(fs, Output(cfg, OrganizeAndProcessFiles))
    requires FoldersOfFiles(fs, Output(cfg, OrganizeAndProcessFiles))
    ensures MakeDirs(fs, Folder(cfg, name)).Some?
    ensures var fs1 := MakeDirs(fs, Folder(cfg, name)).value;
      && DirsAlong(fs1, Output(cfg, OrganizeAndProcessFiles))
      && FoldersOfFiles(fs1, Output(cfg, OrganizeAndProcessFiles))
      && IsDir(fs1, Folder(cfg, name))
      && !IsDir(fs1, Destination(cfg, name))
      && (IsFile(fs, Source(cfg, name)) ==> fs1[Source(cfg, name)] == fs[Source(cfg, name)])
  {
    var processed := Output(cfg, OrganizeAndProcessFiles);
    var folder := Folder(cfg, name);
    var dest := Destination(cfg, name);
    DestinationShape(cfg, name);
    assert folder[..|processed|] == processed;
    forall k | 0 < k <= |folder| ensures !IsFile(fs, folder[..k]) {
      if k <= |processed| {
        assert folder[..k] == processed[..k];
      } else {
        assert folder[..k] == folder;
      }
    }
    var fs1 := MakeDirs(fs, folder).value;
    FolderEffect(fs, cfg, name);
    assert FoldersOfFiles(fs1, processed) by {
      forall q | q in fs1 && q !in fs && |q| == |processed| + 1
        ensures q == folder
      {
        assert folder[..|folder|] == folder;
      }
    }
    assert !IsDir(fs1, dest) by {
      assert dest[..|processed|] == processed;
    }
  }

  /** Writing a file at a member's destination keeps processed laid out. */
  lemma WriteLaidOut(fs: FS, cfg: Config, name: Name, bytes: Bytes)
    requires DirsAlong(fs, Output(cfg, OrganizeAndProcessFiles))
    requires FoldersOfFiles(fs, Output(cfg, OrganizeAndProcessFiles))
    ensures var fs2 := fs[Destination(cfg, name) := File(bytes)];
      && DirsAlong(fs2, Output(cfg, OrganizeAndProcessFiles))
      && FoldersOfFiles(fs2, Output(cfg, OrganizeAndProcessFiles))
  {
    var processed := Output(cfg, OrganizeAndProcessFiles);
    var dest := Destination(cfg, name);
    DestinationShape(cfg, name);
    assert dest[..|processed|] == processed;
  }

  /** The member loop finishes when processed is laid out as the loop lays it out and every
      member is a file whose stream, for .gz, is intact. */
  lemma {:induction false} ItemsSucceed(fs: FS, cfg: Config, names: seq<Name>, gunzip: Bytes -> Inflation)
    requires DirsAlong(fs, Output(cfg, OrganizeAndProcessFiles))
    requires FoldersOfFiles(fs, Output(cfg, OrganizeAndProcessFiles))
    requires forall k :: 0 <= k < |names| ==>
      IsFile(fs, Source(cfg, names[k])) &&
      (Ext(names[k]) == ".gz" ==> gunzip(fs[Source(cfg, names[k])].content).intact)
    ensures OrganizeItems(fs, cfg, names, gunzip).status.Done?
    decreases |names|
  {
    if names != [] {
      ItemSucceeds(fs, cfg, names[0], gunzip);
      var r0 := OrganizeItem(fs, cfg, names[0], gunzip);
      var rest := names[1..];
      forall k | 0 <= k < |rest|
        ensures IsFile(r0.fs, Source(cfg, rest[k])) && r0.fs[Source(cfg, rest[k])] == fs[Source(cfg, rest[k])]
      {
        assert rest[k] == names[k + 1];
        ItemEffect(fs, cfg, names[0], gunzip);
        SourceApart(cfg, names[0], rest[k]);
      }
      ItemsSucceed(r0.fs, cfg, rest, gunzip);
    }
  }

  /** The whole run finishes when output_dir/processed can be created, extracted is a directory,
      anything already in processed is laid out as the loop lays it out, and every member is a
      file whose stream, for .gz, is intact. */
  lemma OrganizeSucceeds(fs: FS, cfg: Config, listing: set<Name> -> seq<Name>, gunzip: Bytes -> Inflation)
    requires forall s :: IsListing(listing(s), s)
    requires MakeDirs(fs, Output(cfg, OrganizeAndProcessFiles)).Some?
    requires IsDir(fs, Output(cfg, VerifyAndExtractTar))
    requires FoldersOfFiles(fs, Output(cfg, OrganizeAndProcessFiles))
    requires forall n :: n in Children(fs, Output(cfg, VerifyAndExtractTar)) ==>
      IsFile(fs, Source(cfg, n)) && (Ext(n) == ".gz" ==> gunzip(fs[Source(cfg, n)].content).intact)
    ensures Organized(fs, cfg, listing, gunzip).status.Done?
  {
    var processed := Output(cfg, OrganizeAndProcessFiles);
    var extracted := Output(cfg, VerifyAndExtractTar);
    var fs1 := MakeDirs(fs, processed).value;
    ChildrenKeep(fs, fs1, processed, extracted);
    var names := listing(Children(fs1, extracted));
    assert IsListing(names, Children(fs, extracted));
    forall k | 0 <= k < |names|
      ensures IsFile(fs1, Source(cfg, names[k])) && fs1[Source(cfg, names[k])] == fs[Source(cfg, names[k])]
    {
      assert names[k] in Children(fs, extracted);
    }
    ItemsSucceed(fs1, cfg, names, gunzip);
    RemovalSucceeds(fs, cfg, listing, gunzip);
  }

  /** A run adds nothing but processed and its missing ancestors, the destinations of the members
      of extracted, and the folders above those destinations. */
  lemma OrganizeAddsAt(fs: FS, cfg: Config, listing: set<Name> -> seq<Name>,
                       gunzip: Bytes -> Inflation, q: Path)
    requires forall s :: IsListing(listing(s), s)
    requires q in Organized(fs, cfg, listing, gunzip).fs && q !in fs
    ensures || Under(Output(cfg, OrganizeAndProcessFiles), q)
            || exists n :: n in Children(fs, Output(cfg, VerifyAndExtractTar)) && Under(Destination(cfg, n), q)
  {
    var processed := Output(cfg, OrganizeAndProcessFiles);
    var extracted := Output(cfg, VerifyAndExtractTar);
    var fs1 := MakeDirs(fs, processed).value;
    if q in fs1 {
      assert Under(processed, q);
    } else {
      ChildrenKeep(fs, fs1, processed, extracted);
      var names := listing(Children(fs1, extracted));
      assert IsListing(names, Children(fs, extracted));
      var items := OrganizeItems(fs1, cfg, names, gunzip);
      assert q in items.fs;
      ItemsAdd(fs1, cfg, names, gunzip, q);
      var k :| 0 <= k < |names| && Under(Destination(cfg, names[k]), q);
      assert names[k] in Children(fs, extracted);
    }
  }
}
