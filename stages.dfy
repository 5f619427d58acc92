/** What one run() of DownloadFile or VerifyAndExtractTar does to the filesystem. A run either
    finishes or raises part-way; in both cases the filesystem keeps every change made before the
    exception, which luigi may later take for a finished output. */
module Stages {
  import opened Wrappers
  import opened FileSystem
  import opened Tasks

  /** Why a run() raised. */
  datatype Failure =
    | CannotCreate(dir: Path)   // os.makedirs met a file on the way
    | RequestFailed             // requests.get raised before any byte was written
    | StreamBroken              // the response body broke off after part of it was written
    | CannotWrite(path: Path)   // open(path, "wb") raised
    | IntegrityCheckFailed      // tarfile.open or getmembers raised
    | CannotList(dir: Path)     // os.listdir on a path that is not a directory
    | CannotRead(path: Path)    // opening a member for reading raised
    | CannotCopy(path: Path)    // shutil.copy raised
    | CorruptMember(path: Path) // gzip found the member's stream damaged
    | CannotRemove(dir: Path)   // shutil.rmtree on a path that is not a directory
    | CannotLaunch(file: Path)  // subprocess.run could not start the script

  datatype Status = Done | Failed(failure: Failure)

  /** The filesystem a run() leaves behind, and whether it returned or raised. */
  datatype RunResult = RunResult(fs: FS, status: Status)

  /** What requests.get(url, stream=True) and iter_content deliver. Any HTTP status counts as a
      body, since the response status is never checked. */
  datatype Fetch = Body(data: Bytes) | RequestError | BrokenStream(received: Bytes)

  /** DownloadFile.run: create output_dir, then stream the body into output_dir/archive.tar. */
  function Download(fs: FS, cfg: Config, fetch: Fetch): RunResult {
    var archive := Output(cfg, DownloadFile);
    match MakeDirs(fs, cfg.outputDir)
    case None => RunResult(fs, Failed(CannotCreate(cfg.outputDir)))
    case Some(fs1) =>
      match fetch
      case RequestError => RunResult(fs1, Failed(RequestFailed))
      case Body(data) =>
        (match WriteFile(fs1, archive, data)
         case None => RunResult(fs1, Failed(CannotWrite(archive)))
         case Some(fs2) => RunResult(fs2, Done))
      case BrokenStream(received) =>
        (match WriteFile(fs1, archive, received)
         case None => RunResult(fs1, Failed(CannotWrite(archive)))
         case Some(fs2) => RunResult(fs2, Failed(StreamBroken)))
  }

  /** A download finishes exactly when the body arrives whole, output_dir can be created and
      archive.tar is not a directory; the archive then holds the body. Besides output_dir and its
      missing ancestors, only archive.tar changes. */
  lemma DownloadSpec(fs: FS, cfg: Config, fetch: Fetch)
    ensures var r := Download(fs, cfg, fetch);
      var archive := Output(cfg, DownloadFile);
      && (r.status.Done? <==>
            fetch.Body? && MakeDirs(fs, cfg.outputDir).Some? && !IsDir(fs, archive))
      && (r.status.Done? ==> r.fs[archive] == File(fetch.data))
      && (forall q :: q in fs && q != archive ==> q in r.fs && r.fs[q] == fs[q])
      && (forall q :: q in r.fs && q !in fs ==> q == archive || Under(cfg.outputDir, q))
  {
    var archive := Output(cfg, DownloadFile);
    var r := Download(fs, cfg, fetch);
    if MakeDirs(fs, cfg.outputDir).Some? {
      var fs1 := MakeDirs(fs, cfg.outputDir).value;
      assert archive[..|archive| - 1] == cfg.outputDir;
      assert cfg.outputDir[..|cfg.outputDir|] == cfg.outputDir;
      assert IsDir(fs1, archive) == IsDir(fs, archive);
      forall q | q in r.fs && q !in fs && q != archive ensures Under(cfg.outputDir, q) {
        assert q in fs1;
      }
    }
  }

  /** A body that breaks off leaves a partial archive.tar behind, and luigi then counts
      DownloadFile as complete: the next run does not download again. */
  lemma BrokenDownloadLooksComplete(fs: FS, cfg: Config, received: Bytes)
    requires MakeDirs(fs, cfg.outputDir).Some? && !IsDir(fs, Output(cfg, DownloadFile))
    ensures var r := Download(fs, cfg, BrokenStream(received));
      && r.status == Failed(StreamBroken)
      && r.fs[Output(cfg, DownloadFile)] == File(received)
      && Schedule(r.fs, cfg, DownloadFile) == []
  {
    var archive := Output(cfg, DownloadFile);
    var fs1 := MakeDirs(fs, cfg.outputDir).value;
    assert archive[..|archive| - 1] == cfg.outputDir;
    assert cfg.outputDir[..|cfg.outputDir|] == cfg.outputDir;
    assert IsDir(fs1, archive) == IsDir(fs, archive);
  }

  /** A member of the archive as tarfile lists it: a flat file name and its bytes. */
  datatype Member = Member(name: Name, data: Bytes)

  /** No later member of ms has the same name as ms[i]. */
  predicate LastOfName(ms: seq<Member>, i: int)
    requires 0 <= i < |ms|
  {
    forall j :: i < j < |ms| ==> ms[j].name != ms[i].name
  }

  /** extractall: writes each member into dir in archive order, stopping at the first that cannot
      be written. Only dir/<member name> paths change. */
  function ExtractAll(fs: FS, dir: Path, ms: seq<Member>): (r: RunResult)
    ensures forall q :: q in fs ==> q in r.fs
    ensures forall q :: q in r.fs && (q !in fs || r.fs[q] != fs[q]) ==>
      |q| == |dir| + 1 && q[..|dir|] == dir
    decreases |ms|
  {
    if ms == [] then RunResult(fs, Done)
    else
      var p := dir + [ms[0].name];
      match WriteFile(fs, p, ms[0].data)
      case None => RunResult(fs, Failed(CannotWrite(p)))
      case Some(fs1) => ExtractAll(fs1, dir, ms[1..])
  }

  /** After a finished extractall a member that no later member renames is a file under dir
      holding its bytes. */
  lemma {:induction false} ExtractAllPlacesMember(fs: FS, dir: Path, ms: seq<Member>, i: nat)
    requires ExtractAll(fs, dir, ms).status.Done?
    requires i < |ms| && LastOfName(ms, i)
    ensures var r := ExtractAll(fs, dir, ms);
      dir + [ms[i].name] in r.fs && r.fs[dir + [ms[i].name]] == File(ms[i].data)
    decreases |ms|
  {
    var p := dir + [ms[0].name];
    assert WriteFile(fs, p, ms[0].data).Some?;
    var fs1 := WriteFile(fs, p, ms[0].data).value;
    assert ExtractAll(fs, dir, ms) == ExtractAll(fs1, dir, ms[1..]);
    if i > 0 {
      assert ms[1..][i - 1] == ms[i];
      assert LastOfName(ms[1..], i - 1);
      ExtractAllPlacesMember(fs1, dir, ms[1..], i - 1);
    } else {
      ExtractAllKeeps(fs1, dir, ms[1..], ms[0].name);
    }
  }

  /** After a finished extractall every member is a file under dir holding the bytes of the last
      member of that name. */
  lemma ExtractAllPlacesMembers(fs: FS, dir: Path, ms: seq<Member>)
    requires ExtractAll(fs, dir, ms).status.Done?
    ensures var r := ExtractAll(fs, dir, ms);
      forall i :: 0 <= i < |ms| && LastOfName(ms, i) ==>
        dir + [ms[i].name] in r.fs && r.fs[dir + [ms[i].name]] == File(ms[i].data)
  {
    forall i | 0 <= i < |ms| && LastOfName(ms, i) {
      ExtractAllPlacesMember(fs, dir, ms, i);
    }
  }

  /** extractall leaves dir/<n> alone when no member is called n. */
  lemma {:induction false} ExtractAllKeeps(fs: FS, dir: Path, ms: seq<Member>, n: Name)
    requires dir + [n] in fs
    requires forall j :: 0 <= j < |ms| ==> ms[j].name != n
    ensures ExtractAll(fs, dir, ms).fs[dir + [n]] == fs[dir + [n]]
    decreases |ms|
  {
    if ms != [] {
      var p := dir + [ms[0].name];
      match WriteFile(fs, p, ms[0].data)
      case None =>
      case Some(fs1) =>
        assert p != dir + [n] by {
          assert p[|dir|] != (dir + [n])[|dir|];
        }
        ExtractAllKeeps(fs1, dir, ms[1..], n);
    }
  }

  /** VerifyAndExtractTar.run: create extracted, check the archive can be opened and listed, and
      only then extract its members into extracted. */
  function Extract(fs: FS, cfg: Config, readTar: Bytes -> Option<seq<Member>>): RunResult {
    var archive := Output(cfg, DownloadFile);
    var dir := Output(cfg, VerifyAndExtractTar);
    match MakeDirs(fs, dir)
    case None => RunResult(fs, Failed(CannotCreate(dir)))
    case Some(fs1) =>
      if !IsFile(fs1, archive) || readTar(fs1[archive].content).None? then
        RunResult(fs1, Failed(IntegrityCheckFailed))
      else
        ExtractAll(fs1, dir, readTar(fs1[archive].content).value)
  }

  /** extracted is created before the integrity check, so it exists after every run that got past
      makedirs, and luigi then counts VerifyAndExtractTar as complete. When the check fails nothing
      has been extracted: the run raised before extractall. */
  lemma ExtractChecksFirst(fs: FS, cfg: Config, readTar: Bytes -> Option<seq<Member>>)
    requires MakeDirs(fs, Output(cfg, VerifyAndExtractTar)).Some?
    ensures var r := Extract(fs, cfg, readTar);
      var fs1 := MakeDirs(fs, Output(cfg, VerifyAndExtractTar)).value;
      var archive := Output(cfg, DownloadFile);
      && IsDir(r.fs, Output(cfg, VerifyAndExtractTar))
      && Schedule(r.fs, cfg, VerifyAndExtractTar) == []
      && (!IsFile(fs, archive) || readTar(fs[archive].content).None? ==>
            r == RunResult(fs1, Failed(IntegrityCheckFailed)))
  {
    var dir := Output(cfg, VerifyAndExtractTar);
    var archive := Output(cfg, DownloadFile);
    var fs1 := MakeDirs(fs, dir).value;
    assert dir[..|dir|] == dir;
    OutputsSeparate(cfg, DownloadFile, VerifyAndExtractTar);
    assert archive in fs1 && fs1[archive] != Dir ==> archive in fs && fs1[archive] == fs[archive];
    assert IsFile(fs1, archive) <==> IsFile(fs, archive);
  }

  /** A finished extraction leaves each member as a file in extracted, holding the bytes of the last
      member of that name. */
  lemma ExtractPlacesMembers(fs: FS, cfg: Config, readTar: Bytes -> Option<seq<Member>>)
    requires Extract(fs, cfg, readTar).status.Done?
    ensures var r := Extract(fs, cfg, readTar);
      var archive := Output(cfg, DownloadFile);
      var dir := Output(cfg, VerifyAndExtractTar);
      && IsFile(fs, archive) && readTar(fs[archive].content).Some?
      && var ms := readTar(fs[archive].content).value;
      forall i :: 0 <= i < |ms| && LastOfName(ms, i) ==>
        dir + [ms[i].name] in r.fs && r.fs[dir + [ms[i].name]] == File(ms[i].data)
  {
    var dir := Output(cfg, VerifyAndExtractTar);
    var archive := Output(cfg, DownloadFile);
    var fs1 := MakeDirs(fs, dir).value;
    OutputsSeparate(cfg, DownloadFile, VerifyAndExtractTar);
    assert archive in fs1 && fs1[archive] != Dir ==> archive in fs && fs1[archive] == fs[archive];
    ExtractAllPlacesMembers(fs1, dir, readTar(fs1[archive].content).value);
  }
}
