/** RunExternalScript.run: create completed, then run the script on processed/<f>/<f> for every
    folder f of processed where that path is a file. A non-zero exit is logged and the loop goes
    on; only a script that cannot be started at all ends the run. */
module Dispatch {
  import opened Wrappers
  import opened FileSystem
  import opened Tasks
  import opened Stages

  /** What subprocess.run reports for one file: the exit status of the script, or that no process
      could be started (the interpreter is missing), which raises out of the loop. */
  datatype Launch = Exited(status: int) | NotStarted

  /** One run of the script on a file, with the exit status it returned. */
  datatype Call = Call(script: string, file: Path, status: int)

  /** The files dispatch hands to the script, in listing order: processed/<f>/<f> for each folder f
      where that path is a file. */
  function Targets(fs: FS, processed: Path, folders: seq<Name>): seq<Path>
    decreases |folders|
  {
    if folders == [] then []
    else
      var p := processed + [folders[0], folders[0]];
      (if IsFile(fs, p) then [p] else []) + Targets(fs, processed, folders[1..])
  }

  /** A path is a target exactly when it is processed/<f>/<f> for a listed folder f and is a
      file. */
  lemma {:induction false} TargetsSpec(fs: FS, processed: Path, folders: seq<Name>, p: Path)
    ensures p in Targets(fs, processed, folders) <==>
      IsFile(fs, p) && exists f :: f in folders && p == processed + [f, f]
    decreases |folders|
  {
    if folders != [] {
      TargetsSpec(fs, processed, folders[1..], p);
      var f0 := folders[0];
      if exists f :: f in folders && p == processed + [f, f] {
        var f :| f in folders && p == processed + [f, f];
        if f != f0 {
          assert f in folders[1..];
        }
      }
      if exists f :: f in folders[1..] && p == processed + [f, f] {
        var f :| f in folders[1..] && p == processed + [f, f];
        assert f in folders;
      }
    }
  }

  /** The script runs launched on targets, in order, up to the first that cannot be started. */
  function Launches(script: string, targets: seq<Path>, launch: Path -> Launch): (Status, seq<Call>)
    decreases |targets|
  {
    if targets == [] then (Done, [])
    else
      match launch(targets[0])
      case NotStarted => (Failed(CannotLaunch(targets[0])), [])
      case Exited(status) =>
        var rest := Launches(script, targets[1..], launch);
        (rest.0, [Call(script, targets[0], status)] + rest.1)
  }

  /** A non-zero exit never stops the loop: when every process starts, each target gets exactly
      one call, in order, whatever the statuses, and the run finishes. */
  lemma {:induction false} ExitStatusTolerated(script: string, targets: seq<Path>, launch: Path -> Launch)
    requires forall i :: 0 <= i < |targets| ==> launch(targets[i]).Exited?
    ensures var (status, calls) := Launches(script, targets, launch);
      && status == Done
      && |calls| == |targets|
      && forall i :: 0 <= i < |calls| ==> calls[i] == Call(script, targets[i], launch(targets[i]).status)
    decreases |targets|
  {
    if targets != [] {
      assert forall i :: 0 <= i < |targets[1..]| ==> targets[1..][i] == targets[i + 1];
      ExitStatusTolerated(script, targets[1..], launch);
    }
  }

  /** Every call runs the one script it was given, on one of the targets. */
  lemma {:induction false} LaunchesRunScript(script: string, targets: seq<Path>, launch: Path -> Launch)
    ensures forall c :: c in Launches(script, targets, launch).1 ==> c.script == script && c.file in targets
    decreases |targets|
  {
    if targets != [] && launch(targets[0]).Exited? {
      LaunchesRunScript(script, targets[1..], launch);
      forall c | c in Launches(script, targets, launch).1
        ensures c.script == script && c.file in targets
      {
        if c.file != targets[0] {
          assert c.file in targets[1..];
        }
      }
    }
  }

  /** calls made so far, followed by the outcome of the remaining launches. */
  function After(calls: seq<Call>, rest: (Status, seq<Call>)): (Status, seq<Call>) {
    (rest.0, calls + rest.1)
  }

  /** The loop over the folders of processed. */
  method LaunchAll(script: string, fs: FS, processed: Path, folders: seq<Name>, launch: Path -> Launch)
    returns (status: Status, calls: seq<Call>)
    ensures (status, calls) == Launches(script, Targets(fs, processed, folders), launch)
  {
    ghost var all := Launches(script, Targets(fs, processed, folders), launch);
    calls := [];
    assert folders[0..] == folders && [] + all.1 == all.1;
    for i := 0 to |folders|
      invariant After(calls, Launches(script, Targets(fs, processed, folders[i..]), launch)) == all
    {
      var folder := folders[i];
      var file := processed + [folder, folder];
      assert folders[i..][1..] == folders[i + 1..];
      ghost var rest := Targets(fs, processed, folders[i + 1..]);
      if IsFile(fs, file) {
        assert Targets(fs, processed, folders[i..]) == [file] + rest;
        match launch(file)
        case NotStarted =>
          assert calls + [] == calls;
          return Failed(CannotLaunch(file)), calls;
        case Exited(code) =>
          // a non-zero status is only logged
          var more := Launches(script, rest, launch);
          assert calls + ([Call(script, file, code)] + more.1) == (calls + [Call(script, file, code)]) + more.1;
          calls := calls + [Call(script, file, code)];
      } else {
        assert Targets(fs, processed, folders[i..]) == rest;
      }
    }
    assert folders[|folders|..] == [] && calls + [] == calls;
    return Done, calls;
  }

  /** What run() does, as a function: makedirs(completed), then the launches over the targets
      listed in processed. */
  function Dispatched(fs: FS, cfg: Config, listing: set<Name> -> seq<Name>, launch: Path -> Launch)
    : (RunResult, seq<Call>)
  {
    var completed := Output(cfg, RunExternalScript);
    var processed := Output(cfg, OrganizeAndProcessFiles);
    match MakeDirs(fs, completed)
    case None => (RunResult(fs, Failed(CannotCreate(completed))), [])
    case Some(fs1) =>
      if !IsDir(fs1, processed) then (RunResult(fs1, Failed(CannotList(processed))), [])
      else
        var (status, calls) := Launches(cfg.scriptPath, Targets(fs1, processed, listing(Children(fs1, processed))), launch);
        (RunResult(fs1, status), calls)
  }

  /** The whole run(): makedirs(completed) first, then list processed and launch the script on
      every target. The script's own effect on the filesystem is not part of the model. */
  method RunScript(fs: FS, cfg: Config, listing: set<Name> -> seq<Name>, launch: Path -> Launch)
    returns (r: RunResult, calls: seq<Call>)
    ensures var completed := Output(cfg, RunExternalScript);
      var processed := Output(cfg, OrganizeAndProcessFiles);
      var made := MakeDirs(fs, completed);
      && (made.None? ==> r == RunResult(fs, Failed(CannotCreate(completed))) && calls == [])
      && (made.Some? ==> r.fs == made.value)
      && (made.Some? && !IsDir(made.value, processed) ==>
            r.status == Failed(CannotList(processed)) && calls == [])
      && (made.Some? && IsDir(made.value, processed) ==>
            (r.status, calls) ==
            Launches(cfg.scriptPath, Targets(made.value, processed, listing(Children(made.value, processed))), launch))
      && (r, calls) == Dispatched(fs, cfg, listing, launch)
  {
    var completed := Output(cfg, RunExternalScript);
    var processed := Output(cfg, OrganizeAndProcessFiles);
    var made := MakeDirs(fs, completed);
    if made.None? {
      return RunResult(fs, Failed(CannotCreate(completed))), [];
    }
    var cur := made.value;
    if !IsDir(cur, processed) {
      return RunResult(cur, Failed(CannotList(processed))), [];
    }
    var status;
    status, calls := LaunchAll(cfg.scriptPath, cur, processed, listing(Children(cur, processed)), launch);
    r := RunResult(cur, status);
  }

  /** What RunScript hands to the script after its makedirs(completed): processed/<f>/<f> exactly
      when f is an entry of processed and that path was already a file. */
  lemma DispatchedExactly(fs: FS, cfg: Config, listing: set<Name> -> seq<Name>, f: Name)
    requires forall s :: IsListing(listing(s), s)
    requires MakeDirs(fs, Output(cfg, RunExternalScript)).Some?
    ensures var fs2 := MakeDirs(fs, Output(cfg, RunExternalScript)).value;
      var processed := Output(cfg, OrganizeAndProcessFiles);
      processed + [f, f] in Targets(fs2, processed, listing(Children(fs2, processed))) <==>
        IsFile(fs, processed + [f, f]) && f in Children(fs, processed)
  {
    var completed := Output(cfg, RunExternalScript);
    var processed := Output(cfg, OrganizeAndProcessFiles);
    var fs2 := MakeDirs(fs, completed).value;
    var p := processed + [f, f];
    ChildrenKeep(fs, fs2, completed, processed);
    assert IsFile(fs2, p) <==> IsFile(fs, p) by {
      assert |p| != |completed| || p !in fs2 || p in fs;
    }
    var folders := listing(Children(fs2, processed));
    assert IsListing(folders, Children(fs, processed));
    TargetsSpec(fs2, processed, folders, p);
    if exists h :: h in folders && p == processed + [h, h] {
      var h :| h in folders && p == processed + [h, h];
      assert p[|processed|] == h;
    }
  }

  /** completed is created before any file is dispatched, so once makedirs(completed) has
      succeeded luigi counts RunExternalScript as complete, even when the script could not be
      started for the first file or no file was dispatched at all. */
  lemma CompletedBeforeLoop(fs: FS, cfg: Config)
    requires MakeDirs(fs, Output(cfg, RunExternalScript)).Some?
    ensures var fs2 := MakeDirs(fs, Output(cfg, RunExternalScript)).value;
      IsDir(fs2, Output(cfg, RunExternalScript)) && Schedule(fs2, cfg, RunExternalScript) == []
  {
    var completed := Output(cfg, RunExternalScript);
    assert completed[..|completed|] == completed;
  }
}
