/** luigi.run() on a root task (RunExternalScript when the whole pipeline is wanted): the tasks
    whose outputs are missing run one after another,
    most upstream first, and the first task that raises stops the run. The outside world each
    task talks to is fixed up front in an environment. */
module Runner {
  import opened Wrappers
  import opened FileSystem
  import opened Tasks
  import opened Stages
  import Organize
  import Dispatch

  /** What the network, tarfile, gzip, os.listdir and subprocess answer during one run. */
  datatype Env = Env(
    fetch: Fetch,
    readTar: Bytes -> Option<seq<Member>>,
    gunzip: Bytes -> Organize.Inflation,
    listing: set<Name> -> seq<Name>,
    launch: Path -> Dispatch.Launch)

  /** What one task's run() does to the filesystem, with the script calls it makes. */
  function Stage(fs: FS, cfg: Config, env: Env, t: Task): (RunResult, seq<Dispatch.Call>) {
    match t
    case DownloadFile => (Download(fs, cfg, env.fetch), [])
    case VerifyAndExtractTar => (Extract(fs, cfg, env.readTar), [])
    case OrganizeAndProcessFiles => (Organize.Organized(fs, cfg, env.listing, env.gunzip), [])
    case RunExternalScript => Dispatch.Dispatched(fs, cfg, env.listing, env.launch)
  }

  /** Running tasks one after another from fs: each starts on what the one before it left, and
      the first that raises ends the run with its result. The calls are those of every task run. */
  function RunAll(fs: FS, cfg: Config, env: Env, tasks: seq<Task>): (RunResult, seq<Dispatch.Call>)
    decreases |tasks|
  {
    if tasks == [] then (RunResult(fs, Done), [])
    else
      var before := RunAll(fs, cfg, env, tasks[..|tasks| - 1]);
      if before.0.status.Failed? then before
      else
        var last := Stage(before.0.fs, cfg, env, tasks[|tasks| - 1]);
        (last.0, before.1 + last.1)
  }

  /** One more task after a finished run starts on the filesystem that run left; after a failed
      run nothing more happens. */
  lemma RunAllStep(fs: FS, cfg: Config, env: Env, tasks: seq<Task>, t: Task)
    ensures var before := RunAll(fs, cfg, env, tasks);
      var last := Stage(before.0.fs, cfg, env, t);
      RunAll(fs, cfg, env, tasks + [t]) ==
        if before.0.status.Failed? then before else (last.0, before.1 + last.1)
  {
    assert (tasks + [t])[..|tasks + [t]| - 1] == tasks;
  }

  /** One more task after a finished run: the new run is that task's stage on what the run left,
      and dropping the task gives the finished run back. */
  lemma RunAllExtend(fs: FS, cfg: Config, env: Env, tasks: seq<Task>, t: Task)
    requires RunAll(fs, cfg, env, tasks).0.status.Done?
    ensures var before := RunAll(fs, cfg, env, tasks);
      var last := Stage(before.0.fs, cfg, env, t);
      RunAll(fs, cfg, env, tasks + [t]) == (last.0, before.1 + last.1)
    ensures (tasks + [t])[..|tasks|] == tasks
  {
    RunAllStep(fs, cfg, env, tasks, t);
  }

  /** A run that finished finished every shorter run of its first tasks too: when the run over
      tasks stops at a failure, all tasks before the one that raised had finished. */
  lemma {:induction false} RunAllPrefixDone(fs: FS, cfg: Config, env: Env, tasks: seq<Task>, i: nat)
    requires i <= |tasks| && RunAll(fs, cfg, env, tasks).0.status.Done?
    ensures RunAll(fs, cfg, env, tasks[..i]).0.status.Done?
    decreases |tasks|
  {
    if i < |tasks| {
      var init := tasks[..|tasks| - 1];
      assert init[..i] == tasks[..i];
      RunAllPrefixDone(fs, cfg, env, init, i);
    } else {
      assert tasks[..i] == tasks;
    }
  }

  /** A failed run keeps failing whatever tasks are scheduled after it: once the run over the
      first i tasks has failed, the run over all of them is that same run, so nothing runs past
      the task that raised. */
  lemma {:induction false} RunAllStopsAtFailure(fs: FS, cfg: Config, env: Env, tasks: seq<Task>, i: nat)
    requires i <= |tasks| && RunAll(fs, cfg, env, tasks[..i]).0.status.Failed?
    ensures RunAll(fs, cfg, env, tasks) == RunAll(fs, cfg, env, tasks[..i])
    decreases |tasks|
  {
    if i < |tasks| {
      var init := tasks[..|tasks| - 1];
      assert init[..i] == tasks[..i];
      RunAllStopsAtFailure(fs, cfg, env, init, i);
    } else {
      assert tasks[..i] == tasks;
    }
  }

  /** One task's run(). Whenever it returns normally its output exists, which is all luigi asks
      of a finished task. */
  method RunTask(fs: FS, cfg: Config, env: Env, t: Task) returns (r: RunResult, calls: seq<Dispatch.Call>)
    ensures r.status.Done? ==> Output(cfg, t) in r.fs
    ensures (r, calls) == Stage(fs, cfg, env, t)
  {
    StageOutput(fs, cfg, env, t);
    calls := [];
    match t {
      case DownloadFile =>
        r := Download(fs, cfg, env.fetch);
      case VerifyAndExtractTar =>
        r := Extract(fs, cfg, env.readTar);
      case OrganizeAndProcessFiles =>
        r := Organize.Organize(fs, cfg, env.listing, env.gunzip);
      case RunExternalScript =>
        r, calls := Dispatch.RunScript(fs, cfg, env.listing, env.launch);
    }
  }

  /** A stage that returns normally leaves its task's output in place. */
  lemma StageOutput(fs: FS, cfg: Config, env: Env, t: Task)
    ensures var s := Stage(fs, cfg, env, t);
      s.0.status.Done? ==> Output(cfg, t) in s.0.fs
  {
    match t
    case DownloadFile =>
      DownloadSpec(fs, cfg, env.fetch);
    case VerifyAndExtractTar =>
      if MakeDirs(fs, Output(cfg, VerifyAndExtractTar)).Some? {
        ExtractChecksFirst(fs, cfg, env.readTar);
      }
    case OrganizeAndProcessFiles =>
      if MakeDirs(fs, Output(cfg, OrganizeAndProcessFiles)).Some? {
        Organize.ProcessedSurvives(fs, cfg, env.listing, env.gunzip);
      }
    case RunExternalScript =>
      if MakeDirs(fs, Output(cfg, RunExternalScript)).Some? {
        Dispatch.CompletedBeforeLoop(fs, cfg);
      }
  }

  /** A finished run of luigi's whole schedule for a root task leaves nothing to do: its last task
      is the root, whose output it created. */
  lemma RunAllLeavesNothing(fs: FS, cfg: Config, env: Env, root: Task)
    ensures var run := RunAll(fs, cfg, env, Schedule(fs, cfg, root));
      run.0.status.Done? ==> Schedule(run.0.fs, cfg, root) == []
  {
    var plan := Schedule(fs, cfg, root);
    if plan != [] {
      var before := RunAll(fs, cfg, env, plan[..|plan| - 1]);
      StageOutput(before.0.fs, cfg, env, root);
    }
  }

  /** The scheduler loop. The tasks that ran are always the first ones of the schedule; a finished
      run has run all of them and leaves nothing for the next run to do; when there was nothing to
      do the filesystem is untouched; a failed run stops at the task that raised. */
  method RunPipeline(fs: FS, cfg: Config, env: Env, root: Task)
    returns (r: RunResult, ran: seq<Task>, calls: seq<Dispatch.Call>)
    ensures var plan := Schedule(fs, cfg, root);
      && |ran| <= |plan| && ran == plan[..|ran|]
      && (r, calls) == RunAll(fs, cfg, env, ran)
      && (r.status.Done? ==> ran == plan && Schedule(r.fs, cfg, root) == [])
      && (r.status.Failed? ==> ran != [] && RunAll(fs, cfg, env, ran[..|ran| - 1]).0.status.Done?)
      && (plan == [] ==> r == RunResult(fs, Done) && calls == [])
  {
    var plan := Schedule(fs, cfg, root);
    var run := (RunResult(fs, Done), []);
    ran := [];
    var i := 0;
    while i < |plan| && run.0.status.Done?
      invariant i <= |plan| && ran == plan[..i]
      invariant run == RunAll(fs, cfg, env, ran)
      invariant run.0.status.Failed? ==> ran != [] && RunAll(fs, cfg, env, ran[..|ran| - 1]).0.status.Done?
    {
      var t := plan[i];
      PrefixGrows(plan, i);
      RunAllExtend(fs, cfg, env, ran, t);
      var res, out := RunTask(run.0.fs, cfg, env, t);
      ran := ran + [t];
      run := (res, run.1 + out);
      i := i + 1;
    }
    PrefixGrows(plan, |plan|);
    RunAllLeavesNothing(fs, cfg, env, root);
    r, calls := run.0, run.1;
  }

  /** With delete_archives at its default, a finished OrganizeAndProcessFiles leaves nothing
      inside extracted. */
  lemma DefaultRemovesExtracted(url: string, outputDir: Path, fs: FS, env: Env)
    ensures var cfg := DefaultConfig(url, outputDir);
      var r := Stage(fs, cfg, env, OrganizeAndProcessFiles).0;
      r.status.Done? ==> forall q :: Under(q, Output(cfg, VerifyAndExtractTar)) ==> q !in r.fs
  {
    Organize.RemovedWhenDone(fs, DefaultConfig(url, outputDir), env.listing, env.gunzip);
  }

  /** With script_path at its default, every script call of a run, over any tasks, runs
      toTabs.py. */
  lemma {:induction false} DefaultRunsToTabs(url: string, outputDir: Path, fs: FS, env: Env, tasks: seq<Task>)
    ensures forall c :: c in RunAll(fs, DefaultConfig(url, outputDir), env, tasks).1 ==> c.script == "toTabs.py"
    decreases |tasks|
  {
    var cfg := DefaultConfig(url, outputDir);
    if tasks != [] {
      var init := tasks[..|tasks| - 1];
      DefaultRunsToTabs(url, outputDir, fs, env, init);
      var before := RunAll(fs, cfg, env, init);
      if before.0.status.Done? && tasks[|tasks| - 1] == RunExternalScript {
        StageRunsScript(before.0.fs, cfg, env);
      }
    }
  }

  /** The script calls of RunExternalScript all run script_path. */
  lemma StageRunsScript(fs: FS, cfg: Config, env: Env)
    ensures forall c :: c in Stage(fs, cfg, env, RunExternalScript).1 ==> c.script == cfg.scriptPath
  {
    var processed := Output(cfg, OrganizeAndProcessFiles);
    var made := MakeDirs(fs, Output(cfg, RunExternalScript));
    if made.Some? && IsDir(made.value, processed) {
      var fs1 := made.value;
      Dispatch.LaunchesRunScript(cfg.scriptPath, Dispatch.Targets(fs1, processed, env.listing(Children(fs1, processed))), env.launch);
    }
  }

  /** Taking one more task of the schedule appends that task; taking all of it gives it back. */
  lemma PrefixGrows(plan: seq<Task>, i: nat)
    requires i <= |plan|
    ensures i < |plan| ==> plan[..i + 1] == plan[..i] + [plan[i]]
    ensures i == |plan| ==> plan[..i] == plan
  {
  }
}
