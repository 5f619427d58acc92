/** The four luigi tasks of pipeline.py as a dependency chain: each task's output target, the task
    it requires, and the order in which luigi runs them. A task counts as complete exactly when its
    output path exists, whatever that path holds. */
module Tasks {
  import opened Wrappers
  import opened FileSystem

  datatype Task = DownloadFile | VerifyAndExtractTar | OrganizeAndProcessFiles | RunExternalScript

  /** The luigi parameters: url and output_dir are shared by every task, delete_archives defaults
      to true and script_path to "toTabs.py". */
  datatype Config = Config(url: string, outputDir: Path, deleteArchives: bool, scriptPath: string)

  function DefaultConfig(url: string, outputDir: Path): (cfg: Config)
    ensures cfg.deleteArchives && cfg.scriptPath == "toTabs.py"
  {
    Config(url, outputDir, true, "toTabs.py")
  }

  function OutputName(t: Task): Name {
    match t
    case DownloadFile => "archive.tar"
    case VerifyAndExtractTar => "extracted"
    case OrganizeAndProcessFiles => "processed"
    case RunExternalScript => "completed"
  }

  /** output(): the LocalTarget of each task, a fixed name inside output_dir. */
  function Output(cfg: Config, t: Task): (p: Path)
    ensures |p| == |cfg.outputDir| + 1 && p[..|cfg.outputDir|] == cfg.outputDir
  {
    cfg.outputDir + [OutputName(t)]
  }

  /** Different tasks have different targets, and none lies inside another's. */
  lemma OutputsSeparate(cfg: Config, t: Task, u: Task)
    requires t != u
    ensures Output(cfg, t) != Output(cfg, u)
    ensures !Under(Output(cfg, t), Output(cfg, u))
  {
    var n := |cfg.outputDir|;
    assert Output(cfg, t)[n] == OutputName(t);
    assert Output(cfg, u)[n] == OutputName(u);
  }

  /** requires(): each task needs the one before it; DownloadFile needs nothing. */
  function Requires(t: Task): Option<Task> {
    match t
    case DownloadFile => None
    case VerifyAndExtractTar => Some(DownloadFile)
    case OrganizeAndProcessFiles => Some(VerifyAndExtractTar)
    case RunExternalScript => Some(OrganizeAndProcessFiles)
  }

  /** The position of a task in the chain. */
  function Rank(t: Task): nat {
    match t
    case DownloadFile => 0
    case VerifyAndExtractTar => 1
    case OrganizeAndProcessFiles => 2
    case RunExternalScript => 3
  }

  /** The dependencies form one chain: exactly DownloadFile has none, and every other task needs
      the task of the rank just below its own. */
  lemma RequiresIsChain(t: Task)
    ensures Requires(t).None? <==> t == DownloadFile
    ensures Requires(t).Some? ==> Rank(Requires(t).value) + 1 == Rank(t)
  {
  }

  /** The task and everything it transitively requires, most upstream first. */
  function Chain(t: Task): (c: seq<Task>)
    ensures |c| == Rank(t) + 1
    ensures c[0] == DownloadFile && c[|c| - 1] == t
    decreases Rank(t)
  {
    match Requires(t)
    case None => [t]
    case Some(u) => Chain(u) + [t]
  }

  /** Along the chain each task requires the one before it. */
  lemma {:induction false} ChainLinked(t: Task)
    ensures var c := Chain(t);
      forall i :: 0 < i < |c| ==> Requires(c[i]) == Some(c[i - 1])
    decreases Rank(t)
  {
    if Requires(t).Some? {
      var u := Requires(t).value;
      ChainLinked(u);
      var c := Chain(t);
      assert c == Chain(u) + [t];
    }
  }

  /** luigi's scheduling of t: nothing when t's output exists; otherwise whatever its requirement
      needs, then t itself. Only the presence of output paths is consulted. */
  function Schedule(fs: FS, cfg: Config, t: Task): (plan: seq<Task>)
    ensures plan == [] <==> Output(cfg, t) in fs
    ensures plan != [] ==> plan[|plan| - 1] == t
    ensures plan != [] && Requires(plan[0]).Some? ==> Output(cfg, Requires(plan[0]).value) in fs
    decreases Rank(t)
  {
    if Output(cfg, t) in fs then []
    else
      match Requires(t)
      case None => [t]
      case Some(u) => Schedule(fs, cfg, u) + [t]
  }

  /** Every task luigi schedules has its output missing. */
  lemma {:induction false} ScheduleAllMissing(fs: FS, cfg: Config, t: Task)
    ensures var plan := Schedule(fs, cfg, t);
      forall i :: 0 <= i < |plan| ==> Output(cfg, plan[i]) !in fs
    decreases Rank(t)
  {
    if Output(cfg, t) !in fs && Requires(t).Some? {
      var u := Requires(t).value;
      ScheduleAllMissing(fs, cfg, u);
      var p := Schedule(fs, cfg, u);
      assert Schedule(fs, cfg, t) == p + [t];
    }
  }

  /** p is a tail of c. */
  predicate IsSuffix(p: seq<Task>, c: seq<Task>) {
    |p| <= |c| && p == c[|c| - |p|..]
  }

  /** What luigi runs is always a tail of the chain: the most downstream tasks whose outputs are
      missing. */
  lemma {:induction false} ScheduleIsChainSuffix(fs: FS, cfg: Config, t: Task)
    ensures IsSuffix(Schedule(fs, cfg, t), Chain(t))
    decreases Rank(t)
  {
    var c := Chain(t);
    var plan := Schedule(fs, cfg, t);
    if Output(cfg, t) in fs {
      assert plan == [] && c[|c|..] == [];
    } else if Requires(t).None? {
      assert plan == [t] && c == [t];
    } else {
      ScheduleIsChainSuffix(fs, cfg, Requires(t).value);
      SuffixStep(fs, cfg, t);
    }
  }

  /** A task whose output is missing extends its requirement's schedule and chain alike. */
  lemma SuffixStep(fs: FS, cfg: Config, t: Task)
    requires Output(cfg, t) !in fs && Requires(t).Some?
    requires IsSuffix(Schedule(fs, cfg, Requires(t).value), Chain(Requires(t).value))
    ensures IsSuffix(Schedule(fs, cfg, t), Chain(t))
  {
    var u := Requires(t).value;
    SuffixExtend(Chain(u), Schedule(fs, cfg, u), t, Chain(t), Schedule(fs, cfg, t));
  }

  /** Each task luigi runs requires the one it ran just before. */
  lemma {:induction false} ScheduleLinked(fs: FS, cfg: Config, t: Task)
    ensures var plan := Schedule(fs, cfg, t);
      forall i :: 0 < i < |plan| ==> Requires(plan[i]) == Some(plan[i - 1])
    decreases Rank(t)
  {
    if Output(cfg, t) !in fs && Requires(t).Some? {
      var u := Requires(t).value;
      ScheduleLinked(fs, cfg, u);
      var plan := Schedule(fs, cfg, t);
      assert plan == Schedule(fs, cfg, u) + [t];
    }
  }

  lemma SuffixExtend(c: seq<Task>, p: seq<Task>, t: Task, c': seq<Task>, p': seq<Task>)
    requires IsSuffix(p, c)
    requires c' == c + [t] && p' == p + [t]
    ensures IsSuffix(p', c')
  {
    assert c'[|c| - |p|..] == c[|c| - |p|..] + [t];
  }

  /** Two filesystems on which the same task outputs exist get the same schedule, whatever the
      outputs contain. */
  lemma {:induction false} PresenceOnly(fs1: FS, fs2: FS, cfg: Config, t: Task)
    requires forall u :: Output(cfg, u) in fs1 <==> Output(cfg, u) in fs2
    ensures Schedule(fs1, cfg, t) == Schedule(fs2, cfg, t)
    decreases Rank(t)
  {
    match Requires(t)
    case None =>
    case Some(u) => PresenceOnly(fs1, fs2, cfg, u);
  }
}
