# Archive pipeline and section splitter, in Dafny

This project models two Python programs.

**`toTabs.py`** reads a text file line by line. A line that starts with `[` after stripping
whitespace opens a section named by that line without its first and last character. Every other
line becomes a row: the stripped line split at tab characters. Rows before the first header are
dropped, and a section name that comes back replaces the earlier table. Each section is written
to `<name>.tsv` in a directory `output` next to the input file. The model parses the lines with a
loop (`ToTabs.SplitSections`) and proves that it agrees with a recursive definition of the
sections (`ToTabs.Sections`). That definition is then characterised: which names appear, which
occurrence wins, and that leading rows vanish.

**`pipeline.py`** is a luigi chain of four tasks:

- `DownloadFile` writes `output_dir/archive.tar`;
- `VerifyAndExtractTar` unpacks it into `output_dir/extracted`;
- `OrganizeAndProcessFiles` copies or decompresses every member into `output_dir/processed/<base>/`
  (`.gz` members are decompressed, the rest copied), then removes `extracted` when `delete_archives`
  is set;
- `RunExternalScript` creates `output_dir/completed` and runs the script on every
  `processed/<f>/<f>` that is a file.

The filesystem is a map from paths (sequences of names) to files and directories. The network,
`tarfile`, `gzip`, the order of `os.listdir` and `subprocess` are parameters (oracles). A task
counts as complete exactly when its output path exists, as luigi's `LocalTarget.exists` decides.
A `run()` that raises keeps every change it made before the exception. Several lemmas show that
such a run can leave behind an output that luigi then takes for a finished task:

- `Stages.BrokenDownloadLooksComplete`
- `Stages.ExtractChecksFirst`
- `Organize.ProcessedSurvives`
- `Dispatch.CompletedBeforeLoop`

`Walkthrough.TextMemberNotDispatched` shows how organize and dispatch fit together. A copied
member with an extension, such as `a.txt`, is stored as `processed/a/a.txt`. The script only
looks for `processed/a/a`, so that member is never dispatched. A `.gz` member is dispatched.

In these points the model follows what the code does:

- completeness is presence of the output path, also for directories; an empty or half-filled
  directory counts as done;
- nothing is written to a temporary location and renamed;
- members and scripts are processed one after another, with no worker pool and no timeout;
- the first exception in the organize loop ends the run;
- in dispatch only a non-zero exit status is tolerated; a script that cannot be started at all
  ends the run;
- no per-item result list is kept beyond the trace of script calls, which the model records as
  its own output.

## Model

| member | source | states |
|---|---|---|
| `Text.StripSpec` | toTabs.py:22 | `Strip(s)` is the slice of `s` between leading and trailing whitespace (Python's `isspace` set), and neither of its ends is whitespace. |
| `Text.TrimLeftSpec` | toTabs.py:22 | Left trimming removes exactly a whitespace prefix and stops at the first character that is not whitespace. |
| `Text.TrimRightSpec` | toTabs.py:22 | Right trimming removes exactly a whitespace suffix and stops at the last character that is not whitespace. |
| `Text.Split` | toTabs.py:35 | `str.split("\t")` gives at least one part, no part contains the separator, and joining the parts with it gives the line back. |
| `Text.SplitJoin` | toTabs.py:35 | Splitting the join of separator-free parts returns exactly those parts, which is the inverse direction of the round trip. |
| `Text.SplitFree` | toTabs.py:35 | A line without a tab becomes a single column. |
| `Text.SplitPrefix` | toTabs.py:35 | A separator-free prefix followed by a tab becomes the first column, in front of the columns of the rest. |
| `Text.SplitSingleEmpty` | toTabs.py:35 | The split is `[""]` exactly when the string is empty. |
| `ToTabs.Put` | toTabs.py:29 | Assigning `dfs[name]` sets that entry, leaves every other entry alone and keeps the dict well formed: every key listed once in the key order, and the listed keys exactly the entries. |
| `ToTabs.SectionNameDropsEnds` | toTabs.py:31 | The section name is the stripped header without its first and last character. |
| `ToTabs.HeaderLine` | toTabs.py:24-31 | A line whose stripped form starts with `[` is a header, named by that form without its ends. |
| `ToTabs.BlankLineRow` | toTabs.py:22-35 | A line becomes the one-cell row `[""]` exactly when it is blank after stripping, so blank lines are kept as rows. |
| `ToTabs.RowsBeforeHeader` | toTabs.py:33-35 | A section's rows are the rows of the lines up to the next header, in order, one per line. |
| `ToTabs.SectionsKeys` | toTabs.py:24-40 | A name is a key of the result exactly when some line is a header with that name. |
| `ToTabs.SectionsLastOccurrence` | toTabs.py:26-40 | When a header is the last one with its name, that name's table is the rows between it and the next header: a repeated section replaces the earlier one. |
| `ToTabs.PreambleDropped` | toTabs.py:16-35 | Rows before the first header belong to no section and change nothing; a file without headers gives an empty dict. |
| `ToTabs.RowLineStep` | toTabs.py:33-35 | Handling a row line preserves what the loop will finally store. |
| `ToTabs.HeaderLineStep` | toTabs.py:24-32 | Handling a header line, which saves the open section and starts a new one, preserves what the loop will finally store. |
| `ToTabs.RunFlush` | toTabs.py:21-40 | The loop followed by the final save gives what the loop state promises for the remaining lines. |
| `ToTabs.ParseAgreesWithSections` | toTabs.py:15-40 | Parsing from the initial state yields exactly the sections of the recursive definition. |
| `ToTabs.SplitSections` | toTabs.py:15-40 | The parsing loop returns a well-formed dict whose entries are exactly the sections of the input lines. |
| `ToTabs.Step` | toTabs.py:21-35 | One pass of the loop body; `ToTabs.RowLineStep` and `ToTabs.HeaderLineStep` show that it keeps what the loop finally stores. |
| `ToTabs.Sections` | toTabs.py:21-40 | The sections as an independent recursive definition over the lines; `ToTabs.SectionsKeys`, `ToTabs.SectionsLastOccurrence` and `ToTabs.PreambleDropped` characterise it, and `ToTabs.ParseAgreesWithSections` equates it with the loop. |
| `ToTabs.OutputDir` | toTabs.py:43 | The directory `output` beside the input file, as `ToTabs.TablePathInOutputDir` states. |
| `ToTabs.TablePath` | toTabs.py:54 | The path of a section's table; `ToTabs.TablePathInOutputDir`, `ToTabs.TableEntriesDistinct` and `ToTabs.AbsoluteNameEscapesOutputDir` state where it lies. |
| `ToTabs.TablePathInOutputDir` | toTabs.py:43-54 | A section whose name does not start with `/` is written to `output/<name>.tsv` beside the input file. |
| `ToTabs.TablePathsDistinct` | toTabs.py:53-54 | Two different names that do not start with `/` give different path strings. Paths are not normalised, so such strings can still name one file. |
| `ToTabs.TableEntriesDistinct` | toTabs.py:53-54 | Two different names without `/` become two different entries of the output directory itself, neither `.` nor `..`, so they are written to different files. |
| `ToTabs.DotSegmentAliases` | toTabs.py:54 | The sections `a` and `./a` get different path strings, `output/a.tsv` and `output/./a.tsv`, that name the same file. |
| `ToTabs.AbsoluteNameEscapesOutputDir` | toTabs.py:54 | `os.path.join` drops the output directory for a name that starts with `/`. For input `/in`, the sections `a` and `/output/a` are written to the same file. |
| `ToTabs.WriteTables` | toTabs.py:53-55 | The files written are exactly one per section. Each file holds its section's table unless another section maps to the same path string. |
| `ToTabs.ToTabs` | toTabs.py:7-55 | Usage and exit code 1 exactly when fewer than two arguments are given; an unreadable input file stops the script; otherwise the tables of all sections are written under `output` beside the input. |
| `PosixPath.LastIndex` | pipeline.py:113 | `rfind`: the index of the last occurrence of the character, or -1 when there is none. |
| `PosixPath.TrimRightChar` | toTabs.py:43 | Removes exactly the trailing run of the character. |
| `PosixPath.Dirname` | toTabs.py:43 | `os.path.dirname` is the prefix of the path before its last component (which follows the last `/`, or is the whole path), with the slashes before that component removed unless the prefix consists only of slashes. |
| `PosixPath.Join` | toTabs.py:43-54 | `os.path.join`; `ToTabs.TablePathInOutputDir` shows the one `/` it puts between the parts and `ToTabs.AbsoluteNameEscapesOutputDir` that an absolute second part replaces the first. |
| `PosixPath.SplitExt` | pipeline.py:113 | `os.path.splitext`, characterised by `PosixPath.SplitExtShape` and `PosixPath.SplitExtFindsExtension`. |
| `PosixPath.SplitExtShape` | pipeline.py:113 | `splitext` splits the name into root and extension, which concatenate to the name. The extension is empty or starts with `.` and has no further `.` or `/`. |
| `PosixPath.SplitExtFindsExtension` | pipeline.py:113 | The extension is non-empty exactly when the last component has a dot that follows a non-dot character. |
| `FileSystem.MakePrefixes` | pipeline.py:31 | Creating the ancestors one by one fails exactly when one of them is a file; otherwise every ancestor is a directory and only directories were added. |
| `FileSystem.PrefixStep` | pipeline.py:31 | Creating one more ancestor fails exactly when it, or one above it, is a file; otherwise it becomes a directory and only directories along the path were added. |
| `FileSystem.MakeDirs` | pipeline.py:31 | On the modelled filesystem, `os.makedirs(exist_ok=True)` fails exactly when the path is empty or crosses a file. Otherwise every prefix is a directory afterwards and nothing else changes. |
| `FileSystem.MakeDirsIdempotent` | pipeline.py:117 | A second `makedirs` of the same path changes nothing. |
| `FileSystem.PrefixesExisting` | pipeline.py:108 | `makedirs` of a path whose prefixes are all directories leaves the filesystem as it is. |
| `FileSystem.RemoveTree` | pipeline.py:133 | On the modelled filesystem, `shutil.rmtree` succeeds exactly on a directory and removes exactly the paths under it. |
| `FileSystem.ChildrenKeep` | pipeline.py:160 | Adding directories along a path changes no listing of a directory at least as deep. |
| `FileSystem.WriteFile` | pipeline.py:38 | On the modelled filesystem, `open(p, "wb")` and its writes fail unless the parent is a directory and `p` is not one; `Stages.DownloadSpec` and `Organize.ItemEffect` state the result. |
| `FileSystem.ReadFile` | pipeline.py:122-128 | Reading a member fails unless it is a file; `Organize.ItemsReadSources` states that a finished loop read every member. |
| `FileSystem.Copy` | pipeline.py:128 | `shutil.copy` into a directory keeps the file name; `Organize.ItemEffect` states where the bytes end up. |
| `Tasks.DefaultConfig` | pipeline.py:93-146 | `delete_archives` defaults to true (line 93) and `script_path` to `toTabs.py` (line 146); `Runner.DefaultRemovesExtracted` and `Runner.DefaultRunsToTabs` state what the defaults do. |
| `Tasks.Output` | pipeline.py:25-27 | Every task's output lies directly inside `output_dir`. |
| `Tasks.OutputsSeparate` | pipeline.py:152-154 | The four outputs are pairwise different and none lies under another. |
| `Tasks.Requires` | pipeline.py:57-59 | The `requires()` of each task, characterised by `Tasks.RequiresIsChain`. |
| `Tasks.RequiresIsChain` | pipeline.py:148-150 | Only `DownloadFile` has no requirement, and every other task requires the task one step upstream. |
| `Tasks.Chain` | pipeline.py:57-59 | The dependency chain of a task starts at `DownloadFile`, ends at the task and has one entry per step of its rank. |
| `Tasks.ChainLinked` | pipeline.py:57-59 | Along the chain each task requires the one before it. |
| `Tasks.Schedule` | pipeline.py:184-185 | luigi runs nothing exactly when the output exists. Otherwise the schedule ends with the requested task and starts just below a present output, or at `DownloadFile`. |
| `Tasks.ScheduleAllMissing` | pipeline.py:184-185 | Every scheduled task has its output missing. |
| `Tasks.ScheduleLinked` | pipeline.py:184-185 | Each scheduled task requires the one scheduled just before it, so requirements run first. |
| `Tasks.ScheduleIsChainSuffix` | pipeline.py:184-185 | What luigi runs is always a tail of the dependency chain. |
| `Tasks.PresenceOnly` | pipeline.py:184-185 | The schedule depends only on which outputs exist, not on their contents. |
| `Stages.DownloadSpec` | pipeline.py:29-46 | On the modelled filesystem, a download finishes exactly when the body arrives whole, `output_dir` can be created and `archive.tar` is not a directory. The archive then holds the body, and nothing else changes except `output_dir` and its missing ancestors. |
| `Stages.Download` | pipeline.py:29-46 | `DownloadFile.run()`, characterised by `Stages.DownloadSpec` and `Stages.BrokenDownloadLooksComplete`. |
| `Stages.BrokenDownloadLooksComplete` | pipeline.py:38-44 | A body that breaks off leaves a partial archive that luigi takes for a finished download. |
| `Stages.ExtractAll` | pipeline.py:82 | `extractall` keeps every path and changes only entries directly inside the target directory. |
| `Stages.ExtractAllPlacesMember` | pipeline.py:82 | After a finished `extractall` a member that no later member renames is a file holding its data. |
| `Stages.ExtractAllPlacesMembers` | pipeline.py:82 | After a finished `extractall` each member is a file holding the data of the last member with that name. |
| `Stages.ExtractAllKeeps` | pipeline.py:82 | A file that no member names is left as it was. |
| `Stages.ExtractChecksFirst` | pipeline.py:65-83 | `extracted` is created before the integrity check, so it survives a failed check (and luigi counts the task as complete). A failed check extracts nothing. |
| `Stages.ExtractPlacesMembers` | pipeline.py:72-82 | A finished extraction read an intact archive, and each member is a file in `extracted` holding the data of the last member with that name. |
| `Stages.Extract` | pipeline.py:65-83 | `VerifyAndExtractTar.run()`, characterised by `Stages.ExtractChecksFirst` and `Stages.ExtractPlacesMembers`. |
| `Organize.Organize` | pipeline.py:103-136 | The loop over the listing computes exactly the run described by `Organized`: makedirs, the member loop, then the optional rmtree. |
| `Organize.Organized` | pipeline.py:103-136 | `OrganizeAndProcessFiles.run()` as a function, characterised by `Organize.DeletionGated`, `Organize.OrganizePlacesMember`, `Organize.OrganizeAddsAt` and `Organize.OrganizeSucceeds`. |
| `Organize.OrganizeItems` | pipeline.py:111-129 | The member loop, characterised by `Organize.ItemsKeep`, `Organize.ItemsAdd`, `Organize.ItemsPlaceMember` and `Organize.ItemsSucceed`. |
| `Organize.OrganizeItem` | pipeline.py:112-129 | One iteration, characterised by `Organize.ItemEffect`, `Organize.ItemAdds` and `Organize.ItemSucceeds`. |
| `Organize.Destination` | pipeline.py:113-128 | Where a member ends up, characterised by `Organize.DestinationShape`, `Organize.DispatchPattern` and `Organize.SameBaseSharesFolder`. |
| `Organize.DestinationShape` | pipeline.py:114-128 | Every destination lies two levels below `processed`, in the member's folder. |
| `Organize.FolderEffect` | pipeline.py:117 | Creating a member's folder adds only directories above the destination and leaves the source alone. |
| `Organize.ItemEffect` | pipeline.py:111-129 | One iteration removes nothing and changes only the member's destination and the folders above it. When it finishes, the destination holds the member's bytes, decompressed for `.gz`, and the folder is a directory. |
| `Organize.ItemsKeep` | pipeline.py:111-129 | The member loop removes no path and rewrites only destinations. |
| `Organize.ItemAdds` | pipeline.py:117-128 | One iteration adds only its destination and the folders above it. |
| `Organize.ItemsAdd` | pipeline.py:111-129 | The member loop adds only destinations and folders above them. |
| `Organize.NothingTouchedInExtracted` | pipeline.py:114-128 | No destination and no folder above one lies in `extracted`. |
| `Organize.SourceApart` | pipeline.py:112-121 | Sources and destinations never meet. |
| `Organize.SourceKept` | pipeline.py:112-128 | An iteration creates no file at any member's source path in `extracted`. |
| `Organize.SourceUnchanged` | pipeline.py:112-128 | An iteration leaves any member's file in `extracted` as it was. |
| `Organize.ItemsReadSources` | pipeline.py:122-128 | A finished loop read every member from a file in `extracted`. |
| `Organize.ItemFolder` | pipeline.py:117 | A finished iteration leaves its member's folder as a directory. |
| `Organize.FolderStays` | pipeline.py:111-129 | The member loop never removes or overwrites a folder that is a directory. |
| `Organize.ItemsMakeFolders` | pipeline.py:117 | A finished loop leaves every member's folder as a directory. |
| `Organize.ItemsPlaceFile` | pipeline.py:119-128 | After a finished loop every destination is a file, placed by the last member with that destination. |
| `Organize.ItemsPlaceContent` | pipeline.py:119-128 | A destination that no later member shares holds that member's bytes, decompressed for `.gz`. |
| `Organize.ItemsPlaceMember` | pipeline.py:111-129 | After a finished loop each member was a file, its folder is a directory and its destination a file, holding its bytes when no later member shares it. |
| `Organize.UniqueIsLast` | pipeline.py:111 | A member whose destination no other member shares is the last with that destination in any listing. |
| `Organize.ItemsKeepExtracted` | pipeline.py:111-129 | The member loop leaves everything inside `extracted` as it was. |
| `Organize.ExtractedUntouched` | pipeline.py:108-133 | A path under `extracted` is untouched by a run that raised or that ran with `delete_archives` off. |
| `Organize.RemovedWhenDone` | pipeline.py:131-133 | A run that finishes with `delete_archives` set leaves nothing under `extracted`. |
| `Organize.ProcessedLeavesExtracted` | pipeline.py:108 | `makedirs(processed)` leaves every path under `extracted` as it was. |
| `Organize.DoneOutsideExtracted` | pipeline.py:131-133 | Outside `extracted`, a finished run leaves exactly what the finished member loop left. |
| `Organize.DeletionGated` | pipeline.py:131-134 | `extracted` is removed only when `delete_archives` is set and every member was organized. A failed run leaves all of `extracted` intact. |
| `Organize.RemovalSucceeds` | pipeline.py:131-133 | Once the member loop has finished, `rmtree(extracted)` cannot fail. |
| `Organize.OrganizePlacesMember` | pipeline.py:111-129 | After a finished run, in any `listdir` order, each member was a file, its destination is a file and its folder a directory. An unshared destination holds the member's bytes. |
| `Organize.ProcessedSurvives` | pipeline.py:108 | `processed` is created first and survives every later failure, so luigi counts the task as complete. |
| `Organize.DispatchPattern` | pipeline.py:119-128 | A destination has the form `processed/<f>/<f>` exactly when the member is `.gz` or has no extension. |
| `Organize.SplitExtAtOne` | pipeline.py:113 | `splitext` of a name with one dot after its first character. |
| `Organize.SplitExtShort` | pipeline.py:113 | `splitext` of a one-letter base, a dot and a dot-free extension. |
| `Organize.NoSlash` | pipeline.py:113 | A name without `/` has no last `/` for `rfind`. |
| `Organize.LastDotAtOne` | pipeline.py:113 | A name whose only dot after the first character is its second character has its last dot there. |
| `Organize.SameBaseSharesFolder` | pipeline.py:113-117 | `a.txt` and `a.csv` share the folder `processed/a` but keep distinct destinations. |
| `Organize.ShortNamePlaced` | pipeline.py:113-128 | A member named by one letter, a dot and an extension other than `gz` goes to the folder named by that letter, under its own name. |
| `Organize.ItemSucceeds` | pipeline.py:114-128 | One iteration finishes when `processed` has the loop's own layout, the member is a file and, for `.gz`, intact. It then keeps that layout. |
| `Organize.FolderLaidOut` | pipeline.py:114-117 | In a `processed` with the loop's layout, `makedirs(folder)` succeeds and keeps that layout. The destination is then not a directory, and the source is unchanged. |
| `Organize.WriteLaidOut` | pipeline.py:119-128 | Writing a file at a destination keeps the loop's layout of `processed`. |
| `Organize.ItemsSucceed` | pipeline.py:111-129 | The member loop finishes under the same conditions for every member. |
| `Organize.OrganizeSucceeds` | pipeline.py:103-136 | The whole run finishes when `processed` can be created, `extracted` is a directory, `processed` has the loop's layout, and every member is a file, intact if `.gz`. |
| `Organize.OrganizeAddsAt` | pipeline.py:103-136 | A run adds only `processed` and its ancestors, and destinations of members of `extracted` and the folders above them. |
| `Dispatch.TargetsSpec` | pipeline.py:163-169 | A path is handed to the script exactly when it is `processed/<f>/<f>` for a listed folder `f` and is a file. |
| `Dispatch.Targets` | pipeline.py:163-169 | The files handed to the script, characterised by `Dispatch.TargetsSpec`. |
| `Dispatch.Launches` | pipeline.py:170-177 | The launches over the targets, characterised by `Dispatch.ExitStatusTolerated` and computed by `Dispatch.LaunchAll`. |
| `Dispatch.LaunchesRunScript` | pipeline.py:170-177 | Every call runs the given script, on one of the targets. |
| `Dispatch.ExitStatusTolerated` | pipeline.py:170-177 | A non-zero exit never stops the loop: when every script starts, each target gets one call in order, and the run finishes. |
| `Dispatch.LaunchAll` | pipeline.py:163-179 | The loop over the folders makes exactly the launches that the specification gives for the targets, up to the first script that cannot start. |
| `Dispatch.RunScript` | pipeline.py:156-181 | `completed` is created first. Listing a `processed` that is missing raises. Otherwise the calls are those of the targets in listing order. The result and the calls are those of `Dispatch.Dispatched`. |
| `Dispatch.Dispatched` | pipeline.py:156-181 | `RunExternalScript.run()` as a function, built from `makedirs`, `Targets` and `Launches`; `Dispatch.RunScript` computes it. |
| `Dispatch.DispatchedExactly` | pipeline.py:160-169 | After `makedirs(completed)`, `processed/<f>/<f>` is dispatched exactly when `f` is an entry of `processed` and that path is a file. |
| `Dispatch.CompletedBeforeLoop` | pipeline.py:160 | `completed` exists before any script runs, so luigi counts the task as complete even when no script could run. |
| `Walkthrough.DestinationsApart` | pipeline.py:114-128 | Members with different base names get different destinations. |
| `Walkthrough.UniqueDestination` | pipeline.py:114-128 | With a text member and a gzip member of different base names in `extracted`, no other member shares either one's destination. |
| `Walkthrough.TwinApart` | pipeline.py:114-128 | For a text member `t` and a gzip member `g`, no destination or folder above one is `processed/<base t>/<base t>`. |
| `Walkthrough.MembersReady` | pipeline.py:111-128 | Both members meet what a finished member loop needs. |
| `Walkthrough.TextCopied` | pipeline.py:126-128 | The run finishes, and the text member is copied under its own name with its bytes. |
| `Walkthrough.GzipInflated` | pipeline.py:119-124 | The run finishes, the gzip member is decompressed to `processed/<base>/<base>`, and that folder is a directory. |
| `Walkthrough.TwinAbsent` | pipeline.py:103-136 | Organizing never creates `processed/<base t>/<base t>`. |
| `Walkthrough.TextMemberNotDispatched` | pipeline.py:163-179 | After a finished organize run, dispatch hands the script the decompressed gzip member but never the copied text member. |
| `Runner.Stage` | pipeline.py:29-181 | Each task's `run()`: `Download`, `Extract`, `Organized` or `Dispatched`; only `RunExternalScript` launches scripts. |
| `Runner.RunTask` | pipeline.py:29-181 | A task's run gives exactly the result and the script calls of its stage, for all four tasks. When a run returns normally, the task's output exists. |
| `Runner.RunAll` | pipeline.py:184-185 | The reference for a run of several tasks: each starts on what the one before it left, the first failure ends the run, and the calls are collected in order. |
| `Runner.RunAllStep` | pipeline.py:184-185 | One more task after a finished run starts on the filesystem that run left; after a failed run nothing more happens. |
| `Runner.RunAllExtend` | pipeline.py:184-185 | After a finished run, one more task runs its stage on what the run left and appends its calls. |
| `Runner.RunAllPrefixDone` | pipeline.py:184-185 | Every shorter run of the first tasks of a finished run also finished. |
| `Runner.RunAllStopsAtFailure` | pipeline.py:184-185 | Once the run over the first tasks has failed, the tasks scheduled after them change nothing: the run stops at the task that raised. |
| `Runner.StageOutput` | pipeline.py:29-181 | When a task's `run()` returns normally, its `output()` exists: the tar, the extracted, processed and completed directories. |
| `Runner.RunAllLeavesNothing` | pipeline.py:184-185 | A finished run of luigi's whole schedule for a root task leaves the root complete, so the next schedule for it is empty. |
| `Runner.StageRunsScript` | pipeline.py:170-175 | Every script call of `RunExternalScript` runs `script_path`. |
| `Runner.DefaultRemovesExtracted` | pipeline.py:93 | With `delete_archives` at its default, a finished `OrganizeAndProcessFiles` leaves nothing inside `extracted`. |
| `Runner.DefaultRunsToTabs` | pipeline.py:146 | With `script_path` at its default, every script call of a run, over any tasks, runs `toTabs.py`. |
| `Runner.RunPipeline` | pipeline.py:184-185 | For the root task named on the command line, runs a prefix of luigi's schedule, in order, and its result and script calls are `RunAll` over the tasks that ran. A finished run has run all of it and leaves nothing to do. In a failed run every task before the last one that ran finished, so the run stopped at the task that raised. With nothing scheduled, nothing changes. |

## Left out

- Line reading in `toTabs.py` is not modelled: the input file is given as its sequence of lines. Encoding errors when opening the file are left out too.
- `pandas.DataFrame`, `to_csv` and quoting are not modelled: a table is its list of rows, written as parsed. The header line of integer column names that `to_csv` writes, and the padding of short rows, are not modelled.
- The `Probes` column drop (toTabs.py:46-50) is treated as the identity: rows carry no column names, so the two dropped names never match (`errors="ignore"`).
- `toTabs.py`'s `makedirs(output_dir)` (line 44) and write errors are not modelled: `ToTabs.ToTabs` returns the tables it would write as a map from path to table.
- HTTP is an oracle: a whole body, a request error or a body that breaks off. The `content-length` header and its `int` conversion feed only the progress bar, so a malformed header that raises is not modelled.
- `tqdm` and `logging` are left out, since they affect only the console.
- The tar format and the gzip format are oracles. An archive is a list of flat members. Nested member paths, links and directory members in the tar are not modelled.
- `shutil.copy`'s `samefile` check and permission bits are not modelled; sources and destinations never coincide.
- The filesystem has no permissions, quotas, I/O errors, name-length limits or symbolic links (so `shutil.rmtree`'s refusal of a symlink does not arise). The "exactly when" conditions of `FileSystem.MakeDirs`, `FileSystem.RemoveTree`, `FileSystem.WriteFile` and `Stages.DownloadSpec` hold relative to that: on a real system these calls can also fail for those reasons.
- The script run by `subprocess.run` (`python3.9 <script> <file>`) is an oracle that gives an exit status or fails to start. The files the script itself writes are not modelled.
- The order of `os.listdir` is an arbitrary duplicate-free listing: every property that depends on order is stated for any listing.
- luigi's own machinery (workers, the scheduler process, parsing the command line, its check that a required output exists after a dependency ran) is reduced to `Tasks.Schedule` and `Runner.RunPipeline`; the root task and the parameters that `luigi.run()` reads from the command line are arguments of `Runner.RunPipeline`.
- Concurrent pipelines writing to one `output_dir` are not modelled.
- Paths are compared as strings: `.` and `..` are not resolved, so `ToTabs.WriteTables` keys its files by path string and two strings that name one file (`ToTabs.DotSegmentAliases`) count as two files.
- `Walkthrough.TextMemberNotDispatched`: stated for abstract member names `t` and `g` with the extension conditions, not for the literals `a.txt` and `b.gz`.
