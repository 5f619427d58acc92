/** toTabs.py: splits a text file into named sections and writes each section as a table
    `<name>.tsv` in the directory `output` beside the input file. */
module ToTabs {
  import opened Wrappers
  import Text
  import PosixPath

  type Row = seq<string>
  type Table = seq<Row>

  /** A Python dict from section names to tables: its keys in insertion order, and its entries. */
  datatype Dict = Dict(keys: seq<string>, entries: map<string, Table>)

  predicate ValidDict(d: Dict) {
    && (forall i, j :: 0 <= i < j < |d.keys| ==> d.keys[i] != d.keys[j])
    && (forall k :: k in d.keys ==> k in d.entries)
    && (forall k :: k in d.entries ==> k in d.keys)
  }

  /** `d[k] = v`: a new key goes to the end of the key order, an existing one keeps its place. */
  function Put(d: Dict, k: string, v: Table): (r: Dict)
    ensures r.entries == d.entries[k := v]
    ensures ValidDict(d) ==> ValidDict(r)
  {
    Dict(if k in d.keys then d.keys else d.keys + [k], d.entries[k := v])
  }

  /** A line opens a section when its stripped form starts with '['. */
  predicate IsHeader(line: string) {
    var s := Text.Strip(line);
    |s| > 0 && s[0] == '['
  }

  /** `line[1:-1]` of the stripped header line: its first and last characters dropped. */
  function SectionName(line: string): string
    requires IsHeader(line)
  {
    var s := Text.Strip(line);
    if |s| >= 2 then s[1..|s| - 1] else ""
  }

  /** The row a non-header line contributes: the stripped line split on TAB. */
  function LineRow(line: string): Row {
    Text.Split(Text.Strip(line), '\t')
  }

  /** The name is the stripped line without its first and last characters, whatever they are;
      a lone "[" names the section "". */
  lemma SectionNameDropsEnds(line: string)
    requires IsHeader(line)
    ensures var s := Text.Strip(line);
      && |SectionName(line)| == (if |s| >= 2 then |s| - 2 else 0)
      && forall k :: 0 <= k < |SectionName(line)| ==> SectionName(line)[k] == s[k + 1]
  {
  }

  /** A blank line (or one holding only whitespace) is the one-field row [""]; no other line is. */
  lemma BlankLineRow(line: string)
    ensures LineRow(line) == [""] <==> Text.Strip(line) == ""
  {
    Text.SplitSingleEmpty(Text.Strip(line), '\t');
  }

  // ---------------------------------------------------------------------------------------
  // The loop of toTabs.py:15-40, as a state machine

  /** The loop's variables: `current_section`, `section_data` and `dfs`. */
  datatype Parser = Parser(current: Option<string>, sectionData: Table, dfs: Dict)

  const Start := Parser(None, [], Dict([], map[]))

  /** The dict once the section being collected, if any, is saved under its name. */
  function Flush(p: Parser): Dict {
    if p.current.Some? then Put(p.dfs, p.current.value, p.sectionData) else p.dfs
  }

  /** One iteration of the loop. */
  function Step(p: Parser, line: string): Parser {
    if IsHeader(line) then Parser(Some(SectionName(line)), [], Flush(p))
    else p.(sectionData := p.sectionData + [LineRow(line)])
  }

  function Run(p: Parser, lines: seq<string>): Parser
    decreases |lines|
  {
    if lines == [] then p else Run(Step(p, lines[0]), lines[1..])
  }

  // ---------------------------------------------------------------------------------------
  // The reference definition of the result

  /** The rows that the lines contribute up to the first header: one per line, in file order. */
  function RowsBeforeHeader(lines: seq<string>): (rows: Table)
    ensures |rows| <= |lines|
    ensures |rows| == |lines| || IsHeader(lines[|rows|])
    ensures forall k :: 0 <= k < |rows| ==> !IsHeader(lines[k]) && rows[k] == LineRow(lines[k])
  {
    if lines == [] || IsHeader(lines[0]) then []
    else
      var rest := RowsBeforeHeader(lines[1..]);
      assert forall k :: 0 < k <= |rest| ==> lines[k] == lines[1..][k - 1];
      [LineRow(lines[0])] + rest
  }

  /** Each section name that occurs in a header, with the rows under its last occurrence. */
  function Sections(lines: seq<string>): map<string, Table>
  {
    if lines == [] then map[]
    else
      var later := Sections(lines[1..]);
      if IsHeader(lines[0]) && SectionName(lines[0]) !in later then
        later[SectionName(lines[0]) := RowsBeforeHeader(lines[1..])]
      else later
  }

  predicate HeaderAt(lines: seq<string>, i: int, name: string) {
    0 <= i < |lines| && IsHeader(lines[i]) && SectionName(lines[i]) == name
  }

  /** A name is a key of the result exactly when some header carries it. */
  lemma {:induction false} SectionsKeys(lines: seq<string>, name: string)
    ensures name in Sections(lines) <==> exists i :: HeaderAt(lines, i, name)
  {
    if lines != [] {
      SectionsKeys(lines[1..], name);
      if name in Sections(lines) {
        if name in Sections(lines[1..]) {
          var i :| HeaderAt(lines[1..], i, name);
          assert HeaderAt(lines, i + 1, name);
        } else {
          assert HeaderAt(lines, 0, name);
        }
      }
      if exists i :: HeaderAt(lines, i, name) {
        var i :| HeaderAt(lines, i, name);
        if i > 0 {
          assert HeaderAt(lines[1..], i - 1, name);
        }
      }
    }
  }

  /** The rows kept for a name are those under its last header: a repeated section name keeps
      only the rows of its final occurrence. */
  lemma {:induction false} SectionsLastOccurrence(lines: seq<string>, i: nat)
    requires i < |lines| && IsHeader(lines[i])
    requires forall j :: i < j < |lines| ==> !HeaderAt(lines, j, SectionName(lines[i]))
    ensures SectionName(lines[i]) in Sections(lines)
    ensures Sections(lines)[SectionName(lines[i])] == RowsBeforeHeader(lines[i + 1..])
  {
    var name := SectionName(lines[i]);
    if i == 0 {
      SectionsKeys(lines[1..], name);
      if name in Sections(lines[1..]) {
        var j :| HeaderAt(lines[1..], j, name);
        assert HeaderAt(lines, j + 1, name);
      }
    } else {
      forall j | i - 1 < j < |lines[1..]|
        ensures !HeaderAt(lines[1..], j, name)
      {
        assert !HeaderAt(lines, j + 1, name);
      }
      SectionsLastOccurrence(lines[1..], i - 1);
      assert lines[1..][i - 1 + 1..] == lines[i + 1..];
    }
  }

  /** Lines before the first header are dropped: a header-free preamble changes nothing, and
      input without any header has no sections. */
  lemma {:induction false} PreambleDropped(pre: seq<string>, lines: seq<string>)
    requires forall k :: 0 <= k < |pre| ==> !IsHeader(pre[k])
    ensures Sections(pre + lines) == Sections(lines)
    ensures Sections(pre) == map[]
  {
    if pre != [] {
      assert (pre + lines)[0] == pre[0] && !IsHeader(pre[0]);
      assert (pre + lines)[1..] == pre[1..] + lines;
      assert forall k :: 0 <= k < |pre[1..]| ==> !IsHeader(pre[1..][k]) by {
        forall k | 0 <= k < |pre[1..]| ensures !IsHeader(pre[1..][k]) {
          assert pre[1..][k] == pre[k + 1];
        }
      }
      PreambleDropped(pre[1..], lines);
    } else {
      assert pre + lines == lines;
    }
  }

  // ---------------------------------------------------------------------------------------
  // The loop computes the reference result

  lemma UpdateThenMerge(m: map<string, Table>, later: map<string, Table>, h: string, v: Table)
    ensures m[h := v] + later == m + (if h in later then later else later[h := v])
  {
  }

  /** What saving the current section and then the rest of the input yields. */
  function Eventual(p: Parser, lines: seq<string>): map<string, Table> {
    Flush(p.(sectionData := p.sectionData + RowsBeforeHeader(lines))).entries + Sections(lines)
  }

  lemma RowLineStep(p: Parser, lines: seq<string>)
    requires lines != [] && !IsHeader(lines[0])
    ensures Eventual(Step(p, lines[0]), lines[1..]) == Eventual(p, lines)
  {
    var row := LineRow(lines[0]);
    var rest := RowsBeforeHeader(lines[1..]);
    assert RowsBeforeHeader(lines) == [row] + rest;
    assert (p.sectionData + [row]) + rest == p.sectionData + ([row] + rest);
    assert Sections(lines) == Sections(lines[1..]);
  }

  lemma HeaderLineStep(p: Parser, lines: seq<string>)
    requires lines != [] && IsHeader(lines[0])
    ensures Eventual(Step(p, lines[0]), lines[1..]) == Eventual(p, lines)
  {
    var h := SectionName(lines[0]);
    var v := RowsBeforeHeader(lines[1..]);
    var q := Step(p, lines[0]);
    assert RowsBeforeHeader(lines) == [];
    assert p.(sectionData := p.sectionData + []) == p;
    assert q.sectionData + v == v;
    assert Flush(q.(sectionData := q.sectionData + v)).entries == Flush(p).entries[h := v];
    UpdateThenMerge(Flush(p).entries, Sections(lines[1..]), h, v);
  }

  lemma {:induction false} RunFlush(p: Parser, lines: seq<string>)
    ensures Flush(Run(p, lines)).entries == Eventual(p, lines)
    decreases |lines|
  {
    if lines == [] {
      assert p.(sectionData := p.sectionData + []) == p;
    } else {
      RunFlush(Step(p, lines[0]), lines[1..]);
      if IsHeader(lines[0]) {
        HeaderLineStep(p, lines);
      } else {
        RowLineStep(p, lines);
      }
    }
  }

  /** Running the loop from its initial state and saving the last section yields exactly the
      reference result. */
  lemma ParseAgreesWithSections(lines: seq<string>)
    ensures Flush(Run(Start, lines)).entries == Sections(lines)
  {
    RunFlush(Start, lines);
  }

  /** A line whose stripped form starts with '[' is a header, named by that form without its
      ends. */
  lemma HeaderLine(raw: string, line: string)
    requires line == Text.Strip(raw) && |line| > 0 && line[0] == '['
    ensures IsHeader(raw)
    ensures SectionName(raw) == if |line| >= 2 then line[1..|line| - 1] else ""
  {
  }

  /** toTabs.py:15-40: the loop over the stripped lines, then the save of the last section. */
  method SplitSections(lines: seq<string>) returns (dfs: Dict)
    ensures ValidDict(dfs)
    ensures dfs.entries == Sections(lines)
  {
    var sectionData: Table := [];
    var current: Option<string> := None;
    dfs := Dict([], map[]);
    for i := 0 to |lines|
      invariant ValidDict(dfs)
      invariant Run(Parser(current, sectionData, dfs), lines[i..]) == Run(Start, lines)
    {
      ghost var before := Parser(current, sectionData, dfs);
      assert lines[i..][0] == lines[i] && lines[i..][1..] == lines[i + 1..];
      var line := Text.Strip(lines[i]);
      if |line| > 0 && line[0] == '[' {
        HeaderLine(lines[i], line);
        if current.Some? {
          dfs := Put(dfs, current.value, sectionData);
        }
        current := Some(if |line| >= 2 then line[1..|line| - 1] else "");
        sectionData := [];
      } else {
        sectionData := sectionData + [Text.Split(line, '\t')];
      }
      assert Parser(current, sectionData, dfs) == Step(before, lines[i]);
    }
    assert lines[|lines|..] == [];
    if current.Some? {
      dfs := Put(dfs, current.value, sectionData);
    }
    ParseAgreesWithSections(lines);
  }

  // ---------------------------------------------------------------------------------------
  // Output files, toTabs.py:43 and 53-55

  /** `os.path.join(os.path.dirname(input_file_name), "output")` */
  function OutputDir(inputPath: string): string {
    PosixPath.Join(PosixPath.Dirname(inputPath), "output")
  }

  /** `os.path.join(output_dir, f"{section_name}.tsv")` */
  function TablePath(outputDir: string, name: string): string {
    PosixPath.Join(outputDir, name + ".tsv")
  }

  /** A section whose name does not start with '/' is written to `<name>.tsv` inside the output
      directory, which is the directory `output` beside the input file. */
  lemma TablePathInOutputDir(inputPath: string, name: string)
    requires name == [] || name[0] != '/'
    ensures var dir := PosixPath.Dirname(inputPath);
      OutputDir(inputPath) == dir + (if dir == [] || PosixPath.AllChar(dir, '/') then "" else "/") + "output"
    ensures TablePath(OutputDir(inputPath), name) == OutputDir(inputPath) + "/" + name + ".tsv"
  {
  }

  /** Distinct section names not starting with '/' give distinct path strings. Paths are not
      normalised, so two such strings can still name one file (see DotSegmentAliases). */
  lemma TablePathsDistinct(inputPath: string, a: string, b: string)
    requires a != b
    requires a == [] || a[0] != '/'
    requires b == [] || b[0] != '/'
    ensures TablePath(OutputDir(inputPath), a) != TablePath(OutputDir(inputPath), b)
  {
    var dir := OutputDir(inputPath) + "/";
    TablePathInOutputDir(inputPath, a);
    TablePathInOutputDir(inputPath, b);
    assert dir + (a + ".tsv") == dir + a + ".tsv";
    assert dir + (b + ".tsv") == dir + b + ".tsv";
    ConcatCancel(dir, a, b, ".tsv");
  }

  lemma ConcatCancel(d: string, x: string, y: string, t: string)
    ensures d + (x + t) == d + (y + t) ==> x == y
  {
    assert (d + (x + t))[|d|..] == x + t;
    assert (d + (y + t))[|d|..] == y + t;
    assert (x + t)[..|x|] == x;
    assert (y + t)[..|y|] == y;
  }

  /** Distinct section names without '/' become distinct entries of the output directory itself:
      each path is the output directory, one '/', and an entry name that is neither "." nor "..",
      so the two are different files. */
  lemma TableEntriesDistinct(inputPath: string, a: string, b: string)
    requires a != b && '/' !in a && '/' !in b
    ensures var dir := OutputDir(inputPath);
      && TablePath(dir, a) == dir + "/" + (a + ".tsv")
      && TablePath(dir, b) == dir + "/" + (b + ".tsv")
      && a + ".tsv" != b + ".tsv"
      && '/' !in a + ".tsv" && '/' !in b + ".tsv"
      && a + ".tsv" !in {".", ".."} && b + ".tsv" !in {".", ".."}
  {
    var dir := OutputDir(inputPath);
    TablePathInOutputDir(inputPath, a);
    TablePathInOutputDir(inputPath, b);
    assert dir + "/" + a + ".tsv" == dir + "/" + (a + ".tsv");
    assert dir + "/" + b + ".tsv" == dir + "/" + (b + ".tsv");
    ConcatCancel([], a, b, ".tsv");
    assert (a + ".tsv")[|a + ".tsv"| - 1] == 'v';
    assert (b + ".tsv")[|b + ".tsv"| - 1] == 'v';
  }

  /** Paths are compared as strings and "." is not resolved: with the input at "in", the sections
      "a" and "./a" get the different strings "output/a.tsv" and "output/./a.tsv", which name
      the same file, so whichever is written last replaces the other on disk. */
  lemma DotSegmentAliases()
    ensures OutputDir("in") == "output"
    ensures TablePath(OutputDir("in"), "a") == "output/a.tsv"
    ensures TablePath(OutputDir("in"), "./a") == "output/./a.tsv"
    ensures TablePath(OutputDir("in"), "a") != TablePath(OutputDir("in"), "./a")
  {
    assert PosixPath.LastIndex("in", '/') == -1;
    assert PosixPath.Dirname("in") == "";
  }

  /** A section name starting with '/' is an absolute path to os.path.join, which then ignores the
      output directory: with the input at "/in", the sections "a" and "/output/a" are both
      written to "/output/a.tsv". */
  lemma AbsoluteNameEscapesOutputDir()
    ensures OutputDir("/in") == "/output"
    ensures TablePath(OutputDir("/in"), "a") == "/output/a.tsv"
    ensures TablePath(OutputDir("/in"), "/output/a") == "/output/a.tsv"
  {
    assert PosixPath.LastIndex("/", '/') == 0;
    assert PosixPath.LastIndex("/i", '/') == 0;
    assert PosixPath.LastIndex("/in", '/') == 0;
    assert PosixPath.Dirname("/in") == "/";
  }

  /** No other section's file has the same path as this one's. */
  predicate OwnPath(outputDir: string, names: set<string>, name: string) {
    forall other :: other in names && other != name ==> TablePath(outputDir, other) != TablePath(outputDir, name)
  }

  /** toTabs.py:53-55: one file per dict entry, in key order; the table is written as parsed. */
  method WriteTables(outputDir: string, dfs: Dict) returns (files: map<string, Table>)
    requires ValidDict(dfs)
    ensures files.Keys == (set name | name in dfs.entries :: TablePath(outputDir, name))
    ensures forall name :: name in dfs.entries && OwnPath(outputDir, dfs.entries.Keys, name) ==>
      files[TablePath(outputDir, name)] == dfs.entries[name]
  {
    files := map[];
    for i := 0 to |dfs.keys|
      invariant files.Keys == (set k | k in dfs.keys[..i] :: TablePath(outputDir, k))
      invariant forall k :: k in dfs.keys[..i] && OwnPath(outputDir, dfs.entries.Keys, k) ==>
        files[TablePath(outputDir, k)] == dfs.entries[k]
    {
      var name := dfs.keys[i];
      assert dfs.keys[..i + 1] == dfs.keys[..i] + [name];
      files := files[TablePath(outputDir, name) := dfs.entries[name]];
    }
    assert dfs.keys[..|dfs.keys|] == dfs.keys;
  }

  /** What a run of the script produces. */
  datatype Outcome =
    | Usage(exitCode: int)
    | CannotOpen(path: string)
    | Written(outputDir: string, files: map<string, Table>)

  /** The whole script: the argument check (toTabs.py:7-9), the parse of the input file's lines,
      and the tables written, one per section name.  `inputs` gives the lines of each readable file. */
  method ToTabs(argv: seq<string>, inputs: map<string, seq<string>>) returns (r: Outcome)
    ensures r.Usage? <==> |argv| < 2
    ensures r.Usage? ==> r.exitCode == 1
    ensures |argv| >= 2 && argv[1] !in inputs ==> r == CannotOpen(argv[1])
    ensures |argv| >= 2 && argv[1] in inputs ==>
      && r.Written?
      && r.outputDir == OutputDir(argv[1])
      && var sections := Sections(inputs[argv[1]]);
         && r.files.Keys == (set name | name in sections :: TablePath(r.outputDir, name))
         && (forall name :: name in sections && OwnPath(r.outputDir, sections.Keys, name) ==>
              r.files[TablePath(r.outputDir, name)] == sections[name])
  {
    if |argv| < 2 {
      return Usage(1);
    }
    var inputFileName := argv[1];
    if inputFileName !in inputs {
      return CannotOpen(inputFileName);
    }
    var dfs := SplitSections(inputs[inputFileName]);
    var outputDir := OutputDir(inputFileName);
    var files := WriteTables(outputDir, dfs);
    r := Written(outputDir, files);
  }
}
