/** The deterministic parts of `TestingCrew`: the task wiring, the shape of `run`'s result, and
    `run_and_save`'s output path and saved content. The kickoff itself belongs to CrewAI. */
module Crew {
  import opened Wrappers
  import opened Text
  import opened Fences

  /** The three declared tasks. */
  datatype TaskName = AnalyzeCode | WriteTests | ValidateTests

  /** The `tasks=[...]` of `crew()`, run in this order by the sequential process. */
  function CrewTasks(): (tasks: seq<TaskName>)
    ensures AnalyzeCode in tasks && WriteTests in tasks && ValidateTests in tasks
    ensures forall i, j :: 0 <= i < j < |tasks| ==> tasks[i] != tasks[j]
  {
    [AnalyzeCode, WriteTests, ValidateTests]
  }

  /** The `context=[...]` each task declares; the analysis task declares none. */
  function Context(t: TaskName): (ctx: seq<TaskName>)
    ensures ctx == [] <==> t == AnalyzeCode
    ensures |ctx| <= 1 && t !in ctx
  {
    match t
    case AnalyzeCode => []
    case WriteTests => [AnalyzeCode]
    case ValidateTests => [WriteTests]
  }

  /** The wiring is a chain: each task appears once, the first has no context, and every other
      task's context is exactly the task before it; the test-writing task has ordinal 1. */
  lemma WiringIsChain()
    ensures |CrewTasks()| == 3
    ensures forall i, j :: 0 <= i < j < |CrewTasks()| ==> CrewTasks()[i] != CrewTasks()[j]
    ensures forall t: TaskName :: t in CrewTasks()
    ensures Context(CrewTasks()[0]) == []
    ensures forall i :: 0 < i < |CrewTasks()| ==> Context(CrewTasks()[i]) == [CrewTasks()[i - 1]]
    ensures CrewTasks()[1] == WriteTests
  {
    forall t: TaskName ensures t in CrewTasks() {
      match t
      case AnalyzeCode => assert CrewTasks()[0] == t;
      case WriteTests => assert CrewTasks()[1] == t;
      case ValidateTests => assert CrewTasks()[2] == t;
    }
  }

  /** One task's output as the kickoff reports it. */
  datatype TaskOutput = TaskOutput(task: TaskName, raw: string)

  /** CrewAI's token-usage record, which `run` passes through without looking inside. */
  type UsageMetrics(==)

  /** What `kickoff` returns; `None` stands for an attribute the result object does not have. */
  datatype CrewOutput = CrewOutput(raw: string, tasksOutput: Option<seq<TaskOutput>>, tokenUsage: Option<UsageMetrics>)

  /** The dictionary `run` returns. */
  datatype RunResult = RunResult(raw: string, tasksOutput: seq<string>, tokenUsage: Option<UsageMetrics>)

  /** A kickoff that ran every declared task, reporting their outputs in declaration order. */
  predicate CompletedInOrder(outs: seq<TaskOutput>) {
    |outs| == |CrewTasks()| && forall i :: 0 <= i < |outs| ==> outs[i].task == CrewTasks()[i]
  }

  /** `run`'s result: the aggregate text, the per-task raw texts in task order (an empty list
      when the kickoff result has no `tasks_output`), and the token usage when present. */
  function Run(out: CrewOutput): (r: RunResult)
    ensures r.raw == out.raw && r.tokenUsage == out.tokenUsage
    ensures out.tasksOutput.None? ==> r.tasksOutput == []
    ensures out.tasksOutput.Some? ==> |r.tasksOutput| == |out.tasksOutput.value|
    ensures out.tasksOutput.Some? ==>
      forall i :: 0 <= i < |r.tasksOutput| ==> r.tasksOutput[i] == out.tasksOutput.value[i].raw
  {
    var texts := match out.tasksOutput
      case None => []
      case Some(outs) => seq(|outs|, i requires 0 <= i < |outs| => outs[i].raw);
    RunResult(out.raw, texts, out.tokenUsage)
  }

  /** `Path(p).name` for a POSIX path: the last component, ignoring empty and `.` components
      (so `a/b/` and `a/b/.` both name `b`); empty when there is none. */
  function PathName(p: string): (name: string)
    ensures forall i :: 0 <= i < |name| ==> name[i] != '/'
    ensures name != "."
    decreases |p|
  {
    var k := LastIndexOf(p, '/');
    var segment := p[k + 1..];
    if segment != "" && segment != "." then segment
    else if k < 0 then ""
    else PathName(p[..k])
  }

  /** `Path(p).stem`: the name without its last suffix, where a suffix is a final `.` part that
      neither starts the name nor ends it. */
  function Stem(p: string): (stem: string)
    ensures forall i :: 0 <= i < |stem| ==> stem[i] != '/'
    ensures |stem| <= |PathName(p)| && stem == PathName(p)[..|stem|]
    ensures var name := PathName(p);
      stem == name || (0 < |stem| < |name| - 1 && name[|stem|] == '.'
                       && forall j :: |stem| < j < |name| ==> name[j] != '.')
    ensures var name := PathName(p);
      stem == name ==> !exists i :: 0 < i < |name| - 1 && name[i] == '.' && forall j :: i < j < |name| ==> name[j] != '.'
  {
    var name := PathName(p);
    var i := LastIndexOf(name, '.');
    if 0 < i < |name| - 1 then name[..i] else name
  }

  /** A name appended to a directory is that path's name. */
  lemma PathNameJoin(d: string, s: string)
    requires forall i :: 0 <= i < |s| ==> s[i] != '/'
    requires s != "" && s != "."
    ensures PathName(d + "/" + s) == s
  {
    var p := d + "/" + s;
    assert p[|d| + 1..] == s;
    assert p[|d|] == '/';
  }

  /** A path with no `/` is its own name, unless it is empty or `.`. */
  lemma PathNameBare(s: string)
    requires forall i :: 0 <= i < |s| ==> s[i] != '/'
    requires s != "" && s != "."
    ensures PathName(s) == s
  {
    assert LastIndexOf(s, '/') == -1;
  }

  /** A trailing `/` or `/.` does not change the name, as `pathlib` drops empty and `.`
      components. */
  lemma PathNameTrailing(p: string)
    ensures PathName(p + "/") == PathName(p)
    ensures PathName(p + "/.") == PathName(p)
  {
    var a, b := p + "/", p + "/.";
    assert a[..|p|] == p && b[..|p|] == p;
    assert LastIndexOf(a, '/') == |p|;
    assert LastIndexOf(b, '/') == |p|;
    assert b[|p| + 1..] == ".";
  }

  const TestsDirPrefix: string := "tests/test_"

  /** The path `run_and_save` writes to. */
  function OutputPath(filePath: string, outputPath: Option<string>): (path: string)
    ensures outputPath.Some? ==> path == outputPath.value
  {
    match outputPath
    case Some(p) => p
    case None => TestsDirPrefix + Stem(filePath) + ".py"
  }

  /** Without an explicit path the tests go directly into `tests/`, named `test_<stem>.py`. */
  lemma DefaultPathShape(filePath: string)
    ensures var path := OutputPath(filePath, None);
      && |TestsDirPrefix| + 3 <= |path|
      && path[..|TestsDirPrefix|] == TestsDirPrefix
      && EndsWith(path, ".py")
      && path[|TestsDirPrefix|..|path| - 3] == Stem(filePath)
      && forall i :: |TestsDirPrefix| <= i < |path| ==> path[i] != '/'
  {
    var path := OutputPath(filePath, None);
    assert path == TestsDirPrefix + Stem(filePath) + ".py";
  }

  /** A module `<d>/<b>.py` is tested in `tests/test_<b>.py`, whatever directory it is in (`b` may
      itself hold dots: only the last suffix is dropped). */
  lemma DefaultPathOfModule(d: string, b: string)
    requires b != "" && forall i :: 0 <= i < |b| ==> b[i] != '/'
    ensures OutputPath(d + "/" + b + ".py", None) == TestsDirPrefix + b + ".py"
  {
    var name := b + ".py";
    assert d + "/" + b + ".py" == d + "/" + name;
    PathNameJoin(d, name);
    assert name[|b|] == '.' && name[|b| + 1] == 'p' && name[|b| + 2] == 'y';
    assert LastIndexOf(name, '.') == |b|;
    assert name[..|b|] == b;
    assert Stem(d + "/" + name) == b;
  }

  /** A module given without a directory, `<b>.py`, is tested in `tests/test_<b>.py`. */
  lemma DefaultPathOfBareModule(b: string)
    requires b != "" && forall i :: 0 <= i < |b| ==> b[i] != '/'
    ensures OutputPath(b + ".py", None) == TestsDirPrefix + b + ".py"
  {
    var name := b + ".py";
    PathNameBare(name);
    assert name[|b|] == '.' && name[|b| + 1] == 'p' && name[|b| + 2] == 'y';
    assert LastIndexOf(name, '.') == |b|;
    assert name[..|b|] == b;
  }

  /** The example of the source's own comment: `src/calc.py` is saved as `tests/test_calc.py`. */
  lemma DefaultPathExample()
    ensures OutputPath("src/calc.py", None) == "tests/test_calc.py"
  {
    var p := "src/calc.py";
    assert p[3] == '/' && forall j :: 3 < j < |p| ==> p[j] != '/';
    assert LastIndexOf(p, '/') == 3;
    assert p[4..] == "calc.py";
    assert PathName(p) == "calc.py";
    var name := "calc.py";
    assert name[4] == '.' && forall j :: 4 < j < |name| ==> name[j] != '.';
    assert LastIndexOf(name, '.') == 4;
    assert name[..4] == "calc";
  }

  /** The text `run_and_save` writes: the LAST python block of the aggregate output when the
      output holds the marker and a block matches, otherwise the output itself, unstripped. */
  function SavedContent(raw: string): (content: string)
    ensures content == raw || NoFence(content)
    ensures |content| <= |raw|
  {
    if Contains(raw, PythonMarker) then
      var blocks := FindAll(raw, PythonOpen);
      if blocks != [] then blocks[|blocks| - 1] else raw
    else raw
  }

  /** A python block can only be found where the marker occurs. */
  lemma BlockImpliesMarker(raw: string)
    requires FindAll(raw, PythonOpen) != []
    ensures Contains(raw, PythonMarker)
  {
    var p: nat, q: nat :| BlockAt(raw, PythonOpen, p, q);
    assert raw[p..p + |PythonMarker|] == raw[p..p + |PythonOpen|][..|PythonMarker|];
    assert IsAt(raw, PythonMarker, p);
    ContainsIff(raw, PythonMarker);
  }

  /** When some python block matches, the saved text is the last one, and it holds no fence. */
  lemma SavedContentIsLastBlock(raw: string)
    requires FindAll(raw, PythonOpen) != []
    ensures SavedContent(raw) == FindAll(raw, PythonOpen)[|FindAll(raw, PythonOpen)| - 1]
    ensures NoFence(SavedContent(raw))
  {
    BlockImpliesMarker(raw);
  }

  /** When no python block matches (marker or not), the aggregate output is written verbatim. */
  lemma SavedContentVerbatim(raw: string)
    requires FindAll(raw, PythonOpen) == []
    ensures SavedContent(raw) == raw
  {
  }
}
