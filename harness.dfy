/** The runner itself, in the form it takes in the source: module-level
    state (the file list, the name of the file being run, and what has been
    done so far) changed step by step by `run_test`, `run_one_module` and the
    loop over the files. Every method is proved against the protocol
    functions, whose properties are proved in module Protocol. */
module Harness {
  import opened Protocol

  class Runner {
    /** The test files named on the command line. */
    const files: seq<TestFile>
    /** Whether the label of each test is printed: only when one file is run. */
    const single: bool
    /** `current_file_name`: the file whose module is being required. */
    var currentFileName: string
    /** Everything the runner has done so far, in order. */
    var trace: seq<Event>

    /** Before any module runs, `current_file_name` is `undefined`, which is
        what a failure message would print for it. */
    constructor(files: seq<TestFile>)
      ensures this.files == files && single == (|files| == 1)
      ensures currentFileName == "undefined" && trace == []
    {
      this.files := files;
      single := |files| == 1;
      currentFileName := "undefined";
      trace := [];
    }

    /** `global.run_test(label, f)`. */
    method RunTest(caseName: string, body: Outcome, reset: Outcome) returns (r: Outcome)
      modifies this`trace
      ensures trace == old(trace) + TestCase(currentFileName, single, caseName, body, reset).events
      ensures r == TestCase(currentFileName, single, caseName, body, reset).outcome
      ensures body.Throws? ==> r == body && trace[|trace| - 1] == TestFailed(currentFileName, caseName)
      ensures body.Ok? ==> trace[|trace| - 1] == BlueslipReset
    {
      if single {
        trace := trace + [TestLabel(caseName)];
      }
      trace := trace + [WithOverrides(caseName)];
      if body.Throws? {
        trace := trace + [TestFailed(currentFileName, caseName)];
        return body;
      }
      trace := trace + [BlueslipReset];
      r := reset;
    }

    /** One top-level step of the module of `f`, the file being run. */
    method RunStep(f: TestFile, i: nat) returns (r: Outcome)
      requires i < |f.steps| && currentFileName == f.path
      modifies this`trace
      ensures trace == old(trace) + StepRun(f.path, single, f.steps[i]).events
      ensures r == StepRun(f.path, single, f.steps[i]).outcome
    {
      var step := f.steps[i];
      if step.Raise? {
        return Throws(step.error);
      }
      r := RunTest(step.caseName, step.body, step.reset);
    }

    /** `run_one_module(file)`: announce the file, record it as the current
        file, then require its module, whose top-level steps run in order
        until one throws. */
    method RunOneModule(f: TestFile) returns (r: Outcome)
      modifies this`trace, this`currentFileName
      ensures currentFileName == f.path
      ensures trace == old(trace) + [RunningTest(f.path)] + ModuleBody(f.path, single, f.steps, |f.steps|).events
      ensures r == ModuleBody(f.path, single, f.steps, |f.steps|).outcome
    {
      trace := trace + [RunningTest(f.path)];
      currentFileName := f.path;
      ghost var start := trace;
      var i := 0;
      while i < |f.steps|
        invariant 0 <= i <= |f.steps|
        invariant currentFileName == f.path
        invariant trace == start + ModuleBody(f.path, single, f.steps, i).events
        invariant ModuleBody(f.path, single, f.steps, i).outcome == Ok
      {
        ghost var before := ModuleBody(f.path, single, f.steps, i).events;
        r := RunStep(f, i);
        Regroup(start, before, StepRun(f.path, single, f.steps[i]).events);
        i := i + 1;
        if r.Throws? {
          ModuleBodyStable(f.path, single, f.steps, i, |f.steps|);
          return;
        }
      }
      r := Ok;
    }

    /** Install the stand-in globals and forget the references to the
        previous file's modules. */
    method SetUp()
      modifies this`trace
      ensures trace == old(trace) + SetupEvents
    {
      trace := trace + [SetGlobal(Location)];
      trace := trace + [SetGlobal(SetTimeout)];
      trace := trace + [SetGlobal(SetInterval)];
      trace := trace + [SetGlobal(Blueslip)];
      trace := trace + [SetGlobal(I18n)];
      trace := trace + [ClearZulipRefs];
    }

    /** The clean-up after a module that completed: the final
        `blueslip.reset()` when present, then `namespace.restore()` and a
        fresh template environment. */
    method TearDown(f: TestFile) returns (r: Outcome)
      modifies this`trace
      ensures trace == old(trace) + Teardown(f).events
      ensures r == Teardown(f).outcome
    {
      if f.hasReset {
        trace := trace + [BlueslipReset];
        if f.finalReset.Throws? {
          return f.finalReset;
        }
      }
      trace := trace + [NamespaceRestore];
      trace := trace + [HandlebarsReset];
      r := Ok;
    }

    /** The body of `files.forEach`: install the stand-in globals, run the
        module, then clean up; an error leaves at once, skipping the rest. */
    method RunFile(f: TestFile) returns (r: Outcome)
      modifies this`trace, this`currentFileName
      ensures currentFileName == f.path
      ensures trace == old(trace) + FileRun(f, single).events
      ensures r == FileRun(f, single).outcome
    {
      SetUp();
      r := RunOneModule(f);
      if r.Throws? {
        return;
      }
      ghost var before := trace;
      r := TearDown(f);
      assert trace == before + Teardown(f).events;
    }

    /** `files.forEach(...)`, inside the top-level `try`; the script runs
        it once, on a runner that has done nothing yet. */
    method RunFiles() returns (r: Outcome)
      requires trace == []
      modifies this`trace, this`currentFileName
      ensures trace == EachFile(files, single, |files|).events
      ensures r == EachFile(files, single, |files|).outcome
      ensures r.Ok? ==>
                currentFileName == (if |files| == 0 then old(currentFileName) else files[|files| - 1].path)
      ensures r.Throws? ==> exists k | 0 <= k < |files| ::
                currentFileName == files[k].path && FileRun(files[k], single).outcome == r
    {
      var k := 0;
      while k < |files|
        invariant 0 <= k <= |files|
        invariant trace == EachFile(files, single, k).events
        invariant EachFile(files, single, k).outcome == Ok
        invariant currentFileName == (if k == 0 then old(currentFileName) else files[k - 1].path)
      {
        r := RunFile(files[k]);
        k := k + 1;
        if r.Throws? {
          assert currentFileName == files[k - 1].path && FileRun(files[k - 1], single).outcome == r;
          EachFileStable(files, single, k, |files|);
          return;
        }
      }
      r := Ok;
    }
  }

  /** The script's top level: the empty-list check, then the loop inside its
      `try`, whose `catch` prints the report and exits with status 1. */
  method RunSuite(files: seq<TestFile>) returns (r: Result)
    ensures r == Suite(files)
    ensures |files| == 0 ==> r == StartupError(NoTestsFound)
  {
    if |files| == 0 {
      return StartupError(NoTestsFound);
    }
    var runner := new Runner(files);
    var o := runner.RunFiles();
    if o.Throws? {
      r := Exited(runner.trace + [Report(ReportText(o.error))], 1);
    } else {
      r := Exited(runner.trace, 0);
    }
  }
}
