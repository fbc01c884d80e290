/** The observable protocol of the test runner: what it does, in order, for
    each test file and each test case, and where it stops.

    The collaborators whose code is not part of this model (the test bodies,
    `require` of a test module, the diagnostic stub's `reset`) appear only
    through their outcome: they complete, or they throw an error. The calls
    into the override store (`namespace`) and the template engine appear as
    events of the trace and always complete. */
module Protocol {
  import opened Traceback

  datatype Option<T> = None | Some(value: T)

  /** A thrown error: its message and, when it has one, its stack trace. */
  datatype Error = Error(message: string, stack: Option<string>)

  /** How a call into code outside the runner ended. */
  datatype Outcome = Ok | Throws(error: Error)

  /** One step of a test module's top-level code: a call of `run_test` (the
      body's outcome, then the outcome of the `blueslip.reset()` that follows
      a passing body), or an error thrown by the module itself. */
  datatype Step =
    | RunTest(caseName: string, body: Outcome, reset: Outcome)
    | Raise(error: Error)

  /** A test file as the runner meets it: its path, its module's steps, and
      how the clean-up after the module behaves (whether `blueslip.reset`
      is present at that point, and the outcome of calling it). */
  datatype TestFile = TestFile(path: string, steps: seq<Step>, hasReset: bool, finalReset: Outcome)

  /** The globals the runner installs before each module. */
  datatype Global = Location | SetTimeout | SetInterval | Blueslip | I18n

  /** What the runner does that can be observed: its calls into the global
      environment and the lines it prints. */
  datatype Event =
    | SetGlobal(global: Global)       // namespace.set_global(name, ...)
    | ClearZulipRefs                  // namespace.clear_zulip_refs()
    | RunningTest(path: string)       // "running test ...", then require(path)
    | TestLabel(caseName: string)        // "        test: <label>" (single-file runs)
    | WithOverrides(caseName: string)    // namespace.with_overrides(body)
    | TestFailed(file: string, caseName: string)  // "test failed: <file> > <label>"
    | BlueslipReset                   // blueslip.reset()
    | NamespaceRestore                // namespace.restore()
    | HandlebarsReset                 // Handlebars.HandlebarsEnvironment()
    | Report(text: string)            // the failure report of the top-level catch

  /** What a run of some code produced: its events, and whether an error
      escaped from it. */
  datatype Run = Run(events: seq<Event>, outcome: Outcome)

  /** How the whole process ends: the startup error thrown before the loop,
      or the loop's events and the exit status. */
  datatype Result = StartupError(message: string) | Exited(events: seq<Event>, status: int)

  /** The globals installed before each module is required, in order. */
  const SetupEvents: seq<Event> := [
    SetGlobal(Location), SetGlobal(SetTimeout), SetGlobal(SetInterval),
    SetGlobal(Blueslip), SetGlobal(I18n), ClearZulipRefs
  ]

  const NoTestsFound: string := "No tests found"

  function Prepend(events: seq<Event>, r: Run): Run
  {
    Run(events + r.events, r.outcome)
  }

  /** Events that a test case can produce. */
  predicate IsCaseEvent(e: Event)
  {
    e.TestLabel? || e.WithOverrides? || e.TestFailed? || e.BlueslipReset?
  }

  /** Events of the per-file set-up. */
  predicate IsSetupEvent(e: Event)
  {
    e.SetGlobal? || e.ClearZulipRefs?
  }

  // ---------------------------------------------------------------------
  // Which steps and files fail, independently of the events

  predicate StepFails(s: Step)
  {
    s.Raise? || s.body.Throws? || s.reset.Throws?
  }

  /** The error a failing step throws: the module's own, the body's, or
      that of the reset after a passing body. */
  function StepError(s: Step): Error
    requires StepFails(s)
  {
    if s.Raise? then s.error
    else if s.body.Throws? then s.body.error
    else s.reset.error
  }

  predicate FileFails(f: TestFile)
  {
    (exists i | 0 <= i < |f.steps| :: StepFails(f.steps[i])) ||
    (f.hasReset && f.finalReset.Throws?)
  }

  // ---------------------------------------------------------------------
  // The protocol

  /** `run_test(label, f)` inside the module of `file`. The body's error is
      rethrown unchanged after the failure lines; `blueslip.reset()` comes
      after the try/catch, so it is reached only when the body passes, and
      then its own outcome is the case's outcome. */
  function TestCase(file: string, single: bool, caseName: string, body: Outcome, reset: Outcome): Run
  {
    var start := (if single then [TestLabel(caseName)] else []) + [WithOverrides(caseName)];
    if body.Throws? then Run(start + [TestFailed(file, caseName)], body)
    else Run(start + [BlueslipReset], reset)
  }

  /** One top-level step of a test module: a `run_test` call, or an error
      the module throws by itself. */
  function StepRun(file: string, single: bool, s: Step): (r: Run)
    ensures r.outcome.Throws? <==> StepFails(s)
    ensures r.outcome.Throws? ==> r.outcome.error == StepError(s)
  {
    match s
    case Raise(e) => Run([], Throws(e))
    case RunTest(caseName, body, reset) => TestCase(file, single, caseName, body, reset)
  }

  /** The first `n` top-level steps of a test module, in order, stopping at
      the first error, which escapes: a step runs only when every step
      before it completed. The whole module is `ModuleBody(file, single,
      steps, |steps|)`. */
  function ModuleBody(file: string, single: bool, steps: seq<Step>, n: nat): Run
    requires n <= |steps|
  {
    if n == 0 then Run([], Ok)
    else
      var before := ModuleBody(file, single, steps, n - 1);
      if before.outcome.Throws? then before
      else
        var head := StepRun(file, single, steps[n - 1]);
        Run(before.events + head.events, head.outcome)
  }

  /** Events of the clean-up after a module. */
  predicate IsTeardownEvent(e: Event)
  {
    e.BlueslipReset? || e.NamespaceRestore? || e.HandlebarsReset?
  }

  /** The clean-up after a module that completed: `blueslip.reset()` when
      present, whose error escapes at once, then `namespace.restore()` and a
      fresh template environment. */
  function Teardown(f: TestFile): Run
  {
    if !f.hasReset then Run([NamespaceRestore, HandlebarsReset], Ok)
    else if f.finalReset.Throws? then Run([BlueslipReset], f.finalReset)
    else Run([BlueslipReset, NamespaceRestore, HandlebarsReset], Ok)
  }

  /** One iteration of the loop over the files: set-up, the module, then
      the clean-up, which is reached only when the module completes. */
  function FileRun(f: TestFile, single: bool): Run
  {
    var body := ModuleBody(f.path, single, f.steps, |f.steps|);
    var head := SetupEvents + [RunningTest(f.path)] + body.events;
    if body.outcome.Throws? then Run(head, body.outcome)
    else Prepend(head, Teardown(f))
  }

  /** The first `n` iterations of `files.forEach(...)`, stopping at the
      first error. The whole loop is `EachFile(files, single, |files|)`. */
  function EachFile(files: seq<TestFile>, single: bool, n: nat): Run
    requires n <= |files|
  {
    if n == 0 then Run([], Ok)
    else
      var before := EachFile(files, single, n - 1);
      if before.outcome.Throws? then before
      else
        var head := FileRun(files[n - 1], single);
        Run(before.events + head.events, head.outcome)
  }

  /** What the top-level catch prints: the trimmed stack trace when there is
      one, the error itself otherwise. An empty stack is falsy and counts as
      none. */
  function ReportText(e: Error): string
  {
    match e.stack
    case Some(tb) => if tb != "" then ShortTb(tb) else e.message
    case None => e.message
  }

  /** The report of an error whose stack mentions either of the runner's
      entry points ends with the line of the leftmost mention, followed by
      the elision marker. */
  lemma ReportOfMarkedTrace(e: Error, m: nat, end: nat)
    requires e.stack.Some? && FirstMarkerLineEnd(e.stack.value, m, end)
    ensures ReportText(e) == e.stack.value[..end] + Elision
  {
    ShortTbCutsAtFirstMarker(e.stack.value, m, end);
  }

  /** The report of an error whose stack mentions neither entry point is
      that stack as it is, or the error itself when there is no stack or
      the stack is empty. */
  lemma ReportOfUnmarkedTrace(e: Error)
    requires e.stack.Some? ==> forall k :: 0 <= k <= |e.stack.value| ==> !MarkerAt(e.stack.value, k)
    ensures ReportText(e) == if e.stack.None? || e.stack.value == "" then e.message else e.stack.value
  {
    if e.stack.Some? {
      ShortTbWithoutMarker(e.stack.value);
    }
  }

  /** The whole run: an empty file list is a startup error; otherwise the
      loop, and on the first error its report and exit status 1. */
  function Suite(files: seq<TestFile>): (r: Result)
    ensures r.StartupError? <==> |files| == 0
    ensures r.StartupError? ==> r.message == NoTestsFound
    ensures r.Exited? ==> (r.status == 1 <==> exists k | 0 <= k < |files| :: FileFails(files[k]))
    ensures r.Exited? ==> (r.status == 0 <==> forall k | 0 <= k < |files| :: !FileFails(files[k]))
  {
    if |files| == 0 then StartupError(NoTestsFound)
    else
      EachFileOutcome(files, |files| == 1, |files|);
      var run := EachFile(files, |files| == 1, |files|);
      if run.outcome.Throws? then Exited(run.events + [Report(ReportText(run.outcome.error))], 1)
      else Exited(run.events, 0)
  }

  // ---------------------------------------------------------------------
  // Observations on a trace

  /** The files whose modules were required, in order. */
  function Modules(events: seq<Event>): seq<string>
  {
    if |events| == 0 then []
    else (if events[0].RunningTest? then [events[0].path] else []) + Modules(events[1..])
  }

  /** The test cases whose bodies were entered, in order. */
  function CasesRun(events: seq<Event>): seq<string>
  {
    if |events| == 0 then []
    else (if events[0].WithOverrides? then [events[0].caseName] else []) + CasesRun(events[1..])
  }

  function Paths(files: seq<TestFile>): seq<string>
  {
    if |files| == 0 then [] else Paths(files[..|files| - 1]) + [files[|files| - 1].path]
  }

  /** The label of a step that calls `run_test`. */
  function StepLabel(s: Step): seq<string>
  {
    if s.RunTest? then [s.caseName] else []
  }

  /** The labels of the `run_test` calls among the steps, in order. */
  function Labels(steps: seq<Step>): seq<string>
  {
    if |steps| == 0 then [] else Labels(steps[..|steps| - 1]) + StepLabel(steps[|steps| - 1])
  }

  lemma {:induction false} ModulesAppend(a: seq<Event>, b: seq<Event>)
    ensures Modules(a + b) == Modules(a) + Modules(b)
  {
    if |a| > 0 {
      assert (a + b)[1..] == a[1..] + b;
      ModulesAppend(a[1..], b);
    } else {
      assert a + b == b;
    }
  }

  lemma {:induction false} CasesRunAppend(a: seq<Event>, b: seq<Event>)
    ensures CasesRun(a + b) == CasesRun(a) + CasesRun(b)
  {
    if |a| > 0 {
      assert (a + b)[1..] == a[1..] + b;
      CasesRunAppend(a[1..], b);
    } else {
      assert a + b == b;
    }
  }

  lemma {:induction false} NoModules(events: seq<Event>)
    requires forall i | 0 <= i < |events| :: !events[i].RunningTest?
    ensures Modules(events) == []
  {
    if |events| > 0 {
      NoModules(events[1..]);
    }
  }

  /** Joining event lists does not depend on how they are grouped. */
  lemma Regroup(a: seq<Event>, b: seq<Event>, c: seq<Event>)
    ensures a + b + c == a + (b + c)
  {
  }

  /** A trace with a single module event names a single module. */
  lemma ModulesAround(pre: seq<Event>, path: string, post: seq<Event>)
    requires forall i | 0 <= i < |pre| :: !pre[i].RunningTest?
    requires forall i | 0 <= i < |post| :: !post[i].RunningTest?
    ensures Modules(pre + [RunningTest(path)] + post) == [path]
  {
    NoModules(pre);
    NoModules(post);
    assert pre + [RunningTest(path)] + post == pre + ([RunningTest(path)] + post);
    ModulesAppend(pre, [RunningTest(path)] + post);
    ModulesAppend([RunningTest(path)], post);
    assert Modules([RunningTest(path)]) == [path] by {
      assert [RunningTest(path)][1..] == [];
    }
  }

  // ---------------------------------------------------------------------
  // What each part of the protocol can do, and when it fails

  /** `run_test` prints the label only in a single-file run, always runs
      the body under `with_overrides`, and then either reports the failure
      (the body threw) or resets the diagnostic stub (it passed). */
  lemma TestCaseEvents(file: string, single: bool, caseName: string, body: Outcome, reset: Outcome)
    ensures var r := TestCase(file, single, caseName, body, reset);
            (BlueslipReset in r.events <==> body.Ok?) &&
            (TestFailed(file, caseName) in r.events <==> body.Throws?) &&
            (TestLabel(caseName) in r.events <==> single) &&
            WithOverrides(caseName) in r.events &&
            r.events[|r.events| - 1] == (if body.Throws? then TestFailed(file, caseName) else BlueslipReset) &&
            forall i | 0 <= i < |r.events| :: IsCaseEvent(r.events[i])
  {
    var r := TestCase(file, single, caseName, body, reset);
    if single {
      assert r.events[0] == TestLabel(caseName);
    }
    if body.Throws? {
      assert r.events[|r.events| - 1] == TestFailed(file, caseName);
    } else {
      assert r.events[|r.events| - 1] == BlueslipReset;
    }
    assert r.events[|r.events| - 2] == WithOverrides(caseName);
  }

  /** A module fails exactly when one of its steps fails. */
  lemma {:induction false} ModuleBodyOutcome(file: string, single: bool, steps: seq<Step>, n: nat)
    requires n <= |steps|
    ensures ModuleBody(file, single, steps, n).outcome.Throws? <==> exists j | 0 <= j < n :: StepFails(steps[j])
    decreases n
  {
    if n > 0 {
      ModuleBodyOutcome(file, single, steps, n - 1);
    }
  }

  /** A module's own events are those of its test cases. */
  lemma {:induction false} ModuleBodyCaseEvents(file: string, single: bool, steps: seq<Step>, n: nat)
    requires n <= |steps|
    ensures forall j | 0 <= j < |ModuleBody(file, single, steps, n).events| ::
              IsCaseEvent(ModuleBody(file, single, steps, n).events[j])
    decreases n
  {
    if n > 0 {
      ModuleBodyCaseEvents(file, single, steps, n - 1);
      var before := ModuleBody(file, single, steps, n - 1);
      var s := steps[n - 1];
      if before.outcome.Ok? {
        var head := StepRun(file, single, s);
        if s.RunTest? {
          TestCaseEvents(file, single, s.caseName, s.body, s.reset);
        }
        var ev := before.events + head.events;
        forall j | 0 <= j < |ev| ensures IsCaseEvent(ev[j]) {
          if j < |before.events| {
            assert ev[j] == before.events[j];
          } else {
            assert ev[j] == head.events[j - |before.events|];
          }
        }
      }
    }
  }

  /** The clean-up fails exactly when the final reset is present and
      throws; `namespace.restore()` is reached exactly when it does not. */
  lemma TeardownEvents(f: TestFile)
    ensures var r := Teardown(f);
            (r.outcome.Throws? <==> f.hasReset && f.finalReset.Throws?) &&
            (NamespaceRestore in r.events <==> r.outcome.Ok?) &&
            (BlueslipReset in r.events <==> f.hasReset) &&
            forall i | 0 <= i < |r.events| :: IsTeardownEvent(r.events[i])
  {
    var r := Teardown(f);
    if f.hasReset {
      assert r.events[0] == BlueslipReset;
    }
    if r.outcome.Ok? {
      assert r.events[|r.events| - 2] == NamespaceRestore;
    }
  }

  /** A file fails exactly when a step of its module fails or its final
      reset throws, and `namespace.restore()` is called exactly when it does
      not fail. */
  lemma FileRunOutcome(f: TestFile, single: bool)
    ensures FileRun(f, single).outcome.Throws? <==> FileFails(f)
    ensures NamespaceRestore in FileRun(f, single).events <==> !FileFails(f)
  {
    var body := ModuleBody(f.path, single, f.steps, |f.steps|);
    ModuleBodyOutcome(f.path, single, f.steps, |f.steps|);
    ModuleBodyCaseEvents(f.path, single, f.steps, |f.steps|);
    TeardownEvents(f);
    var head := SetupEvents + [RunningTest(f.path)] + body.events;
    assert NamespaceRestore !in head by {
      forall i | 0 <= i < |head| ensures head[i] != NamespaceRestore {
        if i >= 7 {
          assert head[i] == body.events[i - 7];
          assert IsCaseEvent(body.events[i - 7]);
        }
      }
    }
    if body.outcome.Ok? {
      var tail := Teardown(f).events;
      assert FileRun(f, single).events == head + tail;
      assert NamespaceRestore in head + tail <==> NamespaceRestore in tail;
    }
  }

  /** The loop fails exactly when one of its files fails. */
  lemma {:induction false} EachFileOutcome(files: seq<TestFile>, single: bool, n: nat)
    requires n <= |files|
    ensures EachFile(files, single, n).outcome.Throws? <==> exists j | 0 <= j < n :: FileFails(files[j])
    decreases n
  {
    if n > 0 {
      EachFileOutcome(files, single, n - 1);
      FileRunOutcome(files[n - 1], single);
    }
  }

  // ---------------------------------------------------------------------
  // Test cases run in order, and the first failure stops the module

  lemma TestCaseEntersOnce(file: string, single: bool, caseName: string, body: Outcome, reset: Outcome)
    ensures CasesRun(TestCase(file, single, caseName, body, reset).events) == [caseName]
  {
    var last := if body.Throws? then TestFailed(file, caseName) else BlueslipReset;
    var ev := [WithOverrides(caseName), last];
    assert CasesRun([last]) == [];
    assert CasesRun(ev) == [caseName] + CasesRun([last]) by {
      assert ev[1..] == [last];
    }
    if single {
      assert TestCase(file, single, caseName, body, reset).events == [TestLabel(caseName)] + ev;
      assert ([TestLabel(caseName)] + ev)[1..] == ev;
    }
  }

  /** A step enters the body of its own test case and no other. */
  lemma StepEntersOnce(file: string, single: bool, s: Step)
    ensures CasesRun(StepRun(file, single, s).events) == StepLabel(s)
  {
    if s.RunTest? {
      TestCaseEntersOnce(file, single, s.caseName, s.body, s.reset);
    }
  }

  /** Once a step has failed, no later step runs. */
  lemma {:induction false} ModuleBodyStable(file: string, single: bool, steps: seq<Step>, i: nat, n: nat)
    requires i <= n <= |steps| && ModuleBody(file, single, steps, i).outcome.Throws?
    ensures ModuleBody(file, single, steps, n) == ModuleBody(file, single, steps, i)
    decreases n
  {
    if n > i {
      ModuleBodyStable(file, single, steps, i, n - 1);
    }
  }

  /** Up to the first failing step, every case is entered, in order. */
  lemma {:induction false} ModuleBodyRunsPrefix(file: string, single: bool, steps: seq<Step>, n: nat)
    requires n <= |steps|
    requires forall j | 0 <= j < n :: !StepFails(steps[j])
    ensures ModuleBody(file, single, steps, n).outcome == Ok
    ensures CasesRun(ModuleBody(file, single, steps, n).events) == Labels(steps[..n])
    decreases n
  {
    if n > 0 {
      ModuleBodyRunsPrefix(file, single, steps, n - 1);
      assert steps[..n][..n - 1] == steps[..n - 1];
      StepEntersOnce(file, single, steps[n - 1]);
      CasesRunAppend(ModuleBody(file, single, steps, n - 1).events, StepRun(file, single, steps[n - 1]).events);
    }
  }

  /** With `k` the first failing step, exactly the cases among steps
      `0..k` are entered, and the error of step `k` escapes the module. */
  lemma ModuleBodyStopsAtFirstFailure(file: string, single: bool, steps: seq<Step>, k: nat)
    requires k < |steps| && StepFails(steps[k])
    requires forall j | 0 <= j < k :: !StepFails(steps[j])
    ensures ModuleBody(file, single, steps, |steps|).outcome == Throws(StepError(steps[k]))
    ensures CasesRun(ModuleBody(file, single, steps, |steps|).events) == Labels(steps[..k + 1])
  {
    ModuleBodyRunsPrefix(file, single, steps, k);
    assert steps[..k + 1][..k] == steps[..k];
    StepEntersOnce(file, single, steps[k]);
    CasesRunAppend(ModuleBody(file, single, steps, k).events, StepRun(file, single, steps[k]).events);
    ModuleBodyStable(file, single, steps, k + 1, |steps|);
  }

  /** Without a failing step, every case is entered, in order. */
  lemma ModuleBodyRunsAll(file: string, single: bool, steps: seq<Step>)
    requires forall j | 0 <= j < |steps| :: !StepFails(steps[j])
    ensures ModuleBody(file, single, steps, |steps|).outcome == Ok
    ensures CasesRun(ModuleBody(file, single, steps, |steps|).events) == Labels(steps)
  {
    ModuleBodyRunsPrefix(file, single, steps, |steps|);
    assert steps[..|steps|] == steps;
  }

  // ---------------------------------------------------------------------
  // The order of the steps for one file

  /** The events of one file: the set-up, the module, and the clean-up
      when the module completed. */
  lemma FileRunShape(f: TestFile, single: bool)
    ensures var body := ModuleBody(f.path, single, f.steps, |f.steps|);
            FileRun(f, single).events ==
              SetupEvents + [RunningTest(f.path)] + (body.events +
              (if body.outcome.Throws? then [] else Teardown(f).events))
  {
    var body := ModuleBody(f.path, single, f.steps, |f.steps|);
    var tail := if body.outcome.Throws? then [] else Teardown(f).events;
    assert SetupEvents + [RunningTest(f.path)] + body.events + tail ==
           SetupEvents + [RunningTest(f.path)] + (body.events + tail);
  }

  /** After the module's announcement the runner makes none of its own
      set-up calls and requires no other test file. */
  lemma AfterAnnouncement(f: TestFile, single: bool)
    ensures var body := ModuleBody(f.path, single, f.steps, |f.steps|);
            var post := body.events + (if body.outcome.Throws? then [] else Teardown(f).events);
            forall i | 0 <= i < |post| :: !IsSetupEvent(post[i]) && !post[i].RunningTest?
  {
    var body := ModuleBody(f.path, single, f.steps, |f.steps|);
    var tail := if body.outcome.Throws? then [] else Teardown(f).events;
    var post := body.events + tail;
    ModuleBodyCaseEvents(f.path, single, f.steps, |f.steps|);
    TeardownEvents(f);
    forall i | 0 <= i < |post| ensures !IsSetupEvent(post[i]) && !post[i].RunningTest? {
      if i < |body.events| {
        assert IsCaseEvent(body.events[i]);
      } else {
        assert IsTeardownEvent(tail[i - |body.events|]);
      }
    }
  }

  /** The globals are installed and the stale references cleared before the
      module is required, and the runner makes no set-up call after that. */
  lemma SetupBeforeModule(f: TestFile, single: bool)
    ensures var ev := FileRun(f, single).events;
            |ev| >= 7 &&
            ev[..7] == SetupEvents + [RunningTest(f.path)] &&
            forall i | 7 <= i < |ev| :: !IsSetupEvent(ev[i]) && !ev[i].RunningTest?
  {
    var body := ModuleBody(f.path, single, f.steps, |f.steps|);
    var post := body.events + (if body.outcome.Throws? then [] else Teardown(f).events);
    var head := SetupEvents + [RunningTest(f.path)];
    FileRunShape(f, single);
    AfterAnnouncement(f, single);
    var ev := FileRun(f, single).events;
    assert ev == head + post;
    assert ev[..7] == head;
    forall i | 7 <= i < |ev| ensures !IsSetupEvent(ev[i]) && !ev[i].RunningTest? {
      assert ev[i] == post[i - 7];
    }
  }

  /** After a file that does not fail, `blueslip.reset` (when present) comes
      before `namespace.restore`, which comes before the template engine is
      renewed; these are the last steps of the file. */
  lemma TeardownAfterModule(f: TestFile, single: bool)
    requires !FileFails(f)
    ensures var ev := FileRun(f, single).events;
            |ev| >= 9 &&
            ev[|ev| - 2..] == [NamespaceRestore, HandlebarsReset] &&
            (f.hasReset ==> ev[|ev| - 3] == BlueslipReset)
  {
    FileRunShape(f, single);
    ModuleBodyOutcome(f.path, single, f.steps, |f.steps|);
  }

  /** Each iteration of the loop requires exactly its own test file. */
  lemma FileRunsOneModule(f: TestFile, single: bool)
    ensures Modules(FileRun(f, single).events) == [f.path]
  {
    var body := ModuleBody(f.path, single, f.steps, |f.steps|);
    var post := body.events + (if body.outcome.Throws? then [] else Teardown(f).events);
    FileRunShape(f, single);
    AfterAnnouncement(f, single);
    ModulesAround(SetupEvents, f.path, post);
  }

  // ---------------------------------------------------------------------
  // Files run in order, and the first failure stops the loop

  /** Once a file has failed, no later file runs. */
  lemma {:induction false} EachFileStable(files: seq<TestFile>, single: bool, i: nat, n: nat)
    requires i <= n <= |files| && EachFile(files, single, i).outcome.Throws?
    ensures EachFile(files, single, n) == EachFile(files, single, i)
    decreases n
  {
    if n > i {
      EachFileStable(files, single, i, n - 1);
    }
  }

  /** Up to the first failing file, each file's module is required, in
      order. */
  lemma {:induction false} EachFileRunsPrefix(files: seq<TestFile>, single: bool, n: nat)
    requires n <= |files|
    requires forall j | 0 <= j < n :: !FileFails(files[j])
    ensures EachFile(files, single, n).outcome == Ok
    ensures Modules(EachFile(files, single, n).events) == Paths(files[..n])
    decreases n
  {
    if n > 0 {
      EachFileRunsPrefix(files, single, n - 1);
      FileRunOutcome(files[n - 1], single);
      assert files[..n][..n - 1] == files[..n - 1];
      FileRunsOneModule(files[n - 1], single);
      ModulesAppend(EachFile(files, single, n - 1).events, FileRun(files[n - 1], single).events);
    }
  }

  /** With `k` the first failing file, the modules of files `0..k` are
      required, in order, and file `k`'s error ends the loop. */
  lemma EachFileStopsAtFirstFailure(files: seq<TestFile>, single: bool, k: nat)
    requires k < |files| && FileFails(files[k])
    requires forall j | 0 <= j < k :: !FileFails(files[j])
    ensures EachFile(files, single, |files|).outcome == FileRun(files[k], single).outcome
    ensures Modules(EachFile(files, single, |files|).events) == Paths(files[..k + 1])
  {
    EachFileRunsPrefix(files, single, k);
    FileRunOutcome(files[k], single);
    assert files[..k + 1][..k] == files[..k];
    FileRunsOneModule(files[k], single);
    ModulesAppend(EachFile(files, single, k).events, FileRun(files[k], single).events);
    EachFileStable(files, single, k + 1, |files|);
  }

  lemma EachFileRunsAll(files: seq<TestFile>, single: bool)
    requires forall j | 0 <= j < |files| :: !FileFails(files[j])
    ensures EachFile(files, single, |files|).outcome == Ok
    ensures Modules(EachFile(files, single, |files|).events) == Paths(files)
  {
    EachFileRunsPrefix(files, single, |files|);
    assert files[..|files|] == files;
  }

  /** The first `n` files of `a` run inside `a + b` as they run alone. */
  lemma {:induction false} EachFilePrefix(a: seq<TestFile>, b: seq<TestFile>, single: bool, n: nat)
    requires n <= |a|
    ensures EachFile(a + b, single, n) == EachFile(a, single, n)
    decreases n
  {
    if n > 0 {
      EachFilePrefix(a, b, single, n - 1);
      assert (a + b)[n - 1] == a[n - 1];
    }
  }

  /** After all of `a` completed, the files of `b` run inside `a + b` as they
      run alone, after the events of `a`. */
  lemma {:induction false} EachFileAfter(a: seq<TestFile>, b: seq<TestFile>, single: bool, m: nat)
    requires m <= |b| && EachFile(a, single, |a|).outcome.Ok?
    ensures EachFile(a + b, single, |a| + m) == Prepend(EachFile(a, single, |a|).events, EachFile(b, single, m))
    decreases m
  {
    if m == 0 {
      EachFilePrefix(a, b, single, |a|);
    } else {
      EachFileAfter(a, b, single, m - 1);
      assert (a + b)[|a| + m - 1] == b[m - 1];
      var pre := EachFile(a, single, |a|).events;
      var before := EachFile(b, single, m - 1);
      if before.outcome.Ok? {
        var head := FileRun(b[m - 1], single);
        Regroup(pre, before.events, head.events);
      }
    }
  }

  /** Running `a` then `b` in one loop is running `a`, then `b`: no state is
      threaded from one file to the next except through the outcome. */
  lemma EachFileAppend(a: seq<TestFile>, b: seq<TestFile>, single: bool)
    ensures EachFile(a, single, |a|).outcome.Throws? ==>
              EachFile(a + b, single, |a + b|) == EachFile(a, single, |a|)
    ensures EachFile(a, single, |a|).outcome.Ok? ==>
              EachFile(a + b, single, |a + b|) == Prepend(EachFile(a, single, |a|).events, EachFile(b, single, |b|))
  {
    EachFilePrefix(a, b, single, |a|);
    if EachFile(a, single, |a|).outcome.Throws? {
      EachFileStable(a + b, single, |a|, |a + b|);
    } else {
      EachFileAfter(a, b, single, |b|);
    }
  }

  // ---------------------------------------------------------------------
  // The whole run

  /** With `k` the first failing file, the modules of files `0..k` were
      required, in order, no later one, and the report of file `k`'s error
      is the last thing printed before exit status 1. */
  lemma SuiteStopsAtFirstFailure(files: seq<TestFile>, k: nat)
    requires k < |files| && FileFails(files[k])
    requires forall j | 0 <= j < k :: !FileFails(files[j])
    ensures var r := Suite(files);
            r.Exited? && r.status == 1 && |r.events| > 0 &&
            Modules(r.events) == Paths(files[..k + 1]) &&
            FileRun(files[k], |files| == 1).outcome.Throws? &&
            r.events[|r.events| - 1] == Report(ReportText(FileRun(files[k], |files| == 1).outcome.error))
  {
    var single := |files| == 1;
    FileRunOutcome(files[k], single);
    EachFileStopsAtFirstFailure(files, single, k);
    var run := EachFile(files, single, |files|);
    ModulesAppend(run.events, [Report(ReportText(run.outcome.error))]);
  }

  lemma SuitePasses(files: seq<TestFile>)
    requires |files| > 0
    requires forall j | 0 <= j < |files| :: !FileFails(files[j])
    ensures var r := Suite(files);
            r.Exited? && r.status == 0 && Modules(r.events) == Paths(files)
  {
    EachFileRunsAll(files, |files| == 1);
  }
}
