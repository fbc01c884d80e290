# zjsunit runner, modelled in Dafny

This project models the core of the Zulip frontend test runner,
`frontend_tests/zjsunit/index.js`. The runner is given a list of test files.
It refuses an empty list with the error "No tests found". For each file, in
order, it does four things:

1. It installs stand-in globals (`location`, `setTimeout`, `setInterval`, a
   fresh `blueslip` diagnostic stub, `i18n`) and clears stale references.
2. It announces the file, records it as `current_file_name` and requires its
   module.
3. The module's top-level code calls `run_test(label, f)` for each test case.
4. When the module completes, the runner cleans up: `blueslip.reset()` if
   present, then `namespace.restore()` and a fresh Handlebars environment.

`run_test` prints the label when only one file runs. It runs the body under
`namespace.with_overrides`. If the body throws, it prints which file and case
failed and rethrows the same error. Otherwise it calls `blueslip.reset()`.

The first error that escapes ends the loop. The top-level `catch` prints
`short_tb(error.stack)` and exits with status 1. `short_tb` keeps the lines of
the stack trace up to and including the first one that mentions `run_test` or
`run_one_module`, then appends `"\n(...)\n"`.

The project has three modules:

- **`Traceback`** (`traceback.dfy`) models `short_tb` as pure functions: `Split`
  and `Join` on the newline, `findIndex` as `FindMarkerLine`, and `includes` as
  `Contains`. It proves the result in two ways:
  - on the lines of the trace: which lines are kept, and that nothing after
    the first marker line survives;
  - on its characters: the result is the trace cut at the end of the line that
    holds the leftmost mention of either name, plus the elision marker.
- **`Protocol`** (`protocol.dfy`) holds the runner's observable behaviour as
  functions:
  - what one test case does (`TestCase`);
  - one top-level step of a module (`StepRun`);
  - the module (`ModuleBody`), the clean-up (`Teardown`) and one file
    (`FileRun`);
  - the first `n` iterations of the loop (`EachFile`);
  - the whole process (`Suite`).

  The behaviour is recorded as a list of events. Lemmas prove:
  - when the run stops and with which error;
  - the order of the events within one file;
  - which modules and test cases are entered;
  - how the loop composes over concatenated file lists.
- **`Harness`** (`harness.dfy`) holds the runner as the source has it: a class
  with its mutable state, `current_file_name` and the trace of what it has done.
  Its methods (`RunTest`, `RunOneModule`, the per-file set-up and clean-up, and
  the loop over the files) are each proved against the matching `Protocol`
  function.

Collaborators whose code is not part of this model appear only through their
outcome: a test body, a module's own top-level code, and `blueslip.reset()`
each complete or throw an error. The calls into `namespace` and Handlebars
appear as events and always complete.

## Model

| member | source | states |
|---|---|---|
| Traceback.IndexOfAt | frontend_tests/zjsunit/index.js:56 | The piece boundary used by `split` is the first newline, or the end of a string that has none. |
| Traceback.IndexOfFirst | frontend_tests/zjsunit/index.js:56 | No newline comes before the position where `split` cuts the first piece. |
| Traceback.SplitLines | frontend_tests/zjsunit/index.js:56 | `split("\n")` yields at least one piece, and no piece contains a newline. |
| Traceback.JoinSplit | frontend_tests/zjsunit/index.js:56-66 | Joining the pieces of `split("\n")` with newlines gives back the original trace. |
| Traceback.SplitJoin | frontend_tests/zjsunit/index.js:56-66 | Splitting a join of newline-free lines gives back exactly those lines. |
| Traceback.ContainsOccurs | frontend_tests/zjsunit/index.js:59 | `line.includes(name)` holds exactly when `name` occurs at some position of `line`. |
| Traceback.FindMarkerLine | frontend_tests/zjsunit/index.js:58-60 | `findIndex` returns -1 or an index of the list, and a returned index holds a line naming `run_test` or `run_one_module`. |
| Traceback.FindMarkerLineFirst | frontend_tests/zjsunit/index.js:58-60 | `findIndex` returns -1 exactly when no line names either function; no line before the returned index names one. |
| Traceback.FirstMarkerLine | frontend_tests/zjsunit/index.js:58-60 | The first line that names either function is the index `findIndex` returns. |
| Traceback.ShortTbByLines | frontend_tests/zjsunit/index.js:55-67 | With no marker line the trace is returned unchanged; with the first marker line at `i`, the result is lines `0..i` joined plus `"\n(...)\n"`. |
| Traceback.ShortTbNotFound | frontend_tests/zjsunit/index.js:62-64 | When no line is a marker line, `short_tb` returns the trace itself. |
| Traceback.ShortTbKeepsFirstLines | frontend_tests/zjsunit/index.js:55-67 | With the first marker line at `i`, the result is a prefix of the trace plus the elision marker, and that prefix splits into exactly lines `0..i`: no later line survives. |
| Traceback.FirstLinesOf | frontend_tests/zjsunit/index.js:66 | The first `n` lines of a trace, joined, are a prefix of it and split back into those same lines. |
| Traceback.ShortTbWithoutMarker | frontend_tests/zjsunit/index.js:58-64 | A trace in which neither name occurs anywhere is reported unchanged. |
| Traceback.KeptIsLineOfFirstMarker | frontend_tests/zjsunit/index.js:56-66 | A marker line exists, and the kept lines joined are the trace up to the end of the line holding the leftmost mention of either name. |
| Traceback.ShortTbCutsAtFirstMarker | frontend_tests/zjsunit/index.js:55-67 | `short_tb` is the trace cut at the newline (or end) after the leftmost mention of either name, followed by `"\n(...)\n"`. |
| Protocol.TestCaseEvents | frontend_tests/zjsunit/index.js:77-91 | The label is printed iff one file runs; the body always runs under `with_overrides`; the failure line appears iff the body throws; `blueslip.reset` is reached iff the body passes and is then the last thing done. |
| Protocol.TestCaseEntersOnce | frontend_tests/zjsunit/index.js:81-82 | Each `run_test` call enters exactly its own body, once. |
| Protocol.StepRun | frontend_tests/zjsunit/index.js:77-91 | A top-level step of a module fails exactly when it raises, its body throws or its reset throws, and then with that error. |
| Protocol.StepEntersOnce | frontend_tests/zjsunit/index.js:77-91 | A step enters the body of its own test case and nothing else; a raising step enters none. |
| Protocol.ModuleBodyOutcome | frontend_tests/zjsunit/index.js:74 | Requiring a module fails exactly when one of its top-level steps fails. |
| Protocol.ModuleBodyCaseEvents | frontend_tests/zjsunit/index.js:77-91 | Of the runner's own events, a module's run produces only test-case events (labels, `with_overrides`, failure lines, resets). |
| Protocol.ModuleBodyStable | frontend_tests/zjsunit/index.js:74 | Once a step has thrown, no later step of the module runs. |
| Protocol.ModuleBodyRunsPrefix | frontend_tests/zjsunit/index.js:74 | When the first `n` steps complete, the module completes them, entering exactly their test cases in order. |
| Protocol.ModuleBodyStopsAtFirstFailure | frontend_tests/zjsunit/index.js:74-91 | With step `k` the first to fail, the module throws step `k`'s error, having entered the test cases of steps `0..k` and no later one. |
| Protocol.ModuleBodyRunsAll | frontend_tests/zjsunit/index.js:74 | A module whose steps all complete completes, entering every test case in order. |
| Protocol.TeardownEvents | frontend_tests/zjsunit/index.js:109-114 | The clean-up throws iff `blueslip.reset` is present and throws; `namespace.restore` is reached iff it does not throw; the reset is called iff present. |
| Protocol.FileRunOutcome | frontend_tests/zjsunit/index.js:94-115 | A file fails exactly when a step of its module fails or its final reset throws; `namespace.restore` is called exactly when it does not fail. |
| Protocol.AfterAnnouncement | frontend_tests/zjsunit/index.js:71-74 | After the announcement the runner makes none of its own set-up calls and requires no other test file. |
| Protocol.SetupBeforeModule | frontend_tests/zjsunit/index.js:95-107 | `location`, `setTimeout`, `setInterval`, `blueslip`, `i18n` are installed and the stale references cleared, in that order, before the module is required, and the runner makes none of these set-up calls after that. |
| Protocol.TeardownAfterModule | frontend_tests/zjsunit/index.js:107-114 | After a file that does not fail, the file ends with `blueslip.reset` (when present), then `namespace.restore`, then the fresh Handlebars environment. |
| Protocol.FileRunsOneModule | frontend_tests/zjsunit/index.js:71-74 | Each iteration of the loop requires exactly its own test file. |
| Protocol.EachFileOutcome | frontend_tests/zjsunit/index.js:93-115 | The loop fails exactly when one of its files fails. |
| Protocol.EachFileStable | frontend_tests/zjsunit/index.js:93-115 | Once a file has thrown, no later file runs. |
| Protocol.EachFileRunsPrefix | frontend_tests/zjsunit/index.js:94-115 | When the first `n` files pass, the loop requires exactly their modules, in order, and completes. |
| Protocol.EachFileStopsAtFirstFailure | frontend_tests/zjsunit/index.js:93-116 | With file `k` the first to fail, the loop ends with file `k`'s error, having required the modules of files `0..k` and no later one. |
| Protocol.EachFileRunsAll | frontend_tests/zjsunit/index.js:94-115 | When every file passes, the loop requires every module in order and completes. |
| Protocol.EachFilePrefix | frontend_tests/zjsunit/index.js:94-115 | With the same label setting, the loop over the first files of `a + b` leaves the same events and outcome as the loop over those files of `a` alone. |
| Protocol.EachFileAfter | frontend_tests/zjsunit/index.js:94-115 | With the same label setting, after a list `a` that completed, the files of `b` inside `a + b` leave the same events and outcome as the loop over `b` alone. |
| Protocol.EachFileAppend | frontend_tests/zjsunit/index.js:94-115 | With the same label setting, running `a + b` is running `a`, then, only if `a` completed, running `b`: the loop carries nothing from one file to the next except whether it threw. |
| Protocol.ReportOfMarkedTrace | frontend_tests/zjsunit/index.js:116-119 | A stack that mentions either entry point is reported up to the end of the line of the leftmost mention, plus the elision marker. |
| Protocol.ReportOfUnmarkedTrace | frontend_tests/zjsunit/index.js:116-121 | A stack that mentions neither entry point is reported as it is; the error itself is reported when it has no stack or an empty one. |
| Protocol.Suite | frontend_tests/zjsunit/index.js:31-123 | An empty list is exactly the startup error "No tests found"; otherwise the exit status is 1 iff some file fails and 0 iff none does. |
| Protocol.SuiteStopsAtFirstFailure | frontend_tests/zjsunit/index.js:93-123 | With file `k` the first to fail, the modules of files `0..k` were required and no later one, exit status is 1, and the last output is the report of file `k`'s error. |
| Protocol.SuitePasses | frontend_tests/zjsunit/index.js:93-115 | When every file passes, every module is required in order and exit status is 0. |
| Harness.Runner.constructor | frontend_tests/zjsunit/index.js:69 | Before any module runs, `current_file_name` is undefined and nothing has been done; labels are printed iff exactly one file was given. |
| Harness.Runner.RunTest | frontend_tests/zjsunit/index.js:77-91 | `run_test` appends the events of `TestCase` for the current file; a throwing body's error is rethrown unchanged, after the failure line naming `current_file_name`. |
| Harness.Runner.RunStep | frontend_tests/zjsunit/index.js:74 | One top-level step of the module being required does what `StepRun` says. |
| Harness.Runner.RunOneModule | frontend_tests/zjsunit/index.js:71-75 | `run_one_module` announces the file, sets `current_file_name` to it, and runs the module's steps in order until one throws, as `ModuleBody` says. |
| Harness.Runner.SetUp | frontend_tests/zjsunit/index.js:95-105 | The five globals are installed and stale references cleared, in source order. |
| Harness.Runner.TearDown | frontend_tests/zjsunit/index.js:109-114 | The clean-up does what `Teardown` says, and stops at a throwing `blueslip.reset`. |
| Harness.Runner.RunFile | frontend_tests/zjsunit/index.js:94-115 | One iteration of `files.forEach` does what `FileRun` says and leaves `current_file_name` at that file. |
| Harness.Runner.RunFiles | frontend_tests/zjsunit/index.js:93-115 | The loop over the files leaves exactly the events and the outcome of `EachFile` over all files, and `current_file_name` at the path of the last file it ran: the last file when all pass, a file whose run threw otherwise. |
| Harness.RunSuite | frontend_tests/zjsunit/index.js:31-123 | The whole script's result is `Suite(files)`; an empty list is the startup error "No tests found". |

## Left out

- Registration of the Babel transpiler (lines 14-23): it changes how modules
  are loaded, not what the runner does.
- The `window` proxy and `to_$` (lines 37-43), the Handlebars `require` hook
  (line 46) and the fake `module.hot` (lines 50-53) are set up once and are
  not observable in the protocol.
- The replacement of lodash `throttle`/`debounce` by `immediate` (lines 25-28
  and 100-101) is left out. It alters library behaviour, not the order of the
  runner's own steps.
- The values installed as globals are not modelled; only which name is
  installed, and when, is. This covers the fake `location`, the no-op timers,
  the `make_zblueslip()` stub and the `i18n` stub.
- The internals of `namespace` are not part of this model. This covers
  `set_global`, `with_overrides`, `clear_zulip_refs` and `restore`. Each call is
  an event that always completes.
- Calls a test module or its test bodies make on their own are not events of
  the model. This covers `namespace.set_global`, writes to `window` that the
  proxy turns into `set_global` (lines 37-42), overrides, and the module's
  own `require`s. The rows about events speak only of the runner's own calls.
- `Handlebars.HandlebarsEnvironment()` is an event that always completes.
- `require(file)` is modelled as the module's top-level steps: `run_test` calls,
  or an error the module throws itself. Module caching, nested `require`s and
  asynchronous code are not modelled.
- Console output is modelled as events, not as text:
  - the dashed separator and the blank line of a failure are part of the
    `TestFailed` event;
  - the announcement records the file's path, not `path.basename(file, ".js")`.
- `console.info(error)` for an error without a stack is modelled as printing
  the error's message.
- `process.argv` is the `files` parameter, and `process.exit(1)` is the
  `Exited` result with status 1.
- Test modules are modelled as never catching the error that `run_test`
  rethrows, and test bodies as never calling `run_test` themselves. A module
  that catches that error and carries on, or a nested test case, cannot be
  expressed. Protocol.ModuleBodyOutcome, Protocol.ModuleBodyStopsAtFirstFailure
  and the file, loop and suite lemmas built on them hold only under this
  assumption.
- A thrown value is modelled as an error with a message and an optional
  stack. `throw null` and `throw undefined` are not expressible; for those,
  reading `error.stack` in the catch (line 117) would itself throw and no
  report would be printed.
- Each file's step outcomes and final reset outcome are fixed inputs. Files
  really share the process globals, the `require` cache beyond
  `clear_zulip_refs`, the lodash patch and whatever `namespace.restore` leaves
  behind; a file whose outcome depends on what an earlier file left behind
  cannot be expressed. The label setting is `files.length === 1` (line 78),
  so a file run alone prints its labels and the same file in a longer list
  does not; the lemmas relating lists hold for a fixed label setting.
- Strings are sequences of Unicode scalar values, not UTF-16 code units, so a
  trace holding a lone surrogate cannot be represented. `short_tb` only looks
  for the newline and two ASCII names, so it agrees on every other string.
- Harness.Runner.RunFiles: requires a runner that has done nothing yet. The
  script runs its loop once, at start-up, on fresh state.
- In three places the code does something a reader might not expect; the
  model follows the code:
  - `blueslip.reset()` in `run_test` comes after the `try`/`catch`
    (line 90), so it is not called when a body throws;
  - `namespace.restore()` is not in a `finally` block (line 113), so a file
    whose module throws is never restored. This makes no difference here
    because the first error ends the whole run;
  - `with_overrides` wraps each test body (line 82), not the whole module.
