/**
 * The gulp tasks of gulpfile.js:78-165 as plans: each task is a
 * `gulp.series` of other tasks and of one job, a promise chain of actions
 * with a way of handling the first rejection. The libraries the actions call
 * (`del`, the composer, `gulp.src`/`dest`, `gulp-concat`, terser, the file
 * watcher) are not modelled; whether an action is rejected is a parameter.
 */
module Tasks {
  /** The registered task names. */
  datatype TaskName = CleanSrc | Combine | Watch | CleanBuild | Build | Dist

  const TmplFolder: string := "tmpl"
  const SrcFolder: string := "src"
  const BuildFolder: string := "build"
  const DistFolder: string := "./dist"
  /** What `watch` observes, what `build` minifies, and what `dist` concatenates, in this order. */
  const WatchGlob: string := TmplFolder + "/**/*"
  const BuildGlob: string := SrcFolder + "/**/*.js"
  const DistSources: seq<string> := ["./src/index.js", "./src/views/**"]

  /** What one link of a task's promise chain does. */
  datatype Action =
    | Delete(path: string)                                  // `del(path)`
    | ConfigureDebug(debug: bool)                           // `combineTool.config({ debug })`
    | CombineAll                                            // `combineTool.combine()`
    | StartWatch(glob: string)                              // `watch(glob, dispatch)`
    | MinifyEach(glob: string, dest: string)                // `gulp.src(glob).pipe(minify).pipe(dest)`
    | ConcatMinify(sources: seq<string>, name: string, dest: string)  // the same through `concat(name)`

  /** Only the promises of `del` and of the composer's `combine` can be rejected here. */
  predicate CanFail(a: Action)
  {
    a.Delete? || a.CombineAll?
  }

  /** What a job does with the first rejection in its chain. */
  datatype OnError =
    | ExitProcess  // `.catch(ex => { console.log(...); process.exit(); })`
    | LogOnly      // `.catch(ex => { console.error(ex); })`: the task still completes
    | Propagate    // no `.catch`: gulp sees the task fail

  /**
   * One entry of a `gulp.series`: another task by name, or an inline function.
   * `signals` says whether the function tells gulp when it is finished, by
   * returning its promise; one that returns nothing and takes no callback
   * never does.
   */
  datatype Step = Run(task: TaskName) | Job(actions: seq<Action>, onError: OnError, signals: bool)

  /**
   * How a run ends: every step completed, the task failed, the process
   * exited, or a step never signalled completion, so gulp waits forever.
   */
  datatype Outcome = Done | Failed | Exited | Running

  /** The actions attempted, in order, and how the run ended. */
  datatype Trace = Trace(actions: seq<Action>, outcome: Outcome)

  /** The chain of `build`'s own function: configure, `combine()`, then minify `src` into `build`. */
  const BuildJob: seq<Action> := [ConfigureDebug(false), CombineAll, MinifyEach(BuildGlob, BuildFolder)]

  /** The chain of `dist`'s own function: configure, `del('./dist')`, `combine()`, then concatenate and minify. */
  const DistJob: seq<Action> :=
    [ConfigureDebug(false), Delete(DistFolder), CombineAll, ConcatMinify(DistSources, "index.js", DistFolder)]

  /**
   * The plan of each task as gulpfile.js declares it: the tasks it depends
   * on, then its own function.
   */
  function Plan(n: TaskName): (p: seq<Step>)
    ensures p != [] && p[|p| - 1].Job?
    ensures forall i :: 0 <= i < |p| - 1 ==> p[i].Run?
  {
    match n
    case CleanSrc => [Job([Delete(SrcFolder)], Propagate, true)]
    case Combine => [Run(CleanSrc), Job([CombineAll], ExitProcess, true)]
    case Watch => [Run(Combine), Job([StartWatch(WatchGlob)], Propagate, false)]
    case CleanBuild => [Job([Delete(BuildFolder)], Propagate, true)]
    case Build =>
      [Run(CleanBuild), Run(CleanSrc),
       Job(BuildJob, LogOnly, true)]
    case Dist =>
      [Run(CleanSrc),
       Job(DistJob, Propagate, true)]
  }

  /** A height for each task: a plan only names tasks of smaller height, so plans are acyclic. */
  function Rank(n: TaskName): nat
  {
    match n
    case CleanSrc => 0
    case CleanBuild => 0
    case Combine => 1
    case Build => 1
    case Dist => 1
    case Watch => 2
  }

  /** Every task named in `steps` is below `bound`. */
  predicate Below(steps: seq<Step>, bound: nat)
  {
    forall i :: 0 <= i < |steps| && steps[i].Run? ==> Rank(steps[i].task) < bound
  }

  lemma PlanAcyclic(n: TaskName)
    ensures Below(Plan(n), Rank(n))
  {
  }

  /** How a job whose chain was rejected ends. */
  function Caught(onError: OnError): Outcome
  {
    match onError
    case ExitProcess => Exited
    case LogOnly => Done
    case Propagate => Failed
  }

  /**
   * A job: the chain of `actions` stops at the first rejected one (which is
   * attempted, hence in the trace), and `onError` decides how the job ends.
   */
  function RunJob(actions: seq<Action>, onError: OnError, fails: Action -> bool): (t: Trace)
    ensures |t.actions| <= |actions| && t.actions == actions[..|t.actions|]
    ensures t.outcome == Done || t.actions != []
    decreases |actions|
  {
    if actions == [] then Trace([], Done)
    else if Rejected(actions[0], fails) then Trace([actions[0]], Caught(onError))
    else
      var rest := RunJob(actions[1..], onError, fails);
      Trace([actions[0]] + rest.actions, rest.outcome)
  }

  /**
   * A job stops exactly at its first rejection: no action before the last
   * attempted one was rejected; a chain cut short ends with the rejected
   * action and the outcome `onError` gives; otherwise the whole chain ran
   * and the job is done.
   */
  lemma {:induction false} JobStops(actions: seq<Action>, onError: OnError, fails: Action -> bool)
    ensures var t := RunJob(actions, onError, fails);
            (forall i :: 0 <= i < |t.actions| - 1 ==> !Rejected(t.actions[i], fails)) &&
            (t.actions != [] && Rejected(t.actions[|t.actions| - 1], fails) ==> t.outcome == Caught(onError)) &&
            (!(t.actions != [] && Rejected(t.actions[|t.actions| - 1], fails)) ==> t == Trace(actions, Done))
    decreases |actions|
  {
    if actions != [] && !Rejected(actions[0], fails) {
      JobStops(actions[1..], onError, fails);
      var rest := RunJob(actions[1..], onError, fails);
      var t := RunJob(actions, onError, fails);
      assert t.actions == [actions[0]] + rest.actions;
      assert forall i :: 0 < i < |t.actions| ==> t.actions[i] == rest.actions[i - 1];
      assert rest.actions == [] ==> t.actions == [actions[0]];
      assert [actions[0]] + actions[1..] == actions;
    }
  }

  /** `gulp.series(steps)`: each step once it predecessor is done; the first that is not done ends it. */
  function RunSteps(steps: seq<Step>, bound: nat, fails: Action -> bool): Trace
    requires Below(steps, bound)
    decreases bound, 0, |steps|
  {
    if steps == [] then Trace([], Done)
    else
      var first := RunStep(steps[0], bound, fails);
      if first.outcome != Done then first
      else
        var rest := RunSteps(steps[1..], bound, fails);
        Trace(first.actions + rest.actions, rest.outcome)
  }

  /** One entry of a series: a named task, or an inline job. */
  function RunStep(step: Step, bound: nat, fails: Action -> bool): (t: Trace)
    requires step.Run? ==> Rank(step.task) < bound
    ensures step.Job? ==> t.actions <= step.actions
    ensures step.Job? && !step.signals ==> t.outcome != Done
    decreases bound, 0, 0
  {
    match step
    case Run(n) => RunTask(n, fails)
    case Job(actions, onError, signals) =>
      var t := RunJob(actions, onError, fails);
      if t.outcome == Done && !signals then Trace(t.actions, Running) else t
  }

  /** Running the task `n`: its plan, as a series. */
  function RunTask(n: TaskName, fails: Action -> bool): Trace
    decreases Rank(n), 1, 0
  {
    PlanAcyclic(n);
    RunSteps(Plan(n), Rank(n), fails)
  }

  /** Nothing is rejected. */
  const NoFailure: Action -> bool := (a: Action) => false

  /** The actions a task attempts when nothing is rejected. */
  function FullRun(n: TaskName): seq<Action>
  {
    RunTask(n, NoFailure).actions
  }

  /** `action` was attempted and its promise rejected. */
  predicate Rejected(a: Action, fails: Action -> bool)
  {
    CanFail(a) && fails(a)
  }

  /** An action that writes the result of compiling, or starts watching for more. */
  predicate IsOutput(a: Action)
  {
    a.StartWatch? || a.MinifyEach? || a.ConcatMinify?
  }

  /** Without rejections a job runs its whole chain. */
  lemma {:induction false} JobFull(actions: seq<Action>, onError: OnError)
    ensures RunJob(actions, onError, NoFailure) == Trace(actions, Done)
    decreases |actions|
  {
    if actions != [] {
      JobFull(actions[1..], onError);
      assert [actions[0]] + actions[1..] == actions;
    }
  }

  lemma JobCons(a: Action, rest: seq<Action>, onError: OnError, fails: Action -> bool)
    ensures RunJob([a] + rest, onError, fails) ==
            if Rejected(a, fails) then Trace([a], Caught(onError))
            else Trace([a] + RunJob(rest, onError, fails).actions, RunJob(rest, onError, fails).outcome)
  {
    assert ([a] + rest)[1..] == rest;
  }

  lemma SeriesCons(step: Step, rest: seq<Step>, bound: nat, fails: Action -> bool)
    requires Below([step] + rest, bound)
    ensures Below(rest, bound) && (step.Run? ==> Rank(step.task) < bound)
    ensures var first := RunStep(step, bound, fails);
            RunSteps([step] + rest, bound, fails) ==
            if first.outcome != Done then first
            else Trace(first.actions + RunSteps(rest, bound, fails).actions, RunSteps(rest, bound, fails).outcome)
  {
    assert ([step] + rest)[0] == step;
    assert ([step] + rest)[1..] == rest;
    forall i | 0 <= i < |rest|
      ensures rest[i] == ([step] + rest)[i + 1]
    {
    }
  }

  lemma SeriesOne(step: Step, bound: nat, fails: Action -> bool)
    requires step.Run? ==> Rank(step.task) < bound
    ensures Below([step], bound)
    ensures RunSteps([step], bound, fails) == RunStep(step, bound, fails)
  {
    assert [step][1..] == [];
    assert RunStep(step, bound, fails).actions + [] == RunStep(step, bound, fails).actions;
  }

  /**
   * What each task attempts and how it ends, written out: it depends only on
   * which of the deletions and whether the composer's run are rejected.
   */
  function Expected(n: TaskName, fails: Action -> bool): Trace
  {
    var src := Rejected(Delete(SrcFolder), fails);
    var bld := Rejected(Delete(BuildFolder), fails);
    var dst := Rejected(Delete(DistFolder), fails);
    var cmb := fails(CombineAll);
    match n
    case CleanSrc => Trace([Delete(SrcFolder)], if src then Failed else Done)
    case CleanBuild => Trace([Delete(BuildFolder)], if bld then Failed else Done)
    case Combine =>
      if src then Trace([Delete(SrcFolder)], Failed)
      else Trace([Delete(SrcFolder), CombineAll], if cmb then Exited else Done)
    case Watch =>
      if src then Trace([Delete(SrcFolder)], Failed)
      else if cmb then Trace([Delete(SrcFolder), CombineAll], Exited)
      else Trace([Delete(SrcFolder), CombineAll, StartWatch(WatchGlob)], Running)
    case Build =>
      if bld then Trace([Delete(BuildFolder)], Failed)
      else if src then Trace([Delete(BuildFolder), Delete(SrcFolder)], Failed)
      else if cmb then Trace([Delete(BuildFolder), Delete(SrcFolder), ConfigureDebug(false), CombineAll], Done)
      else Trace([Delete(BuildFolder), Delete(SrcFolder), ConfigureDebug(false), CombineAll,
                  MinifyEach(BuildGlob, BuildFolder)], Done)
    case Dist =>
      if src then Trace([Delete(SrcFolder)], Failed)
      else if dst then Trace([Delete(SrcFolder), ConfigureDebug(false), Delete(DistFolder)], Failed)
      else if cmb then Trace([Delete(SrcFolder), ConfigureDebug(false), Delete(DistFolder), CombineAll], Failed)
      else Trace([Delete(SrcFolder), ConfigureDebug(false), Delete(DistFolder), CombineAll,
                  ConcatMinify(DistSources, "index.js", DistFolder)], Done)
  }

  lemma CleanSrcRuns(fails: Action -> bool)
    ensures RunTask(CleanSrc, fails) == Expected(CleanSrc, fails)
  {
  }

  lemma CleanBuildRuns(fails: Action -> bool)
    ensures RunTask(CleanBuild, fails) == Expected(CleanBuild, fails)
  {
  }

  lemma CombineRuns(fails: Action -> bool)
    ensures RunTask(Combine, fails) == Expected(Combine, fails)
  {
    CleanSrcRuns(fails);
    var job := Job([CombineAll], ExitProcess, true);
    JobCons(CombineAll, [], ExitProcess, fails);
    assert [CombineAll] + [] == [CombineAll];
    assert Plan(Combine) == [Run(CleanSrc)] + [job];
    SeriesOne(job, 1, fails);
    SeriesCons(Run(CleanSrc), [job], 1, fails);
  }

  lemma WatchRuns(fails: Action -> bool)
    ensures RunTask(Watch, fails) == Expected(Watch, fails)
  {
    CombineRuns(fails);
    var job := Job([StartWatch(WatchGlob)], Propagate, false);
    JobCons(StartWatch(WatchGlob), [], Propagate, fails);
    assert [StartWatch(WatchGlob)] + [] == [StartWatch(WatchGlob)];
    assert Plan(Watch) == [Run(Combine)] + [job];
    SeriesOne(job, 2, fails);
    SeriesCons(Run(Combine), [job], 2, fails);
  }

  lemma BuildRuns(fails: Action -> bool)
    ensures RunTask(Build, fails) == Expected(Build, fails)
  {
    var job := Job(BuildJob, LogOnly, true);
    CleanBuildRuns(fails);
    BuildSrcSteps(fails);
    assert Plan(Build) == [Run(CleanBuild)] + [Run(CleanSrc), job];
    SeriesCons(Run(CleanBuild), [Run(CleanSrc), job], 1, fails);
  }

  /** The rest of `build`'s series, once `build` is cleared. */
  lemma BuildSrcSteps(fails: Action -> bool)
    ensures Below([Run(CleanSrc), Job(BuildJob, LogOnly, true)], 1)
    ensures RunSteps([Run(CleanSrc), Job(BuildJob, LogOnly, true)], 1, fails) ==
            if Rejected(Delete(SrcFolder), fails) then Trace([Delete(SrcFolder)], Failed)
            else if fails(CombineAll) then Trace([Delete(SrcFolder), ConfigureDebug(false), CombineAll], Done)
            else Trace([Delete(SrcFolder), ConfigureDebug(false), CombineAll, MinifyEach(BuildGlob, BuildFolder)], Done)
  {
    var job := Job(BuildJob, LogOnly, true);
    BuildJobRuns(fails);
    SeriesOne(job, 1, fails);
    CleanSrcRuns(fails);
    assert [Run(CleanSrc), job] == [Run(CleanSrc)] + [job];
    SeriesCons(Run(CleanSrc), [job], 1, fails);
  }

  /** `build`'s chain: a rejected `combine()` is only logged, and nothing is minified. */
  lemma BuildJobRuns(fails: Action -> bool)
    ensures RunJob(BuildJob, LogOnly, fails) ==
            if fails(CombineAll) then Trace([ConfigureDebug(false), CombineAll], Done)
            else Trace(BuildJob, Done)
  {
    var minify := MinifyEach(BuildGlob, BuildFolder);
    var t2 := if fails(CombineAll) then Trace([CombineAll], Done) else Trace([CombineAll, minify], Done);
    assert RunJob([CombineAll] + [minify], LogOnly, fails) == t2 by {
      JobCons(minify, [], LogOnly, fails);
      assert [minify] + [] == [minify];
      JobCons(CombineAll, [minify], LogOnly, fails);
    }
    assert RunJob([ConfigureDebug(false)] + ([CombineAll] + [minify]), LogOnly, fails) ==
           Trace([ConfigureDebug(false)] + t2.actions, Done) by {
      JobCons(ConfigureDebug(false), [CombineAll] + [minify], LogOnly, fails);
    }
    assert BuildJob == [ConfigureDebug(false)] + ([CombineAll] + [minify]);
  }

  lemma DistRuns(fails: Action -> bool)
    ensures RunTask(Dist, fails) == Expected(Dist, fails)
  {
    var job := Job(DistJob, Propagate, true);
    assert RunSteps([job], 1, fails) == RunJob(DistJob, Propagate, fails) by {
      SeriesOne(job, 1, fails);
    }
    CleanSrcRuns(fails);
    DistJobRuns(fails);
    assert Plan(Dist) == [Run(CleanSrc)] + [job];
    SeriesCons(Run(CleanSrc), [job], 1, fails);
  }

  /** `dist`'s chain: the first rejection ends it and fails the task. */
  lemma DistJobRuns(fails: Action -> bool)
    ensures RunJob(DistJob, Propagate, fails) ==
            if Rejected(Delete(DistFolder), fails) then Trace([ConfigureDebug(false), Delete(DistFolder)], Failed)
            else if fails(CombineAll) then Trace([ConfigureDebug(false), Delete(DistFolder), CombineAll], Failed)
            else Trace(DistJob, Done)
  {
    var out := ConcatMinify(DistSources, "index.js", DistFolder);
    var t2 := if fails(CombineAll) then Trace([CombineAll], Failed) else Trace([CombineAll, out], Done);
    assert RunJob([CombineAll] + [out], Propagate, fails) == t2 by {
      JobCons(out, [], Propagate, fails);
      assert [out] + [] == [out];
      JobCons(CombineAll, [out], Propagate, fails);
    }
    var t3 := if Rejected(Delete(DistFolder), fails) then Trace([Delete(DistFolder)], Failed)
              else Trace([Delete(DistFolder)] + t2.actions, t2.outcome);
    assert RunJob([Delete(DistFolder)] + ([CombineAll] + [out]), Propagate, fails) == t3 by {
      JobCons(Delete(DistFolder), [CombineAll] + [out], Propagate, fails);
    }
    assert RunJob([ConfigureDebug(false)] + ([Delete(DistFolder)] + ([CombineAll] + [out])), Propagate, fails) ==
           Trace([ConfigureDebug(false)] + t3.actions, t3.outcome) by {
      JobCons(ConfigureDebug(false), [Delete(DistFolder)] + ([CombineAll] + [out]), Propagate, fails);
    }
    assert DistJob == [ConfigureDebug(false)] + ([Delete(DistFolder)] + ([CombineAll] + [out]));
  }

  /** Running a task's plan gives the written-out trace. */
  lemma RunIsExpected(n: TaskName, fails: Action -> bool)
    ensures RunTask(n, fails) == Expected(n, fails)
  {
    match n
    case CleanSrc => CleanSrcRuns(fails);
    case CleanBuild => CleanBuildRuns(fails);
    case Combine => CombineRuns(fails);
    case Watch => WatchRuns(fails);
    case Build => BuildRuns(fails);
    case Dist => DistRuns(fails);
  }

  /** With nothing rejected, every task runs its whole plan, in the declared order. */
  lemma TaskOrders()
    ensures RunTask(Combine, NoFailure) == Trace([Delete(SrcFolder), CombineAll], Done)
    ensures RunTask(Watch, NoFailure) == Trace([Delete(SrcFolder), CombineAll, StartWatch(WatchGlob)], Running)
    ensures RunTask(Build, NoFailure) ==
            Trace([Delete(BuildFolder), Delete(SrcFolder), ConfigureDebug(false), CombineAll,
                   MinifyEach(BuildGlob, BuildFolder)], Done)
    ensures RunTask(Dist, NoFailure) ==
            Trace([Delete(SrcFolder), ConfigureDebug(false), Delete(DistFolder), CombineAll,
                   ConcatMinify(DistSources, "index.js", DistFolder)], Done)
  {
    CombineRuns(NoFailure);
    WatchRuns(NoFailure);
    BuildRuns(NoFailure);
    DistRuns(NoFailure);
    ExpectedNoFailure();
  }

  lemma ExpectedNoFailure()
    ensures Expected(Combine, NoFailure) == Trace([Delete(SrcFolder), CombineAll], Done)
    ensures Expected(Watch, NoFailure) == Trace([Delete(SrcFolder), CombineAll, StartWatch(WatchGlob)], Running)
    ensures Expected(Build, NoFailure) ==
            Trace([Delete(BuildFolder), Delete(SrcFolder), ConfigureDebug(false), CombineAll,
                   MinifyEach(BuildGlob, BuildFolder)], Done)
    ensures Expected(Dist, NoFailure) ==
            Trace([Delete(SrcFolder), ConfigureDebug(false), Delete(DistFolder), CombineAll,
                   ConcatMinify(DistSources, "index.js", DistFolder)], Done)
  {
    assert !Rejected(Delete(SrcFolder), NoFailure) && !Rejected(Delete(BuildFolder), NoFailure);
    assert !Rejected(Delete(DistFolder), NoFailure) && !NoFailure(CombineAll);
  }

  /**
   * gulp never sees `watch` complete: its last function starts the watcher and
   * returns nothing, so the task keeps running unless an earlier step ends it.
   */
  lemma WatchNeverDone(fails: Action -> bool)
    ensures RunTask(Watch, fails).outcome != Done
    ensures RunTask(Watch, fails).outcome == Running <==> !Rejected(Delete(SrcFolder), fails) && !fails(CombineAll)
  {
    WatchRuns(fails);
  }

  /** Every run of `n` attempts a prefix of the actions of its full run. */
  lemma RunIsPrefix(n: TaskName, fails: Action -> bool)
    ensures var t := RunTask(n, fails).actions;
            |t| <= |FullRun(n)| && t == FullRun(n)[..|t|]
  {
    RunIsExpected(n, fails);
    RunIsExpected(n, NoFailure);
    ExpectedPrefix(n, fails);
  }

  lemma ExpectedPrefix(n: TaskName, fails: Action -> bool)
    ensures var t := Expected(n, fails).actions;
            |t| <= |Expected(n, NoFailure).actions| && t == Expected(n, NoFailure).actions[..|t|]
  {
  }

  /** Every output action of `t` comes right after a run of the composer that was not rejected. */
  predicate Guarded(t: seq<Action>, fails: Action -> bool)
  {
    forall i :: 0 <= i < |t| && IsOutput(t[i]) ==> !Rejected(CombineAll, fails) && 0 < i && t[i - 1] == CombineAll
  }

  /** Nothing is written and no watcher is started except right after a run of the composer that was not rejected. */
  lemma OutputsFollowCombine(n: TaskName, fails: Action -> bool)
    ensures Guarded(RunTask(n, fails).actions, fails)
  {
    RunIsExpected(n, fails);
    ExpectedGuarded(n, fails);
  }

  lemma ExpectedGuarded(n: TaskName, fails: Action -> bool)
    ensures Guarded(Expected(n, fails).actions, fails)
  {
  }

  /** The composer never runs before `src` has been cleared. */
  lemma SrcClearedBeforeCombine(n: TaskName, fails: Action -> bool)
    ensures var t := RunTask(n, fails).actions;
            forall i :: 0 <= i < |t| && t[i] == CombineAll ==> Delete(SrcFolder) in t[..i]
  {
    RunIsExpected(n, fails);
    var t := Expected(n, fails).actions;
    var k := if n == Build then 1 else 0;
    ExpectedCleared(n, fails);
    forall i | 0 <= i < |t| && t[i] == CombineAll
      ensures Delete(SrcFolder) in t[..i]
    {
      InPrefix(t, k, i);
    }
  }

  lemma ExpectedCleared(n: TaskName, fails: Action -> bool)
    ensures var t := Expected(n, fails).actions;
            var k := if n == Build then 1 else 0;
            forall i :: 0 <= i < |t| && t[i] == CombineAll ==> k < i && t[k] == Delete(SrcFolder)
  {
  }

  lemma InPrefix(t: seq<Action>, j: nat, i: nat)
    requires j < i <= |t|
    ensures t[j] in t[..i]
  {
    assert t[..i][j] == t[j];
  }

  /**
   * A rejected `combine()` is handled three ways: `combine` and `watch` end
   * the process, `build` logs it and succeeds, `dist` fails. No task writes
   * anything or starts the watcher then.
   */
  lemma CombineRejected(fails: Action -> bool)
    requires fails(CombineAll)
    requires !fails(Delete(SrcFolder)) && !fails(Delete(BuildFolder)) && !fails(Delete(DistFolder))
    ensures RunTask(Combine, fails).outcome == Exited
    ensures RunTask(Watch, fails).outcome == Exited
    ensures RunTask(Build, fails).outcome == Done
    ensures RunTask(Dist, fails).outcome == Failed
    ensures forall n: TaskName, i :: 0 <= i < |RunTask(n, fails).actions| ==> !IsOutput(RunTask(n, fails).actions[i])
  {
    CombineRuns(fails);
    WatchRuns(fails);
    BuildRuns(fails);
    DistRuns(fails);
    forall n: TaskName {
      OutputsFollowCombine(n, fails);
    }
  }

  /** What the watcher's callback asks of the composer for a changed path. */
  datatype WatchCall = ProcessFile(path: string) | RemoveFile(path: string)

  /**
   * The callback of `watch` (gulpfile.js:95-104): a path that still exists is
   * recompiled, one that no longer does is removed; `present` is the answer
   * of `fs.existsSync(path)`.
   */
  function OnWatchEvent(path: string, present: bool): (c: WatchCall)
    ensures c.path == path
    ensures c.ProcessFile? <==> present
    ensures c.RemoveFile? <==> !present
  {
    if present then ProcessFile(path) else RemoveFile(path)
  }
}
