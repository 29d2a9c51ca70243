/**
 * The benchmark driver of examples/tools/runbench/src/app.rs: which build
 * configurations a benchmark is run with, the steps taken for each one, the
 * bounded retry around flaky steps, and the metadata collected on success.
 *
 * Everything the driver does to the outside world (deleting, building,
 * copying, programming the board, capturing output, writing files) is an
 * oracle: a `World` answers each request with the outcome it would have.
 */
module App {
  import opened Wrappers
  import BuildOptions
  import Tuples

  type BuildOpt = BuildOptions.BuildOpt
  type Bytes = seq<bv8>

  // ---------------------------------------------------------------------------
  // Choosing the configurations

  /** What a benchmark application asks of the configuration matrix. */
  datatype Traits = Traits(
    useSes: bool,
    useSs: bool,
    useCtx: bool,
    useAccel: bool,
    useIcall: bool,
    name: string,
    terminator: string)

  /** The "safe" shadow exception stack: on, and not the unnesting variant. */
  predicate SafeSes(o: BuildOpt) {
    o.ses && !o.unnest
  }

  /** The filter closure of `run`: the first rule that drops an option wins. */
  function Admit(t: Traits, o: BuildOpt): (r: bool)
    ensures r <==> (t.useSes || SafeSes(o)) && (t.useSs || !o.ss) && (t.useCtx || o.ctx)
                   && (t.useAccel || !o.accelRaisePri) && (t.useIcall || !o.icall)
  {
    if !t.useSes && !SafeSes(o) then false
    else if !t.useSs && o.ss then false
    else if !t.useCtx && !o.ctx then false
    else if !t.useAccel && o.accelRaisePri then false
    else if !t.useIcall && o.icall then false
    else true
  }

  function KeepAdmitted(t: Traits, s: seq<BuildOpt>): (r: seq<BuildOpt>)
    ensures forall o :: o in r <==> o in s && Admit(t, o)
  {
    if |s| == 0 then []
    else if Admit(t, s[0]) then [s[0]] + KeepAdmitted(t, s[1..])
    else KeepAdmitted(t, s[1..])
  }

  /** The configurations one benchmark is run with, in enumeration order. */
  function Plan(vary: bool, t: Traits): seq<BuildOpt> {
    KeepAdmitted(t, BuildOptions.AllValidValues(vary))
  }

  /**
   * The plan holds exactly the valid configurations, with a ROM offset that is
   * tried, that the benchmark admits.
   */
  lemma PlanMembers(vary: bool, t: Traits, o: BuildOpt)
    ensures o in Plan(vary, t) <==>
      BuildOptions.Valid(o) && o.romOffset in BuildOptions.RomOffsets(vary) && Admit(t, o)
  {
    BuildOptions.AllValidValuesMembers(vary, o);
  }

  /**
   * A benchmark that opts out of shadow exception stacks or of context
   * management is always run with them enabled.
   */
  lemma PlanForcedFeatures(vary: bool, t: Traits, o: BuildOpt)
    requires o in Plan(vary, t)
    ensures !t.useSes ==> o.ses && !o.unnest
    ensures !t.useCtx ==> o.ctx
  {
  }

  lemma {:induction false} KeepAdmittedSorted(t: Traits, s: seq<BuildOpt>)
    requires BuildOptions.KeysSorted(s)
    ensures BuildOptions.KeysSorted(KeepAdmitted(t, s))
  {
    if |s| > 0 {
      assert BuildOptions.KeysSorted(s[1..]) by {
        forall i, j | 0 <= i < j < |s[1..]|
          ensures Tuples.LexLess(BuildOptions.Key(s[1..][i]), BuildOptions.Key(s[1..][j]))
        {
          assert s[1..][i] == s[i + 1] && s[1..][j] == s[j + 1];
        }
      }
      KeepAdmittedSorted(t, s[1..]);
      if Admit(t, s[0]) {
        var r := KeepAdmitted(t, s[1..]);
        forall i, j | 0 <= i < j < |[s[0]] + r|
          ensures Tuples.LexLess(BuildOptions.Key(([s[0]] + r)[i]), BuildOptions.Key(([s[0]] + r)[j]))
        {
          if i == 0 {
            assert ([s[0]] + r)[j] == r[j - 1];
            assert r[j - 1] in s[1..];
            var k :| 0 <= k < |s[1..]| && s[1..][k] == r[j - 1];
            assert s[k + 1] == r[j - 1];
          } else {
            assert ([s[0]] + r)[i] == r[i - 1] && ([s[0]] + r)[j] == r[j - 1];
          }
        }
      }
    }
  }

  /** The plan keeps the enumeration order, and lists no configuration twice. */
  lemma PlanOrdered(vary: bool, t: Traits)
    ensures BuildOptions.KeysSorted(Plan(vary, t))
    ensures Tuples.Distinct(Plan(vary, t))
  {
    BuildOptions.AllValidValuesOrdered(vary);
    KeepAdmittedSorted(t, BuildOptions.AllValidValues(vary));
    var p := Plan(vary, t);
    forall i, j | 0 <= i < j < |p|
      ensures p[i] != p[j]
    {
      Tuples.LexLessIrreflexive(BuildOptions.Key(p[i]));
    }
  }

  // ---------------------------------------------------------------------------
  // Retrying

  /**
   * `retry_on_fail` from its `k`-th call on, with `count` calls left:
   * the result that ends the loop and how many calls were made in all.
   */
  function RetryFrom<T, E>(f: nat -> Result<T, E>, count: nat, k: nat): (nat, Result<T, E>)
    requires count >= 1
    decreases count
  {
    if f(k).Ok? || count == 1 then (k + 1, f(k)) else RetryFrom(f, count - 1, k + 1)
  }

  /**
   * Three attempts at most: the first success is returned at once, and after
   * three failures in a row the third error is returned.
   */
  function Retry<T, E>(f: nat -> Result<T, E>): (r: (nat, Result<T, E>))
    ensures 1 <= r.0 <= 3
    ensures r.1 == f(r.0 - 1)
    ensures forall k :: 0 <= k < r.0 - 1 ==> f(k).Err?
    ensures r.1.Err? ==> r.0 == 3
    ensures r.1.Ok? <==> exists k :: 0 <= k < 3 && f(k).Ok?
  {
    RetryFrom(f, 3, 0)
  }

  /** The loop of `retry_on_fail`, with its 32-bit down-counter. */
  method RetryOnFail<T, E>(f: nat -> Result<T, E>) returns (calls: nat, r: Result<T, E>)
    ensures (calls, r) == Retry(f)
  {
    var count: bv32 := 3;
    calls := 0;
    while true
      invariant 1 <= count <= 3 && calls == 3 - count as int
      invariant RetryFrom(f, count as int, calls) == Retry(f)
      decreases count
    {
      var x := f(calls);
      calls := calls + 1;
      if x.Ok? {
        return calls, x;
      }
      count := count - 1;
      if count == 0 {
        return calls, x;
      }
    }
  }

  // ---------------------------------------------------------------------------
  // Filesystem errors

  datatype IoErrorKind = NotFound | OtherKind

  datatype IoError = IoError(kind: IoErrorKind, message: string)

  /** `ignore_not_found`: deleting a file that is not there is not an error. */
  function IgnoreNotFound(r: Result<(), IoError>): (o: Result<(), IoError>)
    ensures o.Ok? <==> r.Ok? || r.error.kind == NotFound
    ensures o.Err? ==> o == r
  {
    match r
    case Ok(_) => Ok(())
    case Err(e) => if e.kind == NotFound then Ok(()) else Err(e)
  }

  lemma IgnoreNotFoundIdempotent(r: Result<(), IoError>)
    ensures IgnoreNotFound(IgnoreNotFound(r)) == IgnoreNotFound(r)
  {
  }

  // ---------------------------------------------------------------------------
  // One configuration

  /** The errors of `run` (`RunBenchmarkError`, and the errors it passes on). */
  datatype RunError =
    | TargetError(message: string)
    | CreateOutputDirError(io: IoError)
    | Io(io: IoError)
    | BuildFailed(message: string)
    | BuiltExeNotFound(path: string)
    | ProgrammingError(message: string)
    | OutputAcquisitionError(message: string)
    | WriteOutputError(io: IoError)
    | ProcessOutputError(message: string)

  /** The outcome every outside request would have while one configuration is handled. */
  datatype World = World(
    remove: string -> Result<(), IoError>,
    build: seq<string> -> Result<(), string>,
    present: string -> bool,
    copy: (string, string) -> Result<(), IoError>,
    program: (nat, seq<string>) -> Result<(), string>,
    capture: (nat, seq<string>) -> Result<Bytes, string>,
    write: (nat, string) -> Result<(), IoError>,
    process: Bytes -> Result<Option<Bytes>, string>)

  datatype Dirs = Dirs(zigCache: string, output: string)

  function Join(dir: string, name: string): string {
    dir + "/" + name
  }

  function SecureElf(d: Dirs): string {
    Join(d.zigCache, "secure")
  }

  function NonSecureElf(d: Dirs, t: Traits): string {
    Join(d.zigCache, t.name)
  }

  /** The `zig build` arguments: the step name, the configuration's flags, the target's flags. */
  function BuildArgs(t: Traits, o: BuildOpt, targetFlags: seq<string>): seq<string> {
    ["build", "build:" + t.name] + BuildOptions.FlagArgs(o) + targetFlags
  }

  /** The byte sequences the capture stops at. */
  function Markers(t: Traits): seq<string> {
    ["unhandled exception", t.terminator]
  }

  /**
   * One attempt of the retried closure: capture the output, save it, post-process
   * it and save the result if there is one. Any failure fails the attempt.
   */
  function Attempt(t: Traits, d: Dirs, o: BuildOpt, w: World, k: nat): Result<(), RunError> {
    match w.capture(k, Markers(t))
    case Err(e) => Err(OutputAcquisitionError(e))
    case Ok(out) =>
      match w.write(k, Join(d.output, BuildOptions.Id(o) + ".raw"))
      case Err(e) => Err(WriteOutputError(e))
      case Ok(_) =>
        match w.process(out)
        case Err(e) => Err(ProcessOutputError(e))
        case Ok(None) => Ok(())
        case Ok(Some(_)) =>
          match w.write(k, Join(d.output, BuildOptions.Id(o) + ".json"))
          case Err(e) => Err(WriteOutputError(e))
          case Ok(_) => Ok(())
  }

  /** The entry `meta.json` gets for a configuration that ran. */
  datatype MetaRun = MetaRun(buildOpt: BuildOpt, name: string, zigBuildArgs: seq<string>)

  /** The body of `run`'s loop for one configuration. */
  function RunOne(t: Traits, d: Dirs, targetFlags: seq<string>, o: BuildOpt, w: World): (r: Result<MetaRun, RunError>)
    ensures r.Ok? ==> r.value == MetaRun(o, BuildOptions.Id(o), BuildArgs(t, o, targetFlags))
    ensures r.Ok? ==> w.build(BuildArgs(t, o, targetFlags)).Ok?
    ensures r.Ok? ==> w.present(SecureElf(d)) && w.present(NonSecureElf(d, t))
    ensures r.Ok? ==> exists k :: 0 <= k < 3 && w.program(k, [NonSecureElf(d, t), SecureElf(d)]).Ok?
    ensures r.Ok? ==> exists k :: 0 <= k < 3 && Attempt(t, d, o, w, k).Ok?
    ensures w.build(BuildArgs(t, o, targetFlags)).Ok? && !w.present(SecureElf(d))
            && IgnoreNotFound(w.remove(SecureElf(d))).Ok? && IgnoreNotFound(w.remove(NonSecureElf(d, t))).Ok?
            ==> r == Err(BuiltExeNotFound(SecureElf(d)))
  {
    var secure := SecureElf(d);
    var nonSecure := NonSecureElf(d, t);
    var args := BuildArgs(t, o, targetFlags);
    if IgnoreNotFound(w.remove(secure)).Err? then Err(Io(w.remove(secure).error))
    else if IgnoreNotFound(w.remove(nonSecure)).Err? then Err(Io(w.remove(nonSecure).error))
    else if w.build(args).Err? then Err(BuildFailed(w.build(args).error))
    else if !w.present(secure) then Err(BuiltExeNotFound(secure))
    else if !w.present(nonSecure) then Err(BuiltExeNotFound(nonSecure))
    else
      var copiedSecure := Join(d.output, BuildOptions.Id(o) + ".secure.elf");
      var copiedNonSecure := Join(d.output, BuildOptions.Id(o) + "." + t.name + ".elf");
      if w.copy(secure, copiedSecure).Err? then Err(Io(w.copy(secure, copiedSecure).error))
      else if w.copy(nonSecure, copiedNonSecure).Err? then Err(Io(w.copy(nonSecure, copiedNonSecure).error))
      else
        var programmed := Retry(k => w.program(k, [nonSecure, secure]));
        if programmed.1.Err? then Err(ProgrammingError(programmed.1.error))
        else
          var ran := Retry(k => Attempt(t, d, o, w, k));
          if ran.1.Err? then Err(ran.1.error)
          else Ok(MetaRun(o, BuildOptions.Id(o), args))
  }

  // ---------------------------------------------------------------------------
  // The whole run

  /**
   * The loop of `run`: each configuration in turn, the first failure ending
   * the run; `step` is the work done for one configuration.
   */
  function RunAll(plan: seq<BuildOpt>, step: BuildOpt -> Result<MetaRun, RunError>): (r: Result<seq<MetaRun>, RunError>)
    ensures r.Ok? ==> |r.value| == |plan| && forall i :: 0 <= i < |plan| ==> step(plan[i]) == Ok(r.value[i])
  {
    if |plan| == 0 then Ok([])
    else
      match step(plan[0])
      case Err(e) => Err(e)
      case Ok(m) =>
        match RunAll(plan[1..], step)
        case Err(e) => Err(e)
        case Ok(ms) => Ok([m] + ms)
  }

  /**
   * The run succeeds exactly when every configuration does; otherwise it ends
   * with the error of the first configuration that fails.
   */
  lemma {:induction false} RunAllOutcome(plan: seq<BuildOpt>, step: BuildOpt -> Result<MetaRun, RunError>)
    ensures RunAll(plan, step).Ok? <==> forall i :: 0 <= i < |plan| ==> step(plan[i]).Ok?
    ensures RunAll(plan, step).Err? ==> exists i :: (0 <= i < |plan| && step(plan[i]) == Err(RunAll(plan, step).error)
      && forall j :: 0 <= j < i ==> step(plan[j]).Ok?)
  {
    if |plan| > 0 {
      var rest := plan[1..];
      RunAllOutcome(rest, step);
      assert forall i :: 0 <= i < |rest| ==> rest[i] == plan[i + 1];
      if step(plan[0]).Ok? && RunAll(rest, step).Err? {
        var i :| 0 <= i < |rest| && step(rest[i]) == Err(RunAll(rest, step).error)
          && forall j :: 0 <= j < i ==> step(rest[j]).Ok?;
        assert forall j :: 0 <= j < i + 1 ==> step(plan[j]).Ok?;
      }
      if RunAll(rest, step).Ok? && step(plan[0]).Ok? {
        assert forall i :: 0 <= i < |plan| ==> step(plan[i]).Ok?;
      }
    }
  }

  /** The body of the loop: one configuration handled in the world it meets. */
  function Step(t: Traits, d: Dirs, targetFlags: seq<string>, worlds: BuildOpt -> World)
    : BuildOpt -> Result<MetaRun, RunError>
  {
    o => RunOne(t, d, targetFlags, o, worlds(o))
  }

  /** A successful loop records, in plan order, each configuration with its build arguments. */
  lemma RunAllMatrix(plan: seq<BuildOpt>, t: Traits, d: Dirs, targetFlags: seq<string>, worlds: BuildOpt -> World)
    ensures var r := RunAll(plan, Step(t, d, targetFlags, worlds));
            r.Ok? ==> |r.value| == |plan| && forall i :: 0 <= i < |plan| ==>
              r.value[i].buildOpt == plan[i] && r.value[i].zigBuildArgs == BuildArgs(t, plan[i], targetFlags)
  {
    var r := RunAll(plan, Step(t, d, targetFlags, worlds));
    if r.Ok? {
      forall i | 0 <= i < |plan|
        ensures r.value[i].buildOpt == plan[i] && r.value[i].zigBuildArgs == BuildArgs(t, plan[i], targetFlags)
      {
        assert RunOne(t, d, targetFlags, plan[i], worlds(plan[i])) == Ok(r.value[i]);
      }
    }
  }

  datatype ExeNames = ExeNames(secure: string, nonSecure: string)

  datatype Metadata = Metadata(exeNames: ExeNames, matrix: seq<MetaRun>)

  /** The parts of the outside world `run` touches before and after the loop. */
  datatype Setup = Setup(
    target: Result<seq<string>, string>,
    createOutputDir: Result<(), IoError>,
    writeMeta: Result<(), IoError>)

  /**
   * `run`: the metadata that `meta.json` receives. It is written only when every
   * configuration of the plan ran, and lists them in plan order.
   */
  function Run(vary: bool, t: Traits, d: Dirs, s: Setup, worlds: BuildOpt -> World): (r: Result<Metadata, RunError>)
    ensures r.Ok? ==> s.target.Ok? && s.createOutputDir.Ok? && s.writeMeta.Ok?
    ensures r.Ok? ==> r.value.exeNames == ExeNames("secure.elf", t.name + ".elf")
    ensures r.Ok? ==> |r.value.matrix| == |Plan(vary, t)| && forall i :: 0 <= i < |Plan(vary, t)| ==>
      r.value.matrix[i].buildOpt == Plan(vary, t)[i]
      && r.value.matrix[i].zigBuildArgs == BuildArgs(t, Plan(vary, t)[i], s.target.value)
  {
    match s.target
    case Err(e) => Err(TargetError(e))
    case Ok(flags) =>
      if s.createOutputDir.Err? then Err(CreateOutputDirError(s.createOutputDir.error))
      else
        match RunAll(Plan(vary, t), Step(t, d, flags, worlds))
        case Err(e) => Err(e)
        case Ok(matrix) =>
          RunAllMatrix(Plan(vary, t), t, d, flags, worlds);
          if s.writeMeta.Err? then Err(Io(s.writeMeta.error))
          else Ok(Metadata(ExeNames("secure.elf", t.name + ".elf"), matrix))
  }
}
