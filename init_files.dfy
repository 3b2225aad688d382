/**
 * Running scripts from files: `processReader` (all lines of a file, each
 * followed by a newline, handed to `processLine` as one text) and
 * `processInitFiles` (the configured init files in order, or else the two
 * default `.hiverc` files, with the session kept silent meanwhile and the first
 * nonzero code ending the process).  Opening and reading a file, the file
 * system's existence test, the environment and the system properties are inputs.
 */
module InitFiles {
  import opened Core
  import opened JavaText
  import opened Splitter
  import Classifier

  /** The name of the start-up script looked for in the two default places. */
  const HivercFile := ".hiverc"

  // ---------------------------------------------------------------------------
  // processReader
  // ---------------------------------------------------------------------------

  /** The text the reader builds: every line followed by a newline. */
  function ScriptText(lines: seq<string>): (text: string)
    ensures lines == [] <==> text == []
    ensures text != [] ==> Last(text) == '\n'
  {
    if lines == [] then [] else ScriptText(lines[..|lines| - 1]) + Last(lines) + "\n"
  }

  /**
   * The read loop of `processReader`: the lines that `readLine` returns (none of
   * them holds a line break), collected in a `StringBuilder`.
   */
  method ReadScript(lines: seq<string>) returns (text: string)
    ensures text == ScriptText(lines)
  {
    text := "";
    var i := 0;
    while i < |lines|
      invariant 0 <= i <= |lines|
      invariant text == ScriptText(lines[..i])
    {
      assert lines[..i + 1][..i] == lines[..i];
      text := text + (lines[i] + "\n");
      i := i + 1;
    }
    assert lines[..i] == lines;
  }

  /**
   * Splitting the built text at its newlines gives back the lines, and one
   * empty piece after the final newline.
   */
  lemma {:induction false} ScriptTextSplits(lines: seq<string>)
    requires forall i :: 0 <= i < |lines| ==> '\n' !in lines[i]
    ensures SplitAll(ScriptText(lines), '\n') == lines + [[]]
    decreases |lines|
  {
    if lines != [] {
      var init, l := lines[..|lines| - 1], Last(lines);
      assert forall i :: 0 <= i < |init| ==> init[i] == lines[i];
      assert '\n' !in l by { assert l == lines[|lines| - 1]; }
      ScriptTextSplits(init);
      SplitLastLine(ScriptText(init), init, l);
      assert init + [l] == lines;
    }
  }

  /** One more line and its newline add one piece before the final empty one. */
  lemma SplitLastLine(t: string, init: seq<string>, l: string)
    requires SplitAll(t, '\n') == init + [[]]
    requires '\n' !in l
    ensures SplitAll(t + l + "\n", '\n') == init + [l] + [[]]
  {
    var p := SplitAll(t, '\n');
    assert p[..|p| - 1] == init;
    assert Last(p) + l == l;
    SplitAllAppendPlain(t, l, '\n');
    SplitAllSnoc(t + l, '\n', '\n');
    assert t + l + "\n" == (t + l) + ['\n'];
  }

  /**
   * `processReader`: the whole file becomes one text for `processLine`, so its
   * statements are split exactly as a typed line would be, and a statement may
   * run over several lines.
   */
  method ProcessReader(lines: seq<string>, ignoreErrors: IgnoreFlags, exec: Dispatcher)
    returns (dispatched: seq<string>, result: Outcome)
    ensures var stmts := Statements(ScriptText(lines));
            var run := Drive(stmts, ignoreErrors, exec, 0, 0);
            dispatched == stmts[..run.dispatched] && result == run.outcome
  {
    var text := ReadScript(lines);
    dispatched, result := ProcessLine(text, ignoreErrors, exec);
  }

  // ---------------------------------------------------------------------------
  // processInitFiles
  // ---------------------------------------------------------------------------

  /** The session state this method reads and writes. */
  class CliSession {
    var silent: bool
    var initFiles: seq<string>

    constructor (silent: bool, initFiles: seq<string>)
      ensures this.silent == silent && this.initFiles == initFiles
    {
      this.silent := silent;
      this.initFiles := initFiles;
    }
  }

  /**
   * Where the defaults are looked for: the `HIVE_HOME` environment variable and
   * the `user.home` system property, each possibly unset.
   */
  datatype Environment = Environment(hiveHome: Option<string>, userHome: Option<string>)

  /** `HIVE_HOME/bin/.hiverc`. */
  function HiveHomeDefault(hiveHome: string): string {
    hiveHome + "/" + "bin" + "/" + HivercFile
  }

  /** `user.home/.hiverc`. */
  function UserDefault(userHome: string): string {
    userHome + "/" + HivercFile
  }

  /** A default file that is run: its location is known, and a file is there. */
  function DefaultIfPresent(home: Option<string>, path: string -> string, fileExists: string -> bool): (r: seq<string>)
    ensures |r| <= 1
    ensures r != [] <==> home.Some? && fileExists(path(home.value))
    ensures r != [] ==> r[0] == path(home.value)
  {
    if home.Some? && fileExists(path(home.value)) then [path(home.value)] else []
  }

  /**
   * The files that would be run, in order, if every one of them succeeds: the
   * configured ones, or when there are none the `HIVE_HOME` default and then the
   * user's default, each only when it exists.
   */
  function InitPlan(initFiles: seq<string>, env: Environment, fileExists: string -> bool): seq<string> {
    if |initFiles| > 0 then initFiles
    else DefaultIfPresent(env.hiveHome, HiveHomeDefault, fileExists) +
         DefaultIfPresent(env.userHome, UserDefault, fileExists)
  }

  /** How the sequence ends: all files ran, the process exited, or an `IOException` escaped. */
  datatype InitOutcome = AllRan | ExitedWith(status: int) | FailedWith(message: string)

  /** How many of the files were started, and how the sequence ended. */
  datatype InitRun = InitRun(started: nat, outcome: InitOutcome)

  /** What one file's run means for the sequence; `None` is success, and the next file runs. */
  function Verdict(run: Classifier.FileRun): Option<InitOutcome> {
    match run
    case Processed(Returned(rc)) => if rc != 0 then Some(ExitedWith(rc)) else None
    case Processed(Exited(status)) => Some(ExitedWith(status))
    case ReadFailed(message) => Some(FailedWith(message))
  }

  /**
   * The sequence goes on after a file exactly when `processFile` returned 0; a
   * nonzero code or an exit ends it with that status, an `IOException` with its
   * message, and a stopping verdict is never a normal end.
   */
  lemma VerdictMeaning(run: Classifier.FileRun)
    ensures Verdict(run) == None <==> run == Classifier.Processed(Returned(0))
    ensures Verdict(run) != Some(AllRan)
    ensures run.Processed? && run.outcome.Returned? && run.outcome.code != 0 ==>
            Verdict(run) == Some(ExitedWith(run.outcome.code))
    ensures run.Processed? && run.outcome.Exited? ==> Verdict(run) == Some(ExitedWith(run.outcome.status))
    ensures run.ReadFailed? <==> Verdict(run).Some? && Verdict(run).value.FailedWith?
    ensures run.ReadFailed? ==> Verdict(run) == Some(FailedWith(run.message))
  {
  }

  /** Running the files from index `k` on. */
  function RunFrom(plan: seq<string>, processFile: string -> Classifier.FileRun, k: nat): (r: InitRun)
    requires k <= |plan|
    ensures k <= r.started <= |plan|
    decreases |plan| - k
  {
    if k == |plan| then InitRun(k, AllRan)
    else match Verdict(processFile(plan[k]))
      case Some(stop) => InitRun(k + 1, stop)
      case None => RunFrom(plan, processFile, k + 1)
  }

  /** Runs one file; `Some` when the sequence stops there. */
  method RunOne(path: string, processFile: string -> Classifier.FileRun) returns (stop: Option<InitOutcome>)
    ensures stop == Verdict(processFile(path))
  {
    var rc := processFile(path);
    if rc.ReadFailed? {
      return Some(FailedWith(rc.message));
    }
    if rc.outcome.Exited? {
      return Some(ExitedWith(rc.outcome.status));
    }
    if rc.outcome.code != 0 {
      return Some(ExitedWith(rc.outcome.code));
    }
    return None;
  }

  /**
   * `processInitFiles`. The session is silent while the files run and gets its
   * old setting back when all of them succeeded; the exit and the escaping
   * exception leave it as it was while they ran.  `started` lists the files that
   * were run, the last of them being the one that stopped the sequence.
   */
  method ProcessInitFiles(ss: CliSession, env: Environment, fileExists: string -> bool,
                          processFile: string -> Classifier.FileRun)
    returns (started: seq<string>, outcome: InitOutcome)
    modifies ss
    ensures ss.initFiles == old(ss.initFiles)
    ensures var plan := InitPlan(old(ss.initFiles), env, fileExists);
            var run := RunFrom(plan, processFile, 0);
            started == plan[..run.started] && outcome == run.outcome
    ensures ss.silent == (if outcome.AllRan? then old(ss.silent) else true)
  {
    var saveSilent := ss.silent;
    ss.silent := true;
    ghost var plan := InitPlan(ss.initFiles, env, fileExists);
    started := [];
    var i := 0;
    while i < |ss.initFiles|
      invariant 0 <= i <= |ss.initFiles|
      invariant ss.silent && ss.initFiles == old(ss.initFiles)
      invariant started == ss.initFiles[..i]
      invariant RunFrom(plan, processFile, 0) == RunFrom(plan, processFile, i)
    {
      var initFile := ss.initFiles[i];
      started := started + [initFile];
      var stop := RunOne(initFile, processFile);
      if stop.Some? {
        return started, stop.value;
      }
      i := i + 1;
    }
    assert started == plan[..i];
    if |ss.initFiles| == 0 {
      assert RunFrom(plan, processFile, 0) == RunFrom(plan, processFile, |started|);
      if env.hiveHome.Some? {
        var hivercDefault := HiveHomeDefault(env.hiveHome.value);
        if fileExists(hivercDefault) {
          started := started + [hivercDefault];
          var stop := RunOne(hivercDefault, processFile);
          if stop.Some? {
            return started, stop.value;
          }
        }
      }
      assert started == plan[..|started|];
      assert RunFrom(plan, processFile, 0) == RunFrom(plan, processFile, |started|);
      if env.userHome.Some? {
        var hivercUser := UserDefault(env.userHome.value);
        if fileExists(hivercUser) {
          started := started + [hivercUser];
          var stop := RunOne(hivercUser, processFile);
          if stop.Some? {
            return started, stop.value;
          }
        }
      }
      assert started == plan;
    }
    ss.silent := saveSilent;
    outcome := AllRan;
  }

  // ---------------------------------------------------------------------------
  // Properties of the sequence
  // ---------------------------------------------------------------------------

  /**
   * The run in closed form: every file before the last one started succeeded;
   * the sequence stops at a file exactly when that file's verdict says so, and
   * it ends normally only after all of them.
   */
  lemma {:induction false} RunStopsAtFirstFailure(plan: seq<string>, processFile: string -> Classifier.FileRun, k: nat)
    requires k <= |plan|
    ensures var r := RunFrom(plan, processFile, k);
            (forall j :: k <= j < r.started && (j < r.started - 1 || r.outcome.AllRan?) ==>
               Verdict(processFile(plan[j])) == None) &&
            (r.outcome.AllRan? <==> r.started == |plan| && (forall j :: k <= j < |plan| ==> Verdict(processFile(plan[j])) == None)) &&
            (!r.outcome.AllRan? ==> r.started > k && Verdict(processFile(plan[r.started - 1])) == Some(r.outcome))
    decreases |plan| - k
  {
    if k < |plan| && Verdict(processFile(plan[k])) == None {
      RunStopsAtFirstFailure(plan, processFile, k + 1);
    }
  }

  /** A failing file ends the sequence at once: no file after it is started. */
  lemma FailureEndsSequence(plan: seq<string>, processFile: string -> Classifier.FileRun, j: nat)
    requires j < |plan|
    requires forall i :: 0 <= i < j ==> Verdict(processFile(plan[i])) == None
    requires Verdict(processFile(plan[j])).Some?
    ensures RunFrom(plan, processFile, 0) == InitRun(j + 1, Verdict(processFile(plan[j])).value)
  {
    var r := RunFrom(plan, processFile, 0);
    RunStopsAtFirstFailure(plan, processFile, 0);
  }

  /** The defaults are never considered when some init file is configured. */
  lemma ConfiguredFilesOnly(initFiles: seq<string>, env1: Environment, fileExists1: string -> bool,
                            env2: Environment, fileExists2: string -> bool)
    requires |initFiles| > 0
    ensures InitPlan(initFiles, env1, fileExists1) == InitPlan(initFiles, env2, fileExists2) == initFiles
  {
  }

  /**
   * With nothing configured and both defaults present, the `HIVE_HOME` one runs
   * first and the user's one runs only after it succeeded.
   */
  lemma DefaultsInOrder(env: Environment, fileExists: string -> bool, processFile: string -> Classifier.FileRun)
    requires env.hiveHome.Some? && env.userHome.Some?
    requires fileExists(HiveHomeDefault(env.hiveHome.value)) && fileExists(UserDefault(env.userHome.value))
    ensures var plan := InitPlan([], env, fileExists);
            plan == [HiveHomeDefault(env.hiveHome.value), UserDefault(env.userHome.value)] &&
            (Verdict(processFile(plan[0])).Some? ==> RunFrom(plan, processFile, 0).started == 1) &&
            (Verdict(processFile(plan[0])) == None ==> RunFrom(plan, processFile, 0).started == 2)
  {
    var plan := InitPlan([], env, fileExists);
    assert plan == [HiveHomeDefault(env.hiveHome.value)] + [UserDefault(env.userHome.value)];
  }
}
