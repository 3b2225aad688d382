/**
 * `CliDriver.processLine`: the text is split on `;`, a piece ending in a
 * backslash is glued to the next one with its backslash turned back into `;`,
 * blank accumulations are skipped, and every other accumulated command is handed
 * to `processCmd`. The loop stops at the first nonzero code unless errors are
 * ignored, and returns the last code otherwise.
 */
module Splitter {
  import opened Core
  import opened JavaText

  /** A piece ending in a backslash (`endsWith("\\")`): the `;` after it was escaped. */
  predicate Continued(f: string) {
    |f| > 0 && f[|f| - 1] == '\\'
  }

  /**
   * The commands `processLine` dispatches, in order, when it scans the pieces
   * `frags` while its `command` variable holds `acc`. None of them is blank.
   */
  function Commands(frags: seq<string>, acc: string): (r: seq<string>)
    ensures forall i :: 0 <= i < |r| ==> !IsBlank(r[i])
  {
    if frags == [] then []
    else if Continued(frags[0]) then Commands(frags[1..], acc + Chop(frags[0]) + ";")
    else if IsBlank(acc + frags[0]) then Commands(frags[1..], acc + frags[0])
    else [acc + frags[0]] + Commands(frags[1..], "")
  }

  /** What is left in `command` when the loop over `frags` ends: text that is never dispatched. */
  function Leftover(frags: seq<string>, acc: string): string {
    if frags == [] then acc
    else if Continued(frags[0]) then Leftover(frags[1..], acc + Chop(frags[0]) + ";")
    else if IsBlank(acc + frags[0]) then Leftover(frags[1..], acc + frags[0])
    else Leftover(frags[1..], "")
  }

  /** The commands `processLine(line)` would dispatch if every one of them succeeded. */
  function Statements(line: string): seq<string> {
    Commands(SplitOn(line, ';'), "")
  }

  /**
   * `processCmd` as `processLine` sees it: the outcome of the `k`-th dispatched
   * command, which may depend on the commands before it only through `k`.
   */
  type Dispatcher = (nat, string) -> Outcome

  /**
   * The value of `hive.cli.errors.ignore` as `processLine` reads it right after
   * the `k`-th dispatched command. The setting is read again after every command
   * from the session's configuration, which a command (a `set`, say) may change.
   */
  type IgnoreFlags = nat -> bool

  /** The same setting after every command. */
  function Constantly(b: bool): IgnoreFlags {
    k => b
  }

  /** Whether `processLine` returns right after a command with this outcome. */
  predicate Stops(o: Outcome, ignoreErrors: bool) {
    o.Exited? || (o.code != 0 && !ignoreErrors)
  }

  /** How many commands a call dispatched and how it ended. */
  datatype LineRun = LineRun(dispatched: nat, outcome: Outcome)

  /**
   * The error policy: run `stmts[k..]` in order after `lastRet` was the last code;
   * stop after the first command that `Stops` under the setting read after it.
   */
  function Drive(stmts: seq<string>, ignoreErrors: IgnoreFlags, exec: Dispatcher, k: nat, lastRet: int): (r: LineRun)
    requires k <= |stmts|
    ensures k <= r.dispatched <= |stmts|
    decreases |stmts| - k
  {
    if k == |stmts| then LineRun(k, Returned(lastRet))
    else
      var o := exec(k, stmts[k]);
      if Stops(o, ignoreErrors(k)) then LineRun(k + 1, o)
      else Drive(stmts, ignoreErrors, exec, k + 1, o.code)
  }

  /** The index of the first command at or after `k` after which `processLine` returns, or `|stmts|`. */
  function FirstStop(stmts: seq<string>, ignoreErrors: IgnoreFlags, exec: Dispatcher, k: nat): (j: nat)
    requires k <= |stmts|
    ensures k <= j <= |stmts|
    ensures forall i :: k <= i < j ==> !Stops(exec(i, stmts[i]), ignoreErrors(i))
    ensures j < |stmts| ==> Stops(exec(j, stmts[j]), ignoreErrors(j))
    decreases |stmts| - k
  {
    if k == |stmts| || Stops(exec(k, stmts[k]), ignoreErrors(k)) then k
    else FirstStop(stmts, ignoreErrors, exec, k + 1)
  }

  /**
   * Closed form of the policy: everything up to the first stopping command is
   * dispatched and its outcome returned; when none stops, every command is
   * dispatched and the result is the last code (or the code in hand when there
   * was nothing to run).
   */
  lemma {:induction false} DriveClosedForm(stmts: seq<string>, ignoreErrors: IgnoreFlags, exec: Dispatcher, k: nat, lastRet: int)
    requires k <= |stmts|
    ensures var j := FirstStop(stmts, ignoreErrors, exec, k);
            Drive(stmts, ignoreErrors, exec, k, lastRet) ==
              if j < |stmts| then LineRun(j + 1, exec(j, stmts[j]))
              else if |stmts| == k then LineRun(k, Returned(lastRet))
              else LineRun(|stmts|, Returned(exec(|stmts| - 1, stmts[|stmts| - 1]).code))
    decreases |stmts| - k
  {
    if k < |stmts| && !Stops(exec(k, stmts[k]), ignoreErrors(k)) {
      DriveClosedForm(stmts, ignoreErrors, exec, k + 1, exec(k, stmts[k]).code);
    }
  }

  /** One step of the scan: the piece at `i` either extends `acc` or completes a command. */
  lemma CommandsHead(frags: seq<string>, i: nat, acc: string)
    requires i < |frags|
    ensures Commands(frags[i..], acc) ==
            if Continued(frags[i]) then Commands(frags[i + 1..], acc + Chop(frags[i]) + ";")
            else if IsBlank(acc + frags[i]) then Commands(frags[i + 1..], acc + frags[i])
            else [acc + frags[i]] + Commands(frags[i + 1..], "")
  {
    assert frags[i..][0] == frags[i];
    assert frags[i..][1..] == frags[i + 1..];
  }

  /** One step of the policy: the command at `k` runs, and the policy stops or moves on. */
  lemma DriveStep(stmts: seq<string>, ignoreErrors: IgnoreFlags, exec: Dispatcher, k: nat, lastRet: int)
    requires k < |stmts|
    ensures Drive(stmts, ignoreErrors, exec, k, lastRet) ==
            if Stops(exec(k, stmts[k]), ignoreErrors(k)) then LineRun(k + 1, exec(k, stmts[k]))
            else Drive(stmts, ignoreErrors, exec, k + 1, exec(k, stmts[k]).code)
  {
  }

  /**
   * One dispatch: the command after those already dispatched runs, and the
   * policy either ends with its outcome or carries on from the next one.
   */
  lemma DispatchStep(stmts: seq<string>, dispatched: seq<string>, c: string, rest: seq<string>,
                     ignoreErrors: IgnoreFlags, exec: Dispatcher, lastRet: int)
    requires stmts == dispatched + ([c] + rest)
    requires Drive(stmts, ignoreErrors, exec, 0, 0) == Drive(stmts, ignoreErrors, exec, |dispatched|, lastRet)
    ensures stmts == (dispatched + [c]) + rest
    ensures var o := exec(|dispatched|, c);
            if Stops(o, ignoreErrors(|dispatched|)) then
              dispatched + [c] == stmts[..|dispatched| + 1] &&
              Drive(stmts, ignoreErrors, exec, 0, 0) == LineRun(|dispatched| + 1, o)
            else
              Drive(stmts, ignoreErrors, exec, 0, 0) == Drive(stmts, ignoreErrors, exec, |dispatched| + 1, o.code)
  {
    var k := |dispatched|;
    assert stmts[k] == c;
    assert stmts[..k + 1] == dispatched + [c];
  }

  /** The first stop is the command that stops after a run of commands that do not. */
  lemma {:induction false} FirstStopAt(stmts: seq<string>, ignoreErrors: IgnoreFlags, exec: Dispatcher, k: nat, j: nat)
    requires k <= j < |stmts|
    requires forall i :: k <= i < j ==> !Stops(exec(i, stmts[i]), ignoreErrors(i))
    requires Stops(exec(j, stmts[j]), ignoreErrors(j))
    ensures FirstStop(stmts, ignoreErrors, exec, k) == j
    decreases j - k
  {
    if k < j {
      assert !Stops(exec(k, stmts[k]), ignoreErrors(k));
      FirstStopAt(stmts, ignoreErrors, exec, k + 1, j);
    }
  }

  /**
   * A nonzero code is returned at once, and nothing after its command is
   * dispatched, when the setting read after that command is off and every
   * command before it succeeded.
   */
  lemma StopsAtFirstError(stmts: seq<string>, ignoreErrors: IgnoreFlags, exec: Dispatcher, j: nat)
    requires j < |stmts|
    requires forall i :: 0 <= i < j ==> exec(i, stmts[i]) == Returned(0)
    requires exec(j, stmts[j]).Returned? && exec(j, stmts[j]).code != 0 && !ignoreErrors(j)
    ensures Drive(stmts, ignoreErrors, exec, 0, 0) == LineRun(j + 1, exec(j, stmts[j]))
  {
    assert forall i :: 0 <= i < j ==> !Stops(exec(i, stmts[i]), ignoreErrors(i));
    FirstStopAt(stmts, ignoreErrors, exec, 0, j);
    DriveClosedForm(stmts, ignoreErrors, exec, 0, 0);
  }

  /**
   * With the setting off for the whole line, the line ends with the first
   * nonzero code, and nothing after that command is dispatched.
   */
  lemma StopsAtFirstErrorWhenNotIgnoring(stmts: seq<string>, exec: Dispatcher, j: nat)
    requires j < |stmts|
    requires forall i :: 0 <= i < j ==> exec(i, stmts[i]) == Returned(0)
    requires exec(j, stmts[j]).Returned? && exec(j, stmts[j]).code != 0
    ensures Drive(stmts, Constantly(false), exec, 0, 0) == LineRun(j + 1, exec(j, stmts[j]))
  {
    StopsAtFirstError(stmts, Constantly(false), exec, j);
  }

  /**
   * When no command ends the process and the setting is on after every command
   * that fails, every command is dispatched and the result is the code of the
   * last one, or 0 if there was none.  In `set hive.cli.errors.ignore=true;
   * select * from missing; select 1;` the setting is off after the `set`, which
   * succeeds, and on after the failing query, so `select 1` still runs.
   */
  lemma IgnoreErrorsRunsAll(stmts: seq<string>, ignoreErrors: IgnoreFlags, exec: Dispatcher)
    requires forall i :: 0 <= i < |stmts| ==>
               exec(i, stmts[i]).Returned? && (exec(i, stmts[i]).code != 0 ==> ignoreErrors(i))
    ensures Drive(stmts, ignoreErrors, exec, 0, 0) ==
            LineRun(|stmts|, Returned(if stmts == [] then 0 else exec(|stmts| - 1, stmts[|stmts| - 1]).code))
  {
    DriveClosedForm(stmts, ignoreErrors, exec, 0, 0);
  }

  /**
   * When no command makes `processLine` return early, it dispatches them all
   * and returns the last dispatched code, or 0 if there was none.
   */
  lemma NoEarlyReturnGivesLastCode(stmts: seq<string>, ignoreErrors: IgnoreFlags, exec: Dispatcher)
    requires forall i :: 0 <= i < |stmts| ==> !Stops(exec(i, stmts[i]), ignoreErrors(i))
    ensures Drive(stmts, ignoreErrors, exec, 0, 0).dispatched == |stmts|
    ensures Drive(stmts, ignoreErrors, exec, 0, 0).outcome ==
            if stmts == [] then Returned(0) else exec(|stmts| - 1, stmts[|stmts| - 1])
  {
    DriveClosedForm(stmts, ignoreErrors, exec, 0, 0);
  }

  /**
   * The setting only matters after a command that returned a nonzero code: two
   * settings that agree there run the line the same way.  So a `set` that turns
   * the setting on takes effect for the failures after it: a later failing
   * command no longer ends the line.
   */
  lemma {:induction false} SettingReadOnlyAfterFailure(stmts: seq<string>, flags1: IgnoreFlags, flags2: IgnoreFlags,
                                                       exec: Dispatcher, k: nat, lastRet: int)
    requires k <= |stmts|
    requires forall i :: k <= i < |stmts| && exec(i, stmts[i]).Returned? && exec(i, stmts[i]).code != 0 ==>
               flags1(i) == flags2(i)
    ensures Drive(stmts, flags1, exec, k, lastRet) == Drive(stmts, flags2, exec, k, lastRet)
    decreases |stmts| - k
  {
    if k < |stmts| {
      var o := exec(k, stmts[k]);
      assert Stops(o, flags1(k)) == Stops(o, flags2(k));
      if !Stops(o, flags1(k)) {
        SettingReadOnlyAfterFailure(stmts, flags1, flags2, exec, k + 1, o.code);
      }
    }
  }

  /**
   * `processLine`. The pieces of `line.split(";")` are scanned in order; `exec`
   * stands for `processCmd`. The commands it dispatches are exactly the first
   * ones of `Statements(line)`, as many as the error policy `Drive` allows, and
   * it ends as `Drive` says.
   */
  method ProcessLine(line: string, ignoreErrors: IgnoreFlags, exec: Dispatcher) returns (dispatched: seq<string>, result: Outcome)
    ensures var run := Drive(Statements(line), ignoreErrors, exec, 0, 0);
            dispatched == Statements(line)[..run.dispatched] && result == run.outcome
  {
    var frags := SplitOn(line, ';');
    ghost var stmts := Statements(line);
    var command := "";
    var lastRet := 0;
    dispatched := [];
    var i := 0;
    while i < |frags|
      invariant 0 <= i <= |frags|
      invariant stmts == dispatched + Commands(frags[i..], command)
      invariant Drive(stmts, ignoreErrors, exec, 0, 0) == Drive(stmts, ignoreErrors, exec, |dispatched|, lastRet)
    {
      var oneCmd := frags[i];
      CommandsHead(frags, i, command);
      i := i + 1;
      if Continued(oneCmd) {
        command := command + Chop(oneCmd) + ";";
        continue;
      }
      command := command + oneCmd;
      if IsBlank(command) {
        continue;
      }
      DispatchStep(stmts, dispatched, command, Commands(frags[i..], ""), ignoreErrors, exec, lastRet);
      var ret := exec(|dispatched|, command);
      var ignore := ignoreErrors(|dispatched|);
      dispatched := dispatched + [command];
      command := "";
      if Stops(ret, ignore) {
        result := ret;
        return;
      }
      lastRet := ret.code;
    }
    assert stmts == dispatched;
    result := Returned(lastRet);
  }

  // ---------------------------------------------------------------------------
  // How the split behaves on its own
  // ---------------------------------------------------------------------------

  /**
   * Adding one more piece at the end: it either completes the leftover into one
   * more command, or (when it is continued, or blank together with the leftover)
   * dispatches nothing.
   */
  lemma {:induction false} CommandsSnoc(frags: seq<string>, f: string, acc: string)
    ensures Commands(frags + [f], acc) ==
            Commands(frags, acc) +
            (if Continued(f) || IsBlank(Leftover(frags, acc) + f) then [] else [Leftover(frags, acc) + f])
    decreases |frags|
  {
    if frags == [] {
      assert [] + [f] == [f];
    } else {
      assert (frags + [f])[1..] == frags[1..] + [f];
      var g := frags[0];
      if Continued(g) {
        CommandsSnoc(frags[1..], f, acc + Chop(g) + ";");
      } else if IsBlank(acc + g) {
        CommandsSnoc(frags[1..], f, acc + g);
      } else {
        CommandsSnoc(frags[1..], f, "");
      }
    }
  }

  /** A text whose last piece ends in a backslash never dispatches that accumulated command. */
  lemma ContinuedLastPieceNeverDispatched(frags: seq<string>, f: string)
    requires Continued(f)
    ensures Commands(frags + [f], "") == Commands(frags, "")
  {
    CommandsSnoc(frags, f, "");
  }

  /** Two pieces, each followed by `;`. */
  lemma SplitOnTwoTerminated(a: string, b: string)
    requires ';' !in a && ';' !in b && b != []
    ensures SplitOn(a + [';'] + (b + [';']), ';') == [a, b]
  {
    var s := a + [';'] + (b + [';']);
    assert s[|a|] == ';';
    SplitAllNoSep(a, ';');
    SplitAllNoSep(b, ';');
    SplitAllConcat(b, [], ';');
    assert b + [';'] + [] == b + [';'];
    SplitAllConcat(a, b + [';'], ';');
    assert SplitAll(s, ';') == [a, b, []];
    assert [a, b, []][..2] == [a, b];
    assert DropTrailingEmpty([a, b, []]) == DropTrailingEmpty([a, b]);
  }

  /** A continued piece and a plain one make one command. */
  lemma CommandsGlued(a: string, b: string)
    requires Continued(a) && !Continued(b) && !IsBlank(Chop(a) + ";" + b)
    ensures Commands([a, b], "") == [Chop(a) + ";" + b]
  {
    assert [a, b][1..] == [b];
    assert "" + Chop(a) + ";" == Chop(a) + ";";
    assert Commands([a, b], "") == Commands([b], Chop(a) + ";");
  }

  /** Two plain, non-blank pieces make two commands. */
  lemma CommandsPlain(a: string, b: string)
    requires !Continued(a) && !Continued(b) && !IsBlank(a) && !IsBlank(b)
    ensures Commands([a, b], "") == [a, b]
  {
    assert "" + a == a && "" + b == b;
    assert [a, b][1..] == [b];
    assert Commands([a, b], "") == [a] + Commands([b], "");
  }

  /**
   * An escaped terminator glues two pieces into one command, `a\;b;` running
   * `a;b`: the backslash is dropped and the `;` kept.
   */
  lemma EscapedTerminatorJoins(a: string, b: string)
    requires ';' !in a && ';' !in b && b != []
    requires Continued(a) && !Continued(b) && !IsBlank(Chop(a) + ";" + b)
    ensures Statements(a + ";" + b + ";") == [Chop(a) + ";" + b]
  {
    assert a + ";" + b + ";" == a + [';'] + (b + [';']);
    SplitOnTwoTerminated(a, b);
    CommandsGlued(a, b);
  }

  /**
   * Two terminated statements are dispatched one after the other, each exactly
   * as it stands between the terminators: `select 1; select 2;` runs `select 1`
   * and then ` select 2`, with its leading space.
   */
  lemma TwoStatements(a: string, b: string)
    requires ';' !in a && ';' !in b
    requires !Continued(a) && !Continued(b) && !IsBlank(a) && !IsBlank(b)
    ensures Statements(a + ";" + b + ";") == [a, b]
  {
    assert a + ";" + b + ";" == a + [';'] + (b + [';']);
    SplitOnTwoTerminated(a, b);
    CommandsPlain(a, b);
  }

  /** Two pieces, the second not followed by `;`. */
  lemma SplitOnTwo(a: string, b: string)
    requires ';' !in a && ';' !in b && b != []
    ensures SplitOn(a + [';'] + b, ';') == [a, b]
  {
    var s := a + [';'] + b;
    assert s[|a|] == ';';
    SplitAllNoSep(a, ';');
    SplitAllNoSep(b, ';');
    SplitAllConcat(a, b, ';');
    assert SplitAll(s, ';') == [a, b];
  }

  /** A last command without a terminator is still dispatched: `a;b` runs `a` and then `b`. */
  lemma UnterminatedLastCommand(a: string, b: string)
    requires ';' !in a && ';' !in b
    requires !Continued(a) && !Continued(b) && !IsBlank(a) && !IsBlank(b)
    ensures Statements(a + ";" + b) == [a, b]
  {
    SplitOnTwo(a, b);
    CommandsPlain(a, b);
  }

  /** A piece followed by two `;`: the two empty pieces after it are trailing and dropped. */
  lemma SplitOnDoubleTerminator(a: string)
    requires ';' !in a && a != []
    ensures SplitOn(a + [';', ';'], ';') == [a]
  {
    var s := a + [';', ';'];
    assert s == a + [';'] + ([] + [';'] + []);
    assert s[|a|] == ';';
    SplitAllNoSep(a, ';');
    SplitAllConcat([], [], ';');
    SplitAllConcat(a, [] + [';'] + [], ';');
    assert SplitAll(s, ';') == [a, [], []];
    assert [a, [], []][..2] == [a, []];
    assert [a, []][..1] == [a];
  }

  /**
   * `a\;;` dispatches nothing: `split` drops the empty piece after the final
   * `;`, so the continued command `a;` is never completed and is left over.
   */
  lemma EscapedThenTerminatorDispatchesNothing(a: string)
    requires ';' !in a && Continued(a)
    ensures Statements(a + ";;") == []
    ensures Leftover(SplitOn(a + ";;", ';'), "") == Chop(a) + ";"
  {
    assert a + ";;" == a + [';', ';'];
    SplitOnDoubleTerminator(a);
    assert SplitOn(a + ";;", ';') == [a];
    assert [a][1..] == [];
    assert "" + Chop(a) + ";" == Chop(a) + ";";
    assert Commands([a], "") == Commands([], Chop(a) + ";");
    assert Leftover([a], "") == Leftover([], Chop(a) + ";");
  }

  // ---------------------------------------------------------------------------
  // An independent reading of the splitting rule, one character at a time
  // ---------------------------------------------------------------------------

  datatype ScanState = ScanState(out: seq<string>, buf: string)

  /**
   * Read `s` one character at a time with the pending text in `buf`: a `;`
   * after a backslash replaces that backslash; any other `;` ends the pending
   * text, which is emitted unless it is blank (blank text stays pending).
   */
  function Scan(s: string, buf: string): ScanState
    decreases |s|
  {
    if s == [] then ScanState([], buf)
    else if s[0] == ';' then
      if Continued(buf) then Scan(s[1..], Chop(buf) + ";")
      else if IsBlank(buf) then Scan(s[1..], buf)
      else var r := Scan(s[1..], ""); ScanState([buf] + r.out, r.buf)
    else Scan(s[1..], buf + [s[0]])
  }

  /** What is pending at the end of the text is emitted unless it is continued or blank. */
  function Flush(buf: string): seq<string> {
    if Continued(buf) || IsBlank(buf) then [] else [buf]
  }

  /** The reference: `;` characters at the very end of the text are ignored, the rest is scanned. */
  function ScanStatements(line: string): seq<string> {
    var r := Scan(StripTrailing(line, ';'), "");
    r.out + Flush(r.buf)
  }

  /** Pending text that cannot make the next `;` look escaped by itself. */
  predicate AccOk(acc: string) {
    acc == [] || Last(acc) != '\\'
  }

  lemma ScanNoSemi(f: string, rest: string, buf: string)
    requires ';' !in f
    ensures Scan(f + rest, buf) == Scan(rest, buf + f)
    decreases |f|
  {
    if f == [] {
      assert f + rest == rest && buf + f == buf;
    } else {
      assert (f + rest)[1..] == f[1..] + rest;
      assert buf + [f[0]] + f[1..] == buf + f;
      ScanNoSemi(f[1..], rest, buf + [f[0]]);
    }
  }

  /** One `;` read by the scanner. */
  lemma ScanSemi(rest: string, buf: string)
    ensures Scan([';'] + rest, buf) ==
            if Continued(buf) then Scan(rest, Chop(buf) + ";")
            else if IsBlank(buf) then Scan(rest, buf)
            else ScanState([buf] + Scan(rest, "").out, Scan(rest, "").buf)
  {
    assert ([';'] + rest)[1..] == rest;
  }

  /** Pending text that cannot end in a backslash does not change whether the next piece is continued. */
  lemma ContinuedAfter(acc: string, f: string)
    requires AccOk(acc)
    ensures Continued(acc + f) <==> Continued(f)
    ensures Continued(f) ==> Chop(acc + f) == acc + Chop(f)
  {
    var buf := acc + f;
    if f != [] {
      assert Last(buf) == Last(f);
    }
    if Continued(f) {
      assert !EndsWith(buf, "\r\n") && !EndsWith(f, "\r\n");
      assert buf[..|buf| - 1] == acc + f[..|f| - 1];
    }
  }

  lemma {:induction false} CommandsAgreeWithScan(frags: seq<string>, acc: string)
    requires |frags| > 0
    requires forall i :: 0 <= i < |frags| ==> ';' !in frags[i]
    requires AccOk(acc)
    ensures var r := Scan(Join(frags, ";"), acc); Commands(frags, acc) == r.out + Flush(r.buf)
    decreases |frags|
  {
    var f := frags[0];
    var buf := acc + f;
    ContinuedAfter(acc, f);
    if |frags| == 1 {
      assert Join(frags, ";") == f + [];
      ScanNoSemi(f, [], acc);
    } else {
      var rest := frags[1..];
      var tail := Join(rest, ";");
      assert frags == [f] + rest;
      JoinCons(f, rest, ";");
      assert Join(frags, ";") == f + ([';'] + tail);
      ScanNoSemi(f, [';'] + tail, acc);
      ScanSemi(tail, buf);
      if Continued(f) {
        assert Chop(buf) + ";" == acc + Chop(f) + ";";
        CommandsAgreeWithScan(rest, acc + Chop(f) + ";");
      } else if IsBlank(buf) {
        assert buf != [] ==> IsWhitespace(Last(buf));
        CommandsAgreeWithScan(rest, buf);
      } else {
        var r := Scan(tail, "");
        CommandsAgreeWithScan(rest, "");
        assert ([buf] + r.out) + Flush(r.buf) == [buf] + (r.out + Flush(r.buf));
      }
    }
  }

  /**
   * The piece-by-piece loop of `processLine` dispatches exactly the commands the
   * character-level reading finds.
   */
  lemma {:induction false} StatementsMatchScan(line: string)
    ensures Statements(line) == ScanStatements(line)
  {
    var frags := SplitOn(line, ';');
    SplitOnJoin(line, ';');
    if frags == [] {
      assert StripTrailing(line, ';') == [];
    } else {
      CommandsAgreeWithScan(frags, "");
    }
  }
}
