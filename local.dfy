/**
 * `CliDriver.processCmdInLocal`: one statement run by the in-process engine.
 * A nonzero `run` code short-circuits; otherwise the header and the result rows
 * are printed batch by batch, the rows may also go to the sampling side file,
 * an `IOException` makes the code 1, and the code `close` returns is the answer
 * only when nothing failed before it.
 */
module LocalMode {
  import opened Core
  import opened JavaText
  import Classifier

  /** What `CommandProcessorFactory.get(tokens[0])` gives: nothing, the query `Driver`, or another processor. */
  datatype Processor = NoProcessor | QueryDriver | OtherProcessor(responseCode: int)

  /** An `IOException`: the name of its class and its message. */
  datatype IOFailure = IOFailure(className: string, message: string)

  /** What `BufferedWriter.write` throws once the writer is closed. */
  const StreamClosed := IOFailure("java.io.IOException", "Stream closed")

  /**
   * How the engine answers one statement. `getResults` hands out `batches` in
   * order and then returns false, or throws `resultsFailure`; opening the side
   * file may fail with `sideFileFailure`; `out.checkError()` holds after the
   * batch numbered `outErrorAfter` and every later one.
   */
  datatype Engine = Engine(
    processor: Processor,
    runCode: int,
    schema: seq<string>,
    batches: seq<seq<string>>,
    resultsFailure: Option<IOFailure>,
    sideFileFailure: Option<IOFailure>,
    outErrorAfter: Option<nat>,
    closeCode: int)

  /** The configuration read by this method: verbose mode, `hive.cli.print.header`, the sampling switch. */
  datatype Settings = Settings(verbose: bool, printHeader: bool, samplingEnabled: bool)

  /**
   * The response, what the side file holds afterwards (`None` when it was not
   * opened, so it is left as it was), and whether the `Driver` was closed.
   */
  datatype LocalRun = LocalRun(response: Response, summary: Option<seq<string>>, closed: bool)

  /** The error line printed for an `IOException`. */
  function FailureLine(f: IOFailure): string {
    "Failed with exception " + f.className + ":" + f.message
  }

  /** The rows of several batches, in order. */
  function Flatten(bs: seq<seq<string>>): seq<string> {
    if bs == [] then [] else bs[0] + Flatten(bs[1..])
  }

  // ---------------------------------------------------------------------------
  // Draining the results
  // ---------------------------------------------------------------------------

  /** What draining printed, what it wrote to the side file, and the exception that ended it. */
  datatype Drain = Drain(printed: seq<string>, written: seq<string>, failure: Option<IOFailure>)

  /**
   * One batch: every row is printed; when the side file is being written, each
   * row goes there too while the writer is open, and the first write after it
   * was closed throws, right after that row was printed.
   */
  function BatchDrain(rows: seq<string>, writes: bool, open: bool): Drain {
    if writes && !open && rows != [] then Drain([rows[0]], [], Some(StreamClosed))
    else Drain(rows, if writes then rows else [], None)
  }

  predicate OutBroken(after: Option<nat>, i: nat) {
    after.Some? && after.value <= i
  }

  /**
   * The `getResults` loop from the `i`-th batch on. The writer is closed at the
   * end of every batch, so it is open only during the first one; a broken output
   * stream ends the loop after the batch in progress.
   */
  function DrainFrom(engine: Engine, writes: bool, i: nat): Drain
    decreases |engine.batches| - i
  {
    if i >= |engine.batches| then Drain([], [], engine.resultsFailure)
    else
      var b := BatchDrain(engine.batches[i], writes, i == 0);
      if b.failure.Some? || OutBroken(engine.outErrorAfter, i) then b
      else Joined(b, DrainFrom(engine, writes, i + 1))
  }

  /** What one stretch of draining did, followed by what the next stretch did. */
  function Joined(a: Drain, b: Drain): Drain {
    Drain(a.printed + b.printed, a.written + b.written, b.failure)
  }

  /** Regrouping three stretches; kept apart because the loop's proof runs out of resource with it inline. */
  lemma JoinedAssoc(a: Drain, b: Drain, c: Drain)
    ensures Joined(a, Joined(b, c)) == Joined(Joined(a, b), c)
  {
  }

  lemma DrainStep(engine: Engine, writes: bool, i: nat)
    requires i < |engine.batches|
    ensures var b := BatchDrain(engine.batches[i], writes, i == 0);
            DrainFrom(engine, writes, i) ==
            if b.failure.Some? || OutBroken(engine.outErrorAfter, i) then b else Joined(b, DrainFrom(engine, writes, i + 1))
  {
  }

  /** The rows of one batch, printed and maybe written, one at a time. */
  method DrainBatch(rows: seq<string>, writes: bool, open: bool) returns (b: Drain)
    ensures b == BatchDrain(rows, writes, open)
  {
    var printed: seq<string> := [];
    var written: seq<string> := [];
    var failure: Option<IOFailure> := None;
    var j := 0;
    while j < |rows| && failure.None?
      invariant 0 <= j <= |rows|
      invariant failure.None? ==>
                  printed == rows[..j] && written == (if writes then rows[..j] else []) && (writes && !open ==> j == 0)
      invariant failure.Some? ==>
                  writes && !open && rows != [] && printed == [rows[0]] && written == [] && failure == Some(StreamClosed)
    {
      printed := printed + [rows[j]];
      if writes {
        if open {
          written := written + [rows[j]];
        } else {
          failure := Some(StreamClosed);
        }
      }
      j := j + 1;
    }
    if failure.None? {
      assert rows[..j] == rows;
    }
    b := Drain(printed, written, failure);
  }

  /** The `while (qp.getResults(res))` loop. */
  method DrainResults(engine: Engine, writes: bool) returns (d: Drain)
    ensures d == DrainFrom(engine, writes, 0)
  {
    var printed: seq<string> := [];
    var written: seq<string> := [];
    var failure: Option<IOFailure> := None;
    var i := 0;
    var open := true;
    var stop := false;
    while !stop
      invariant 0 <= i <= |engine.batches|
      invariant open <==> i == 0
      invariant !stop ==> failure.None?
      invariant !stop ==> DrainFrom(engine, writes, 0) == Joined(Drain(printed, written, None), DrainFrom(engine, writes, i))
      invariant stop ==> DrainFrom(engine, writes, 0) == Drain(printed, written, failure)
      decreases |engine.batches| - i, !stop
    {
      if i == |engine.batches| {
        failure := engine.resultsFailure;
        stop := true;
      } else {
        var b := DrainBatch(engine.batches[i], writes, open);
        ghost var before := Drain(printed, written, None);
        DrainStep(engine, writes, i);
        JoinedAssoc(before, b, DrainFrom(engine, writes, i + 1));
        printed := printed + b.printed;
        written := written + b.written;
        open := false;
        if b.failure.Some? {
          failure := b.failure;
          stop := true;
        } else if OutBroken(engine.outErrorAfter, i) {
          stop := true;
        }
        i := i + 1;
      }
    }
    d := Drain(printed, written, failure);
  }

  // ---------------------------------------------------------------------------
  // The whole method
  // ---------------------------------------------------------------------------

  /** `processCmdInLocal(cmd, ss, executionFlag)`. */
  function LocalSpec(cmd: string, flag: int, settings: Settings, engine: Engine): LocalRun {
    match engine.processor
    case NoProcessor => LocalRun(Response(Returned(0), [], []), None, false)
    case OtherProcessor(c) =>
      var echo := if settings.verbose then [Classifier.Tokens(cmd)[0] + " " + Classifier.Argument(cmd)] else [];
      LocalRun(Response(Returned(c), echo, []), None, false)
    case QueryDriver =>
      var echo := if settings.verbose then [cmd] else [];
      if engine.runCode != 0 then LocalRun(Response(Returned(engine.runCode), echo, []), None, true)
      else
        var header := if settings.printHeader then [Join(engine.schema, "\t")] else [];
        if engine.sideFileFailure.Some? then
          LocalRun(Response(Returned(1), echo + header, [FailureLine(engine.sideFileFailure.value)]), None, true)
        else
          var d := DrainFrom(engine, settings.samplingEnabled && flag == 9, 0);
          var code := if d.failure.Some? then 1 else engine.closeCode;
          LocalRun(Response(Returned(code), echo + header + d.printed,
                            if d.failure.Some? then [FailureLine(d.failure.value)] else []),
                   Some(d.written), true)
  }

  method ProcessCmdInLocal(cmd: string, flag: int, settings: Settings, engine: Engine) returns (run: LocalRun)
    ensures run == LocalSpec(cmd, flag, settings, engine)
  {
    match engine.processor {
      case NoProcessor =>
        run := LocalRun(Response(Returned(0), [], []), None, false);
      case OtherProcessor(c) =>
        var out: seq<string> := [];
        if settings.verbose {
          out := [Classifier.Tokens(cmd)[0] + " " + Classifier.Argument(cmd)];
        }
        run := LocalRun(Response(Returned(c), out, []), None, false);
      case QueryDriver =>
        var out: seq<string> := [];
        if settings.verbose {
          out := [cmd];
        }
        var ret := engine.runCode;
        if ret != 0 {
          run := LocalRun(Response(Returned(ret), out, []), None, true);
          return;
        }
        if settings.printHeader {
          out := out + [Join(engine.schema, "\t")];
        }
        var err: seq<string> := [];
        var summary: Option<seq<string>> := None;
        if engine.sideFileFailure.Some? {
          err := [FailureLine(engine.sideFileFailure.value)];
          ret := 1;
        } else {
          var d := DrainResults(engine, settings.samplingEnabled && flag == 9);
          out := out + d.printed;
          summary := Some(d.written);
          if d.failure.Some? {
            err := [FailureLine(d.failure.value)];
            ret := 1;
          }
        }
        var cret := engine.closeCode;
        if ret == 0 {
          ret := cret;
        }
        run := LocalRun(Response(Returned(ret), out, err), summary, true);
    }
  }

  // ---------------------------------------------------------------------------
  // Properties
  // ---------------------------------------------------------------------------

  /** `out.checkError()` stops the loop before the batches run out. */
  predicate Interrupted(engine: Engine) {
    engine.outErrorAfter.Some? && engine.outErrorAfter.value < |engine.batches|
  }

  /** How many batches the loop takes from the engine when no exception ends it. */
  function Reach(engine: Engine): (n: nat)
    ensures n <= |engine.batches|
  {
    if Interrupted(engine) then engine.outErrorAfter.value + 1 else |engine.batches|
  }

  /** The first nonempty batch among `bs[lo..hi]`, or `hi` when there is none. */
  function FirstNonEmpty(bs: seq<seq<string>>, lo: nat, hi: nat): (r: nat)
    requires lo <= hi <= |bs|
    ensures lo <= r <= hi
    ensures forall j :: lo <= j < r ==> bs[j] == []
    ensures r < hi ==> bs[r] != []
    decreases hi - lo
  {
    if lo == hi || bs[lo] != [] then lo else FirstNonEmpty(bs, lo + 1, hi)
  }

  /** While the side file is being written, a batch after the first one that has rows. */
  predicate LateRows(engine: Engine) {
    exists i :: 1 <= i < Reach(engine) && engine.batches[i] != []
  }

  /**
   * Draining from batch `k` when no write hits the closed writer: the rows of the
   * batches up to the one that broke the output stream are printed, the first
   * batch goes to the side file, and `getResults`'s own exception ends it only if
   * the loop got that far.
   */
  lemma {:induction false} DrainNoLateWrite(engine: Engine, writes: bool, k: nat)
    requires k < Reach(engine) || (k == Reach(engine) && !Interrupted(engine))
    requires writes ==> forall i :: 1 <= i < Reach(engine) && k <= i ==> engine.batches[i] == []
    ensures DrainFrom(engine, writes, k) ==
            Drain(Flatten(engine.batches[k..Reach(engine)]),
                  if writes && k == 0 && Reach(engine) > 0 then engine.batches[0] else [],
                  if Interrupted(engine) then None else engine.resultsFailure)
    decreases Reach(engine) - k
  {
    var bs := engine.batches;
    if k < Reach(engine) {
      assert bs[k..Reach(engine)] == [bs[k]] + bs[k + 1..Reach(engine)];
      if !OutBroken(engine.outErrorAfter, k) {
        DrainNoLateWrite(engine, writes, k + 1);
      } else {
        assert bs[k + 1..Reach(engine)] == [];
      }
    }
  }

  /**
   * Draining from batch `k` when batch `i` is the first one after the first that
   * has rows while the side file is written: its first row is printed, and then
   * the write to the closed writer throws.
   */
  lemma {:induction false} DrainStopsAtLateWrite(engine: Engine, k: nat, i: nat)
    requires k <= i && 1 <= i < Reach(engine) && engine.batches[i] != []
    requires forall j :: 1 <= j < i && k <= j ==> engine.batches[j] == []
    ensures DrainFrom(engine, true, k) ==
            Drain(Flatten(engine.batches[k..i]) + [engine.batches[i][0]],
                  if k == 0 then engine.batches[0] else [],
                  Some(StreamClosed))
    decreases i - k
  {
    var bs := engine.batches;
    if k < i {
      assert bs[k..i] == [bs[k]] + bs[k + 1..i];
      DrainStopsAtLateWrite(engine, k + 1, i);
    } else {
      assert bs[k..i] == [];
    }
  }

  /** Whether an `IOException` happens on the way: opening the side file, writing it late, or in `getResults`. */
  predicate IOFails(flag: int, settings: Settings, engine: Engine) {
    engine.sideFileFailure.Some? ||
    (settings.samplingEnabled && flag == 9 && LateRows(engine)) ||
    (!Interrupted(engine) && engine.resultsFailure.Some?)
  }

  /**
   * The response-code combination for a query: when `run` succeeds, the answer
   * is 1 if an `IOException` happened and the code `close` returned otherwise,
   * and an error line is printed exactly when the exception happened.
   */
  lemma {:induction false} QueryCodeCombination(cmd: string, flag: int, settings: Settings, engine: Engine)
    requires engine.processor == QueryDriver && engine.runCode == 0
    ensures var r := LocalSpec(cmd, flag, settings, engine).response;
            r.outcome == Returned(if IOFails(flag, settings, engine) then 1 else engine.closeCode) &&
            (r.err == [] <==> !IOFails(flag, settings, engine))
    ensures LocalSpec(cmd, flag, settings, engine).closed
  {
    var writes := settings.samplingEnabled && flag == 9;
    if engine.sideFileFailure.None? {
      var i := FirstNonEmpty(engine.batches, if Reach(engine) == 0 then 0 else 1, Reach(engine));
      if writes && 1 <= i < Reach(engine) {
        DrainStopsAtLateWrite(engine, 0, i);
      } else {
        DrainNoLateWrite(engine, writes, 0);
      }
    }
  }

  /**
   * What a successful query prints, and what it leaves in the side file, when
   * no row is written late: the echo, the header, then the rows of every batch
   * the loop took; the side file holds the first batch when it is written, and
   * is emptied otherwise.
   */
  lemma QueryRowsPrinted(cmd: string, flag: int, settings: Settings, engine: Engine)
    requires engine.processor == QueryDriver && engine.runCode == 0 && engine.sideFileFailure.None?
    requires !(settings.samplingEnabled && flag == 9 && LateRows(engine))
    ensures var run := LocalSpec(cmd, flag, settings, engine);
            run.response.out ==
              (if settings.verbose then [cmd] else []) +
              (if settings.printHeader then [Join(engine.schema, "\t")] else []) +
              Flatten(engine.batches[..Reach(engine)]) &&
            run.summary == Some(if settings.samplingEnabled && flag == 9 && Reach(engine) > 0 then engine.batches[0] else [])
  {
    var writes := settings.samplingEnabled && flag == 9;
    DrainNoLateWrite(engine, writes, 0);
    assert engine.batches[0..Reach(engine)] == engine.batches[..Reach(engine)];
  }

  /**
   * When the side file is written and a later batch has rows, the rows up to the
   * first row of that batch are printed, then the write fails: code 1, one error
   * line, the side file holding the first batch.
   */
  lemma LateRowsFail(cmd: string, settings: Settings, engine: Engine, i: nat)
    requires settings.samplingEnabled
    requires engine.processor == QueryDriver && engine.runCode == 0 && engine.sideFileFailure.None?
    requires 1 <= i < Reach(engine) && engine.batches[i] != []
    requires forall j :: 1 <= j < i ==> engine.batches[j] == []
    ensures var run := LocalSpec(cmd, 9, settings, engine);
            run.response.outcome == Returned(1) &&
            run.response.err == [FailureLine(StreamClosed)] &&
            run.response.out ==
              (if settings.verbose then [cmd] else []) +
              (if settings.printHeader then [Join(engine.schema, "\t")] else []) +
              Flatten(engine.batches[..i]) + [engine.batches[i][0]] &&
            run.summary == Some(engine.batches[0])
  {
    DrainStopsAtLateWrite(engine, 0, i);
    assert engine.batches[0..i] == engine.batches[..i];
  }

  /** A failing `run` is answered at once: its code, no rows, the side file untouched, the `Driver` closed. */
  lemma RunFailureShortCircuits(cmd: string, flag: int, settings: Settings, engine: Engine, other: Engine)
    requires engine.processor == QueryDriver && engine.runCode != 0
    requires other.processor == QueryDriver && other.runCode == engine.runCode
    ensures LocalSpec(cmd, flag, settings, engine) ==
            LocalRun(Response(Returned(engine.runCode), if settings.verbose then [cmd] else [], []), None, true)
    ensures LocalSpec(cmd, flag, settings, engine) == LocalSpec(cmd, flag, settings, other)
  {
  }
}
