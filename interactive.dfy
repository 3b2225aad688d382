/**
 * The interactive side of `main`: the prompts, and the read loop that gathers
 * console lines into units for `processLine`.  A line whose trimmed text ends in
 * `;` but not in `\;` completes a unit; any other line is kept, after a newline
 * when something is already kept, and the continuation prompt is shown.  The
 * console is a finite sequence of lines, end of input is the end of the
 * sequence, and `processLine` is an oracle giving one outcome per unit.
 */
module Interactive {
  import opened Core
  import opened JavaText
  import opened Splitter

  /** The primary prompt before any connection. */
  const DefaultPrompt: string := "hive"
  /** The continuation prompt before any connection. */
  const DefaultPrompt2: string := "    "

  /** The continuation prompt built for `prompt`: one space per character. */
  function Blanks(prompt: string): (r: string)
    ensures |r| == |prompt|
    ensures forall i :: 0 <= i < |r| ==> r[i] == ' '
  {
    Repeat(' ', |prompt|)
  }

  /** The two static defaults already follow the rule by which later prompts are built. */
  lemma DefaultPromptsAgree()
    ensures DefaultPrompt2 == Blanks(DefaultPrompt)
  {
    var b := Blanks(DefaultPrompt);
    assert |b| == 4 && b[0] == b[1] == b[2] == b[3] == ' ';
  }

  datatype Prompts = Prompts(primary: string, continuation: string)

  /**
   * The prompts `main` settles on: with a host given and the session in remote
   * mode the primary prompt is prefixed with `[host:port] ` and the continuation
   * prompt rebuilt from it; otherwise both keep their defaults.
   */
  function StartupPrompts(host: Option<string>, port: int, remoteMode: bool): (p: Prompts)
    ensures |p.continuation| == |p.primary|
    ensures forall i :: 0 <= i < |p.continuation| ==> p.continuation[i] == ' '
    ensures host.None? || !remoteMode ==> p == Prompts(DefaultPrompt, DefaultPrompt2)
    ensures host.Some? && remoteMode ==>
              p.primary == "[" + host.value + ":" + IntToString(port) + "] " + DefaultPrompt
  {
    if host.Some? && remoteMode then
      var primary := "[" + host.value + ":" + IntToString(port) + "] " + DefaultPrompt;
      Prompts(primary, Blanks(primary))
    else
      DefaultPromptsReturned();
      Prompts(DefaultPrompt, DefaultPrompt2)
  }

  lemma DefaultPromptsReturned()
    ensures |DefaultPrompt2| == |DefaultPrompt|
    ensures forall i :: 0 <= i < |DefaultPrompt2| ==> DefaultPrompt2[i] == ' '
  {
    DefaultPromptsAgree();
  }

  /** Regroupings kept apart: with them inline the two loop proofs run out of resource. */
  lemma ConsAppendAssoc<T>(x: T, a: seq<T>, b: seq<T>)
    ensures [x] + (a + b) == ([x] + a) + b
  {
  }

  lemma ConsAssoc<T>(a: seq<T>, x: T, b: seq<T>)
    ensures a + ([x] + b) == (a + [x]) + b
  {
  }

  // ---------------------------------------------------------------------------
  // Gathering lines into units
  // ---------------------------------------------------------------------------

  /**
   * The test that completes a unit: the trimmed line ends in `;` and not in `\;`.
   * Only the right end of the line matters to a suffix test, so it is read from
   * the right, skipping what `trim` would remove; `TerminatesIsTrimTest` shows it
   * is the test on the trimmed line.
   */
  predicate Terminates(line: string) {
    TerminatesWithin(line, |line|)
  }

  /** The test on the first `n` characters of `line`, scanning leftwards from position `n`. */
  predicate TerminatesWithin(line: string, n: nat)
    requires n <= |line|
    decreases n
  {
    if n == 0 then false
    else if IsTrimmable(line[n - 1]) then TerminatesWithin(line, n - 1)
    else line[n - 1] == ';' && !(n > 1 && line[n - 2] == '\\')
  }

  /** The test looks at what is left once the right end is trimmed. */
  lemma {:induction false} TerminatesWithinOnTrimRight(line: string, n: nat)
    requires n <= |line|
    ensures TerminatesWithin(line, n) <==> EndsInTerminator(TrimRight(line[..n]))
    decreases n
  {
    var s := line[..n];
    if n > 0 {
      assert Last(s) == line[n - 1];
      if IsTrimmable(line[n - 1]) {
        assert s[..n - 1] == line[..n - 1];
        TerminatesWithinOnTrimRight(line, n - 1);
      } else {
        assert TrimRight(s) == s;
        if n > 1 {
          assert s[n - 2] == line[n - 2];
        }
      }
    }
  }

  lemma TerminatesOnTrimRight(line: string)
    ensures Terminates(line) <==> EndsInTerminator(TrimRight(line))
  {
    TerminatesWithinOnTrimRight(line, |line|);
    assert line[..|line|] == line;
  }

  /** `t` ends in `;` with no backslash just before it. */
  predicate EndsInTerminator(t: string) {
    |t| > 0 && Last(t) == ';' && !(|t| > 1 && t[|t| - 2] == '\\')
  }

  /** The character test is the pair of `endsWith` tests. */
  lemma EndsInTerminatorIsEndsWith(t: string)
    ensures EndsInTerminator(t) <==> EndsWith(t, ";") && !EndsWith(t, "\\;")
  {
    if |t| > 1 {
      assert t[|t| - 2..] == [t[|t| - 2], t[|t| - 1]];
    }
    if |t| > 0 {
      assert t[|t| - 1..] == [t[|t| - 1]];
    }
  }

  /** Trimming the left end of a right-trimmed text does not change the test. */
  lemma TrimLeftKeepsTerminator(r: string)
    requires r == [] || !IsTrimmable(Last(r))
    ensures EndsInTerminator(r) <==> EndsInTerminator(TrimLeft(r))
  {
    var t := TrimLeft(r);
    if t != [] {
      assert Last(t) == Last(r);
      if |t| > 1 {
        assert t[|t| - 2] == r[|r| - 2];
      } else if |r| > 1 {
        assert IsTrimmable(r[|r| - 2]);
      }
    }
  }

  /** The loop's test, `line.trim().endsWith(";") && !line.trim().endsWith("\\;")`. */
  lemma TerminatesIsTrimTest(line: string)
    ensures Terminates(line) <==> EndsWith(Trim(line), ";") && !EndsWith(Trim(line), "\\;")
  {
    TerminatesOnTrimRight(line);
    TrimLeftKeepsTerminator(TrimRight(line));
    EndsInTerminatorIsEndsWith(Trim(line));
  }

  /** What is kept so far, followed by a newline when it is not empty. */
  function Separated(prefix: string): (r: string)
    ensures r == [] || Last(r) == '\n'
  {
    if prefix != "" then prefix + "\n" else prefix
  }

  /** The units the loop hands to `processLine` from line `i` on, given what it kept before line `i`. */
  function UnitsFrom(lines: seq<string>, i: nat, prefix: string): seq<string>
    requires i <= |lines|
    decreases |lines| - i
  {
    if i == |lines| then []
    else if Terminates(lines[i]) then [Separated(prefix) + lines[i]] + UnitsFrom(lines, i + 1, "")
    else UnitsFrom(lines, i + 1, Separated(prefix) + lines[i])
  }

  /** What the loop has kept, not yet sent, once it has read every line from `i` on. */
  function PendingFrom(lines: seq<string>, i: nat, prefix: string): string
    requires i <= |lines|
    decreases |lines| - i
  {
    if i == |lines| then prefix
    else if Terminates(lines[i]) then PendingFrom(lines, i + 1, "")
    else PendingFrom(lines, i + 1, Separated(prefix) + lines[i])
  }

  /**
   * The prompt passed to the console for the read of line `k` (`k == |lines|`
   * being the read that meets end of input): the primary prompt first and after
   * a line that completed a unit, the continuation prompt after any other line.
   */
  function PromptFor(lines: seq<string>, k: nat, prompt: string, prompt2: string): string
    requires k <= |lines|
  {
    (if k == 0 || Terminates(lines[k - 1]) then prompt else prompt2) + "> "
  }

  /** The status `System.exit` receives. */
  function ExitStatus(o: Outcome): int {
    match o
    case Returned(code) => code
    case Exited(status) => status
  }

  /**
   * What a run of the read loop produces: the prompts passed to the console,
   * the units handed to `processLine`, the exit status, and whether it ended by
   * meeting end of input (rather than by a unit that exited).
   */
  datatype Session = Session(shown: seq<string>, units: seq<string>, status: int, finished: bool)

  /**
   * The loop as a function of its state before reading line `i`: what it has
   * kept, shown and sent so far and the last code.
   */
  function LoopFrom(lines: seq<string>, prompt: string, prompt2: string, exec: Dispatcher,
                    i: nat, prefix: string, shown: seq<string>, units: seq<string>, ret: int): Session
    requires i <= |lines|
    decreases |lines| - i
  {
    if i == |lines| then Session(shown, units, ret, true)
    else if Terminates(lines[i]) then
      var unit := Separated(prefix) + lines[i];
      var o := exec(|units|, unit);
      if o.Exited? then Session(shown, units + [unit], o.status, false)
      else LoopFrom(lines, prompt, prompt2, exec, i + 1, "", shown + [prompt + "> "], units + [unit], o.code)
    else LoopFrom(lines, prompt, prompt2, exec, i + 1, Separated(prefix) + lines[i], shown + [prompt2 + "> "], units, ret)
  }

  /**
   * The read loop: it shows the prompts `shown`, hands the units to `exec` and
   * ends with the status `System.exit` receives, as `Run` describes (see
   * `RunMeetsPolicy` for what that run is).
   */
  method ReadLoop(lines: seq<string>, prompt: string, prompt2: string, exec: Dispatcher)
    returns (shown: seq<string>, units: seq<string>, status: int)
    ensures var s := Run(lines, prompt, prompt2, exec);
            shown == s.shown && units == s.units && status == s.status
  {
    var prefix := "";
    var curPrompt := prompt;
    var ret := 0;
    var i := 0;
    units := [];
    shown := [curPrompt + "> "];
    ghost var session := Run(lines, prompt, prompt2, exec);
    while i < |lines|
      invariant i <= |lines|
      invariant LoopFrom(lines, prompt, prompt2, exec, i, prefix, shown, units, ret) == session
    {
      var line := lines[i];
      ghost var kept := prefix;
      if prefix != "" {
        prefix := prefix + "\n";
      }
      assert prefix == Separated(kept);
      if Terminates(line) {
        line := prefix + line;
        var o := exec(|units|, line);
        units := units + [line];
        if o.Exited? {
          status := o.status;
          assert session == Session(shown, units, status, false);
          return;
        }
        ret := o.code;
        prefix := "";
        curPrompt := prompt;
      } else {
        prefix := prefix + line;
        curPrompt := prompt2;
      }
      i := i + 1;
      shown := shown + [curPrompt + "> "];
    }
    status := ret;
  }

  /** The whole run of the read loop, from the first prompt on. */
  function Run(lines: seq<string>, prompt: string, prompt2: string, exec: Dispatcher): Session {
    LoopFrom(lines, prompt, prompt2, exec, 0, "", [prompt + "> "], [], 0)
  }

  /**
   * The read loop hands the units to `exec` in order; a unit whose processing
   * exits ends the loop with that status, and otherwise end of input exits with
   * the last unit's code (0 when none was sent), whatever the earlier codes
   * were. One prompt is shown per read, the primary one first and after each
   * completed unit, and every line is read unless a unit exits.
   */
  lemma RunMeetsPolicy(lines: seq<string>, prompt: string, prompt2: string, exec: Dispatcher)
    ensures var all := UnitsFrom(lines, 0, "");
            var run := Drive(all, Constantly(true), exec, 0, 0);
            var s := Run(lines, prompt, prompt2, exec);
            s.units == all[..run.dispatched] && s.status == ExitStatus(run.outcome) &&
            s.finished == run.outcome.Returned?
    ensures var s := Run(lines, prompt, prompt2, exec);
            0 < |s.shown| <= |lines| + 1 &&
            (forall k :: 0 <= k < |s.shown| ==> s.shown[k] == PromptFor(lines, k, prompt, prompt2)) &&
            (s.finished ==> |s.shown| == |lines| + 1)
  {
    var shown: seq<string> := [prompt + "> "];
    LoopMeetsUnits(lines, prompt, prompt2, exec, 0, "", shown, [], 0);
    assert [] + UnitsFrom(lines, 0, "") == UnitsFrom(lines, 0, "");
    assert shown[0] == PromptFor(lines, 0, prompt, prompt2);
    LoopMeetsPrompts(lines, prompt, prompt2, exec, 0, "", shown, [], 0);
  }

  /**
   * Whatever state the loop is in, provided what it has sent and has still to
   * send make up all the units and the policy agrees on what is done so far, it
   * ends as the ignore-errors policy says.
   */
  lemma {:induction false} LoopMeetsUnits(lines: seq<string>, prompt: string, prompt2: string, exec: Dispatcher,
                                          i: nat, prefix: string, shown: seq<string>, units: seq<string>, ret: int)
    requires i <= |lines|
    ensures var r := LoopFrom(lines, prompt, prompt2, exec, i, prefix, shown, units, ret);
            var all := units + UnitsFrom(lines, i, prefix);
            var run := Drive(all, Constantly(true), exec, |units|, ret);
            r.units == all[..run.dispatched] && r.status == ExitStatus(run.outcome) &&
            r.finished == run.outcome.Returned?
    decreases |lines| - i, 1
  {
    var all := units + UnitsFrom(lines, i, prefix);
    if i == |lines| {
      assert all == units;
    } else if Terminates(lines[i]) {
      LoopMeetsUnitsOnSend(lines, prompt, prompt2, exec, i, prefix, shown, units, ret);
    } else {
      var kept := Separated(prefix) + lines[i];
      assert all == units + UnitsFrom(lines, i + 1, kept);
      assert LoopFrom(lines, prompt, prompt2, exec, i, prefix, shown, units, ret) ==
             LoopFrom(lines, prompt, prompt2, exec, i + 1, kept, shown + [prompt2 + "> "], units, ret);
      LoopMeetsUnits(lines, prompt, prompt2, exec, i + 1, kept, shown + [prompt2 + "> "], units, ret);
    }
  }

  /** `LoopMeetsUnits` for a line that completes a unit. */
  lemma {:induction false} LoopMeetsUnitsOnSend(lines: seq<string>, prompt: string, prompt2: string, exec: Dispatcher,
                                                i: nat, prefix: string, shown: seq<string>, units: seq<string>, ret: int)
    requires i < |lines| && Terminates(lines[i])
    ensures var r := LoopFrom(lines, prompt, prompt2, exec, i, prefix, shown, units, ret);
            var all := units + UnitsFrom(lines, i, prefix);
            var run := Drive(all, Constantly(true), exec, |units|, ret);
            r.units == all[..run.dispatched] && r.status == ExitStatus(run.outcome) &&
            r.finished == run.outcome.Returned?
    decreases |lines| - i, 0
  {
    var all := units + UnitsFrom(lines, i, prefix);
    var r := LoopFrom(lines, prompt, prompt2, exec, i, prefix, shown, units, ret);
    var unit := Separated(prefix) + lines[i];
    var rest := UnitsFrom(lines, i + 1, "");
    assert UnitsFrom(lines, i, prefix) == [unit] + rest;
    ConsAssoc(units, unit, rest);
    assert all == (units + [unit]) + rest;
    assert all[|units|] == unit;
    var o := exec(|units|, unit);
    DriveStep(all, Constantly(true), exec, |units|, ret);
    if o.Exited? {
      assert r == Session(shown, units + [unit], o.status, false);
      assert all[..|units| + 1] == units + [unit];
    } else {
      assert r == LoopFrom(lines, prompt, prompt2, exec, i + 1, "", shown + [prompt + "> "], units + [unit], o.code);
      LoopMeetsUnits(lines, prompt, prompt2, exec, i + 1, "", shown + [prompt + "> "], units + [unit], o.code);
    }
  }

  /** The prompts the loop shows are those `PromptFor` names, one per read, ending at end of input. */
  lemma {:induction false} LoopMeetsPrompts(lines: seq<string>, prompt: string, prompt2: string, exec: Dispatcher,
                                            i: nat, prefix: string, shown: seq<string>, units: seq<string>, ret: int)
    requires i <= |lines|
    requires |shown| == i + 1
    requires forall k :: 0 <= k < |shown| ==> shown[k] == PromptFor(lines, k, prompt, prompt2)
    ensures var r := LoopFrom(lines, prompt, prompt2, exec, i, prefix, shown, units, ret);
            0 < |r.shown| <= |lines| + 1 &&
            (forall k :: 0 <= k < |r.shown| ==> r.shown[k] == PromptFor(lines, k, prompt, prompt2)) &&
            (r.finished ==> |r.shown| == |lines| + 1)
    decreases |lines| - i
  {
    if i < |lines| {
      if Terminates(lines[i]) {
        var unit := Separated(prefix) + lines[i];
        if exec(|units|, unit).Returned? {
          LoopMeetsPrompts(lines, prompt, prompt2, exec, i + 1, "", shown + [prompt + "> "], units + [unit],
                           exec(|units|, unit).code);
        }
      } else {
        LoopMeetsPrompts(lines, prompt, prompt2, exec, i + 1, Separated(prefix) + lines[i], shown + [prompt2 + "> "],
                         units, ret);
      }
    }
  }

  // ---------------------------------------------------------------------------
  // Properties of the gathering
  // ---------------------------------------------------------------------------

  /** A unit built by the loop still passes the completion test. */
  lemma TerminatesAfterSeparator(p: string, l: string)
    requires p == [] || Last(p) == '\n'
    requires Terminates(l)
    ensures Terminates(p + l)
  {
    TerminatesOnTrimRight(l);
    TerminatesOnTrimRight(p + l);
    var r := TrimRight(l);
    TrimRightAppend(p, l);
    var u := p + r;
    assert TrimRight(p + l) == u;
    assert Last(u) == Last(r);
    if |u| > 1 {
      if |r| > 1 {
        assert u[|u| - 2] == r[|r| - 2];
      } else {
        assert u[|u| - 2] == Last(p);
      }
    }
  }

  /** Every unit handed to `processLine` passes the completion test. */
  lemma {:induction false} UnitsTerminate(lines: seq<string>, i: nat, prefix: string)
    requires i <= |lines|
    ensures forall k :: 0 <= k < |UnitsFrom(lines, i, prefix)| ==> Terminates(UnitsFrom(lines, i, prefix)[k])
    decreases |lines| - i
  {
    if i < |lines| {
      if Terminates(lines[i]) {
        TerminatesAfterSeparator(Separated(prefix), lines[i]);
        UnitsTerminate(lines, i + 1, "");
      } else {
        UnitsTerminate(lines, i + 1, Separated(prefix) + lines[i]);
      }
    }
  }

  /**
   * Reading more lines only adds units: those of `lines`, then those of `more`
   * continuing from what was kept.
   */
  lemma {:induction false} UnitsAppend(lines: seq<string>, more: seq<string>, i: nat, prefix: string)
    requires i <= |lines|
    ensures UnitsFrom(lines + more, i, prefix) ==
              UnitsFrom(lines, i, prefix) + UnitsFrom(lines + more, |lines|, PendingFrom(lines, i, prefix))
    decreases |lines| - i
  {
    if i < |lines| {
      assert (lines + more)[i] == lines[i];
      if Terminates(lines[i]) {
        var unit := Separated(prefix) + lines[i];
        UnitsAppend(lines, more, i + 1, "");
        var rest := UnitsFrom(lines + more, |lines|, PendingFrom(lines, i + 1, ""));
        assert UnitsFrom(lines + more, i, prefix) == [unit] + (UnitsFrom(lines, i + 1, "") + rest);
        ConsAppendAssoc(unit, UnitsFrom(lines, i + 1, ""), rest);
      } else {
        UnitsAppend(lines, more, i + 1, Separated(prefix) + lines[i]);
      }
    }
  }

  /** Text still kept at end of input is dropped: a final unterminated line sends nothing. */
  lemma UnterminatedTailIgnored(lines: seq<string>, last: string)
    requires !Terminates(last)
    ensures UnitsFrom(lines + [last], 0, "") == UnitsFrom(lines, 0, "")
  {
    UnitsAppend(lines, [last], 0, "");
    assert (lines + [last])[|lines|] == last;
  }

  // ---------------------------------------------------------------------------
  // An independent reading: a unit is the lines since the previous unit,
  // joined with newlines, with its leading empty lines lost
  // ---------------------------------------------------------------------------

  function DropLeadingEmpty(ls: seq<string>): (r: seq<string>)
    ensures r == [] || r[0] != ""
    decreases |ls|
  {
    if ls != [] && ls[0] == "" then DropLeadingEmpty(ls[1..]) else ls
  }

  /** The unit for a group of lines: an empty line before anything was kept leaves no newline behind. */
  function Gather(group: seq<string>): string {
    Join(DropLeadingEmpty(group), "\n")
  }

  /** The units by groups: each group runs up to and including a line that passes the test. */
  function UnitsByGroup(lines: seq<string>, i: nat, group: seq<string>): seq<string>
    requires i <= |lines|
    decreases |lines| - i
  {
    if i == |lines| then []
    else if Terminates(lines[i]) then [Gather(group + [lines[i]])] + UnitsByGroup(lines, i + 1, [])
    else UnitsByGroup(lines, i + 1, group + [lines[i]])
  }

  lemma {:induction false} DropLeadingEmptySnoc(ls: seq<string>, l: string)
    ensures DropLeadingEmpty(ls + [l]) ==
              if DropLeadingEmpty(ls) == [] then DropLeadingEmpty([l]) else DropLeadingEmpty(ls) + [l]
    decreases |ls|
  {
    if ls != [] {
      assert (ls + [l])[0] == ls[0];
      assert (ls + [l])[1..] == ls[1..] + [l];
      if ls[0] == "" {
        DropLeadingEmptySnoc(ls[1..], l);
      }
    } else {
      assert ls + [l] == [l];
    }
  }

  lemma {:induction false} JoinKeepsFirst(parts: seq<string>, sep: string)
    requires parts != []
    ensures |Join(parts, sep)| >= |parts[0]|
    decreases |parts|
  {
    if |parts| > 1 {
      JoinKeepsFirst(parts[..|parts| - 1], sep);
    }
  }

  /** Keeping one more line is joining it to the group. */
  lemma GatherSnoc(group: seq<string>, l: string)
    ensures Separated(Gather(group)) + l == Gather(group + [l])
  {
    var d := DropLeadingEmpty(group);
    DropLeadingEmptySnoc(group, l);
    if d == [] {
      if l == "" {
        assert DropLeadingEmpty([l]) == DropLeadingEmpty([l][1..]);
        assert [l][1..] == [];
      }
    } else {
      JoinKeepsFirst(d, "\n");
      assert Gather(group) != "";
      assert (d + [l])[..|d|] == d;
    }
  }

  /** The loop's units are the newline-joined groups. */
  lemma {:induction false} UnitsAreGroups(lines: seq<string>, i: nat, group: seq<string>)
    requires i <= |lines|
    ensures UnitsFrom(lines, i, Gather(group)) == UnitsByGroup(lines, i, group)
    decreases |lines| - i
  {
    if i < |lines| {
      GatherSnoc(group, lines[i]);
      if Terminates(lines[i]) {
        assert Gather([]) == "";
        UnitsAreGroups(lines, i + 1, []);
      } else {
        UnitsAreGroups(lines, i + 1, group + [lines[i]]);
      }
    }
  }

  /** From a fresh start the loop's units are the groups. */
  lemma UnitsFromStart(lines: seq<string>)
    ensures UnitsFrom(lines, 0, "") == UnitsByGroup(lines, 0, [])
  {
    assert Gather([]) == "";
    UnitsAreGroups(lines, 0, []);
  }
}
