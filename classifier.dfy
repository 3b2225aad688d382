/**
 * The first half of `CliDriver.processCmd`: taking a statement apart and
 * deciding which branch handles it, plus the branches that the driver handles
 * itself (`quit`/`exit`, `source`, `!` and `list`).
 */
module Classifier {
  import opened Core
  import opened JavaText

  // ---------------------------------------------------------------------------
  // Taking the statement apart
  // ---------------------------------------------------------------------------

  lemma TrimmedStartsWithWord(cmd: string)
    ensures var t := Trim(cmd); t == [] || !IsRegexSpace(t[0])
  {
    var t := Trim(cmd);
    if t != [] {
      RegexSpaceIsTrimmable(t[0]);
    }
  }

  /**
   * `tokens`: the trimmed statement split on `\s+`. The first token is the first
   * word of the trimmed statement: it starts it, holds no space, and is followed
   * by a space or by the end.
   */
  function Tokens(cmd: string): (r: seq<string>)
    ensures |r| >= 1 && r[0] <= Trim(cmd)
    ensures Trim(cmd) != [] ==> r[0] != []
    ensures var t := Trim(cmd); NoSpace(r[0]) && (|r[0]| == |t| || IsRegexSpace(t[|r[0]|]))
  {
    TrimmedStartsWithWord(cmd);
    WordsFirstIsLeadingRun(Trim(cmd));
    Words(Trim(cmd))
  }

  /** No token holds a whitespace character. */
  lemma TokensHaveNoSpace(cmd: string)
    ensures forall i :: 0 <= i < |Tokens(cmd)| ==> NoSpace(Tokens(cmd)[i])
  {
    var w := Words(Trim(cmd));
    assert Tokens(cmd) == w;
    assert forall i :: 0 <= i < |w| ==> NoSpace(w[i]);
  }

  /** `cmd_1`: what follows the first token, trimmed. */
  function Argument(cmd: string): string {
    Trim(Trim(cmd)[|Tokens(cmd)[0]|..])
  }

  /** The first token is the leading run of the trimmed statement. */
  lemma FirstTokenIsLeadingRun(cmd: string)
    ensures Tokens(cmd)[0] == LeadingRun(Trim(cmd))
  {
    LeadingRunUnique(Trim(cmd), Tokens(cmd)[0]);
  }

  /** A word, a run of spaces and a rest that starts and ends with a kept character. */
  lemma SplitAtFirstGap(t: string, word: string, gap: string, rest: string)
    requires t == word + gap + rest
    requires NoSpace(word)
    requires gap != [] && forall k :: 0 <= k < |gap| ==> IsRegexSpace(gap[k])
    requires rest != [] && !IsTrimmable(rest[0]) && !IsTrimmable(Last(rest))
    ensures LeadingRun(t) == word
    ensures Trim(t[|word|..]) == rest
  {
    assert t[|word|] == gap[0];
    assert word <= t;
    LeadingRunUnique(t, word);
    assert t[|word|..] == gap + rest + [];
    forall k | 0 <= k < |gap|
      ensures IsTrimmable(gap[k])
    {
      RegexSpaceIsTrimmable(gap[k]);
    }
    TrimEnds(gap, rest, []);
  }

  /**
   * A trimmed statement made of a word, a run of spaces and a rest that starts
   * and ends with a kept character has the word as first token and the rest as
   * argument.
   */
  lemma WordAndArgument(cmd: string, word: string, gap: string, rest: string)
    requires Trim(cmd) == word + gap + rest
    requires NoSpace(word)
    requires gap != [] && forall k :: 0 <= k < |gap| ==> IsRegexSpace(gap[k])
    requires rest != [] && !IsTrimmable(rest[0]) && !IsTrimmable(Last(rest))
    ensures Tokens(cmd)[0] == word
    ensures Argument(cmd) == rest
  {
    FirstTokenIsLeadingRun(cmd);
    SplitAtFirstGap(Trim(cmd), word, gap, rest);
  }

  /** A first word that lower-cases to `source` makes a `source` statement. */
  lemma SourceWord(cmd: string, word: string, gap: string, path: string)
    requires Trim(cmd) == word + gap + path
    requires NoSpace(word) && EqualsIgnoreCase(word, "source")
    requires gap != [] && forall k :: 0 <= k < |gap| ==> IsRegexSpace(gap[k])
    requires path != [] && !IsTrimmable(path[0]) && !IsTrimmable(Last(path))
    ensures !IsQuit(cmd) && IsSource(cmd) && Argument(cmd) == path
  {
    WordAndArgument(cmd, word, gap, path);
    var l := Lower(Trim(cmd));
    assert |word| == 6 by {
      assert |Lower(word)| == |word|;
    }
    assert |l| == |Trim(cmd)| > 4;
    assert l != "quit" && l != "exit";
  }

  /**
   * `source` followed by a path reads that path, whatever the case of the word
   * and the white space around the path: `  source  x.sql ` reads `x.sql`.
   */
  lemma SourcePath(cmd: string, word: string, gap: string, path: string, remote: bool, sampling: bool)
    requires Trim(cmd) == word + gap + path
    requires NoSpace(word) && EqualsIgnoreCase(word, "source")
    requires gap != [] && forall k :: 0 <= k < |gap| ==> IsRegexSpace(gap[k])
    requires path != [] && !IsTrimmable(path[0]) && !IsTrimmable(Last(path))
    ensures Classify(cmd, remote, sampling) == Source(path)
  {
    SourceWord(cmd, word, gap, path);
  }

  /** The same with the end white space spelled out: the statement `lead + word + gap + path + tail`. */
  lemma SourceStatementPath(lead: string, word: string, gap: string, path: string, tail: string, remote: bool, sampling: bool)
    requires forall k :: 0 <= k < |lead| ==> IsTrimmable(lead[k])
    requires forall k :: 0 <= k < |tail| ==> IsTrimmable(tail[k])
    requires NoSpace(word) && EqualsIgnoreCase(word, "source")
    requires gap != [] && forall k :: 0 <= k < |gap| ==> IsRegexSpace(gap[k])
    requires path != [] && !IsTrimmable(path[0]) && !IsTrimmable(Last(path))
    ensures Classify(lead + word + gap + path + tail, remote, sampling) == Source(path)
  {
    var core := word + gap + path;
    assert |Lower(word)| == |word| == 6;
    assert Lower(word)[0] == 's';
    assert core[0] == word[0] && Last(core) == Last(path);
    assert lead + word + gap + path + tail == lead + core + tail;
    TrimEnds(lead, core, tail);
    SourcePath(lead + core + tail, word, gap, path, remote, sampling);
  }

  /** Which branch of `processCmd` handles a statement, with what it hands on. */
  datatype Action =
    | Quit
    | Source(path: string)
    | Shell(commandLine: string)
    | ListResources(tokens: seq<string>)
    | Remote(statement: string)
    | BiasSample(statement: string)
    | Local(statement: string)

  /** The whole trimmed statement is `quit` or `exit`, ignoring case. */
  predicate IsQuit(cmd: string) {
    Lower(Trim(cmd)) == "quit" || Lower(Trim(cmd)) == "exit"
  }

  predicate IsSource(cmd: string) {
    EqualsIgnoreCase(Tokens(cmd)[0], "source")
  }

  predicate IsShell(cmd: string) {
    StartsWith(Trim(cmd), "!")
  }

  predicate IsList(cmd: string) {
    Lower(Tokens(cmd)[0]) == "list"
  }

  /** The sampling extension's marker, looked for in the untrimmed statement. */
  predicate HasBiasMarker(cmd: string) {
    Contains(Lower(cmd), "bias on")
  }

  /**
   * The branch `processCmd` takes. The tests are made in this order: the whole
   * statement against `quit`/`exit`, the first token against `source`, a leading
   * `!`, the first token against `list`; after these the session mode decides,
   * and in local mode the sampling extension claims the statements carrying its
   * marker. The remote branch gets the trimmed statement, the local ones the
   * statement as it came.
   */
  function Classify(cmd: string, remoteMode: bool, samplingEnabled: bool): (a: Action)
    ensures a.Quit? <==> IsQuit(cmd)
    ensures a.Source? <==> !IsQuit(cmd) && IsSource(cmd)
    ensures a.Shell? <==> !IsQuit(cmd) && !IsSource(cmd) && IsShell(cmd)
    ensures a.ListResources? <==> !IsQuit(cmd) && !IsSource(cmd) && !IsShell(cmd) && IsList(cmd)
    ensures a.Remote? <==> !IsQuit(cmd) && !IsSource(cmd) && !IsShell(cmd) && !IsList(cmd) && remoteMode
    ensures a.BiasSample? <==> !IsQuit(cmd) && !IsSource(cmd) && !IsShell(cmd) && !IsList(cmd) &&
                               !remoteMode && samplingEnabled && HasBiasMarker(cmd)
    ensures a.Source? ==> a.path == Argument(cmd)
    ensures a.Shell? ==> "!" + a.commandLine == Trim(cmd)
    ensures a.ListResources? ==> a.tokens == Tokens(cmd)
    ensures a.Remote? ==> a.statement == Trim(cmd)
    ensures a.BiasSample? || a.Local? ==> a.statement == cmd
  {
    var t := Trim(cmd);
    if IsQuit(cmd) then Quit
    else if IsSource(cmd) then Source(Argument(cmd))
    else if IsShell(cmd) then
      assert "!" + t[1..] == t;
      Shell(t[1..])
    else if IsList(cmd) then ListResources(Tokens(cmd))
    else if remoteMode then Remote(t)
    else if samplingEnabled && HasBiasMarker(cmd) then BiasSample(cmd)
    else Local(cmd)
  }

  // ---------------------------------------------------------------------------
  // Properties of the classification
  // ---------------------------------------------------------------------------

  /** The built-in commands are recognised the same way whatever the session mode. */
  lemma BuiltinsIgnoreMode(cmd: string, remote1: bool, sampling1: bool, remote2: bool, sampling2: bool)
    requires var a := Classify(cmd, remote1, sampling1); a.Quit? || a.Source? || a.Shell? || a.ListResources?
    ensures Classify(cmd, remote1, sampling1) == Classify(cmd, remote2, sampling2)
  {
  }

  /** What is not a built-in goes to the remote server, trimmed, or stays local, untrimmed. */
  lemma FallbackFollowsMode(cmd: string, sampling: bool)
    requires !IsQuit(cmd) && !IsSource(cmd) && !IsShell(cmd) && !IsList(cmd)
    ensures Classify(cmd, true, sampling) == Remote(Trim(cmd))
    ensures Classify(cmd, false, sampling) ==
            if sampling && HasBiasMarker(cmd) then BiasSample(cmd) else Local(cmd)
  {
  }

  /** Lower-casing keeps a leading `!`, so the result is none of the command words. */
  lemma LowerOfBang(s: string)
    requires |s| > 0 && s[0] == '!'
    ensures Lower(s) != "quit" && Lower(s) != "exit" && Lower(s) != "source" && Lower(s) != "list"
  {
    var l := Lower(s);
    assert l[0] == '!';
    assert l[0] != "quit"[0] && l[0] != "exit"[0] && l[0] != "source"[0] && l[0] != "list"[0];
  }

  /** A statement starting with `!` is neither `quit`/`exit` nor `source`. */
  lemma BangIsNotQuitOrSource(cmd: string)
    requires StartsWith(Trim(cmd), "!")
    ensures !IsQuit(cmd) && !IsSource(cmd)
  {
    var t := Trim(cmd);
    assert t[0] == '!';
    LowerOfBang(t);
    var tok := Tokens(cmd)[0];
    assert tok != [] && tok <= t;
    assert tok[0] == '!';
    assert Lower(tok)[0] == '!';
    assert Lower("source")[0] == 's';
    assert Lower(tok)[0] != Lower("source")[0];
  }

  /** A statement starting with `!` always goes to the shell, with the `!` removed. */
  lemma BangRunsShell(cmd: string, remote: bool, sampling: bool)
    requires StartsWith(Trim(cmd), "!")
    ensures Classify(cmd, remote, sampling) == Shell(Trim(cmd)[1..])
  {
    BangIsNotQuitOrSource(cmd);
    var a := Classify(cmd, remote, sampling);
    assert a.Shell? && "!" + a.commandLine == Trim(cmd);
    assert ("!" + a.commandLine)[1..] == a.commandLine;
  }

  /** The letters of a word that lower-cases to `w`, for a `w` made of lower-case letters. */
  lemma LowerIsLetters(s: string, w: string)
    requires Lower(s) == w
    requires forall i :: 0 <= i < |w| ==> 'a' <= w[i] <= 'z'
    ensures NoSpace(s)
  {
    forall i | 0 <= i < |s|
      ensures !IsRegexSpace(s[i])
    {
      assert LowerChar(s[i]) == w[i];
    }
  }

  /** A word that lower-cases to `quit` or `exit` holds no whitespace. */
  lemma QuitWordHasNoSpace(t: string)
    requires Lower(t) == "quit" || Lower(t) == "exit"
    ensures NoSpace(t)
  {
    var w := Lower(t);
    assert forall i :: 0 <= i < |w| ==> 'a' <= w[i] <= 'z';
    LowerIsLetters(t, w);
  }

  /** `quit` and `exit` are recognised only as the whole statement: with anything after them they are not. */
  lemma QuitIsWholeStatement(cmd: string)
    requires IsQuit(cmd)
    ensures Tokens(cmd) == [Trim(cmd)]
    ensures Argument(cmd) == []
  {
    var t := Trim(cmd);
    QuitWordHasNoSpace(t);
    assert Words(t) == [t];
    assert t[|t|..] == [];
  }

  /** A first token `list` is neither `source` nor the start of a `!` command. */
  lemma ListIsNotSourceOrShell(cmd: string)
    requires IsList(cmd)
    ensures !IsSource(cmd) && !IsShell(cmd)
  {
    var t := Trim(cmd);
    var tok := Tokens(cmd)[0];
    assert Lower(tok)[0] == 'l';
    assert Lower("source")[0] == 's';
    assert Lower(tok)[0] != Lower("source")[0];
    assert tok != [] && tok <= t;
    assert LowerChar(t[0]) == 'l';
  }

  /** A statement whose first token is `list` is not `quit` or `exit`. */
  lemma ListIsNotQuit(cmd: string)
    requires IsList(cmd)
    ensures !IsQuit(cmd)
  {
    if IsQuit(cmd) {
      QuitIsWholeStatement(cmd);
      assert false;
    }
  }

  /** A first token `list`, in any case, is the `list` command, whatever follows it. */
  lemma ListWordRunsList(cmd: string, remote: bool, sampling: bool)
    requires IsList(cmd)
    ensures Classify(cmd, remote, sampling) == ListResources(Tokens(cmd))
  {
    ListIsNotQuit(cmd);
    ListIsNotSourceOrShell(cmd);
    var a := Classify(cmd, remote, sampling);
    assert a.ListResources?;
  }

  // ---------------------------------------------------------------------------
  // The `list` command
  // ---------------------------------------------------------------------------

  /** The usage line printed for a `list` command without a known resource type. */
  function ListUsage(typeNames: seq<string>): string {
    "Usage: list [" + Join(typeNames, "|") + "] [<value> [<value>]*]"
  }

  /**
   * `System.arraycopy(tokens, 2, tokens, 0, tokens.length - 2)`: every element
   * moves two places to the left; the last two places keep what they held.
   */
  function ShiftedLeftTwo(t: seq<string>): seq<string>
    requires |t| >= 2
  {
    t[2..] + t[|t| - 2..]
  }

  /** The in-place copy, on the token array itself. */
  method ShiftLeftTwo(a: array<string>)
    requires a.Length >= 2
    modifies a
    ensures a[..] == ShiftedLeftTwo(old(a[..]))
  {
    forall i | 0 <= i < a.Length - 2 {
      a[i] := a[i + 2];
    }
  }

  /**
   * The filter handed to the resource listing keeps the array's length: the
   * values come first, and the last two tokens are repeated after them, so with
   * exactly one value the resource-type token is part of the filter.
   */
  lemma ShiftedFilterShape(t: seq<string>)
    requires |t| >= 3
    ensures |ShiftedLeftTwo(t)| == |t|
    ensures ShiftedLeftTwo(t)[..|t| - 2] == t[2..]
    ensures (set x | x in ShiftedLeftTwo(t)) == (set x | x in t[2..]) + (if |t| == 3 then {t[1]} else {})
  {
    var r := ShiftedLeftTwo(t);
    assert r[..|t| - 2] == t[2..];
    if |t| == 3 {
      assert r == [t[2], t[1], t[2]];
    } else {
      assert t[|t| - 2..] == [t[|t| - 2], t[|t| - 1]];
      assert t[|t| - 2] in t[2..] && t[|t| - 1] in t[2..];
    }
  }

  /** The `list` command with one value: `list jar x.jar` filters on `x.jar`, `jar` and `x.jar`. */
  lemma ListOneValueFilter(kind: string, value: string)
    ensures ShiftedLeftTwo(["list", kind, value]) == [value, kind, value]
  {
  }

  /**
   * `find_resource_type` and `list_resource` of the session, which the model
   * does not look into: the first maps a token to the name of a resource type,
   * the second lists the session's resources of a type, maybe filtered.
   */
  datatype ResourceCatalog = ResourceCatalog(
    typeNames: seq<string>,
    findType: string -> Option<string>,
    listResource: (string, Option<seq<string>>) -> Option<seq<string>>)

  /** What the `list` branch does, given the filter the in-place copy produced. */
  function ListSpec(tokens: seq<string>, catalog: ResourceCatalog): (r: Response)
    ensures (|tokens| < 2 || catalog.findType(tokens[1]).None?) <==> r.outcome == Returned(1)
    ensures r.outcome == Returned(1) ==> r.out == [] && r.err == [ListUsage(catalog.typeNames)]
    ensures r.outcome != Returned(1) ==> r.outcome == Returned(0) && r.err == [] && |r.out| <= 1
  {
    if |tokens| < 2 || catalog.findType(tokens[1]).None? then
      Response(Returned(1), [], [ListUsage(catalog.typeNames)])
    else
      var filter := if |tokens| >= 3 then Some(ShiftedLeftTwo(tokens)) else None;
      var s := catalog.listResource(catalog.findType(tokens[1]).value, filter);
      Response(Returned(0), if s.Some? && s.value != [] then [Join(s.value, "\n")] else [], [])
  }

  /** The `list` branch, with the filter built on the token array in place. */
  method ListCommand(tokens: seq<string>, catalog: ResourceCatalog) returns (r: Response)
    ensures r == ListSpec(tokens, catalog)
  {
    var kind: Option<string> := None;
    if |tokens| >= 2 {
      kind := catalog.findType(tokens[1]);
    }
    if kind.None? {
      r := Response(Returned(1), [], [ListUsage(catalog.typeNames)]);
      return;
    }
    var filter: Option<seq<string>> := None;
    if |tokens| >= 3 {
      var a := new string[|tokens|](i requires 0 <= i < |tokens| => tokens[i]);
      assert a[..] == tokens;
      ShiftLeftTwo(a);
      filter := Some(a[..]);
    }
    var s := catalog.listResource(kind.value, filter);
    var out: seq<string> := [];
    if s.Some? && s.value != [] {
      out := [Join(s.value, "\n")];
    }
    r := Response(Returned(0), out, []);
  }

  /**
   * A known resource type whose listing is missing or empty prints nothing and
   * answers 0: `list jar` with no jar registered. Two tokens ask for the whole
   * listing, more ask for it filtered by the shifted token array.
   */
  lemma ListEmptyPrintsNothing(tokens: seq<string>, catalog: ResourceCatalog)
    requires |tokens| >= 2 && catalog.findType(tokens[1]).Some?
    requires var s := catalog.listResource(catalog.findType(tokens[1]).value,
                                            if |tokens| >= 3 then Some(ShiftedLeftTwo(tokens)) else None);
             s.None? || s.value == []
    ensures ListSpec(tokens, catalog) == Response(Returned(0), [], [])
  {
  }

  /**
   * A nonempty listing is printed as one line, its entries joined by newlines,
   * with nothing on the error stream; the listing is the one asked for with no
   * filter for two tokens and with the shifted token array for more. When no
   * entry holds a newline, the printed text splits back into the entries.
   */
  lemma ListPrintsListing(tokens: seq<string>, catalog: ResourceCatalog, entries: seq<string>)
    requires |tokens| >= 2 && catalog.findType(tokens[1]).Some?
    requires catalog.listResource(catalog.findType(tokens[1]).value,
                                  if |tokens| >= 3 then Some(ShiftedLeftTwo(tokens)) else None) == Some(entries)
    requires entries != []
    ensures ListSpec(tokens, catalog) == Response(Returned(0), [Join(entries, "\n")], [])
    ensures (forall i :: 0 <= i < |entries| ==> '\n' !in entries[i]) ==>
            SplitAll(ListSpec(tokens, catalog).out[0], '\n') == entries
  {
    if forall i :: 0 <= i < |entries| ==> '\n' !in entries[i] {
      assert "\n" == ['\n'];
      SplitAllJoin(entries, '\n');
    }
  }

  // ---------------------------------------------------------------------------
  // `source` and `!`
  // ---------------------------------------------------------------------------

  /** What `processFile` does with a script: its `processLine` outcome, or an `IOException` message. */
  datatype FileRun = Processed(outcome: Outcome) | ReadFailed(message: string)

  /** What running a shell command gives: its exit code, or the message of the exception `exec` raised. */
  datatype ShellRun = Finished(exitCode: int) | Raised(message: string)

  /**
   * The `source` branch. A path that is not a file is an error with code 1; the
   * code the script itself returns is dropped, so a script that runs gives 0
   * unless it ends the process; a read failure gives 1.
   */
  function SourceSpec(path: string, isFile: string -> bool, processFile: string -> FileRun): (r: Response)
    ensures r.out == []
    ensures !isFile(path) ==> r == Response(Returned(1), [], ["File: " + path + " is not a file."])
    ensures isFile(path) && processFile(path).Processed? ==>
            r.err == [] && r.outcome == (if processFile(path).outcome.Exited? then processFile(path).outcome else Returned(0))
    ensures isFile(path) && processFile(path).ReadFailed? ==>
            r == Response(Returned(1), [], ["Failed processing file " + path + " " + processFile(path).message])
  {
    if !isFile(path) then Response(Returned(1), [], ["File: " + path + " is not a file."])
    else match processFile(path)
      case Processed(o) => Response(if o.Exited? then o else Returned(0), [], [])
      case ReadFailed(m) => Response(Returned(1), [], ["Failed processing file " + path + " " + m])
  }

  /** The `!` branch: the exit code of the command, reported when nonzero; 1 when it could not run. */
  function ShellSpec(run: ShellRun): (r: Response)
    ensures r.out == []
    ensures run.Finished? ==> r.outcome == Returned(run.exitCode)
    ensures run.Finished? ==> (r.err == [] <==> run.exitCode == 0)
    ensures run.Finished? && run.exitCode != 0 ==> r.err == ["Command failed with exit code = " + IntToString(run.exitCode)]
    ensures run.Raised? ==> r == Response(Returned(1), [], ["Exception raised from Shell command " + run.message])
  {
    match run
    case Finished(c) =>
      Response(Returned(c), [], if c != 0 then ["Command failed with exit code = " + IntToString(c)] else [])
    case Raised(m) => Response(Returned(1), [], ["Exception raised from Shell command " + m])
  }
}
