/**
 * `CliDriver.processCmd` as a whole: the statement is classified, and the
 * branch that the classification picks produces the response.  Everything the
 * branches consult outside the driver (the file system, the shell, the resource
 * catalog, the Hive server, the in-process engine) is part of the context.
 */
module Commands {
  import opened Core
  import opened JavaText
  import opened Classifier
  import RemoteMode
  import LocalMode

  /** The session mode and the answers of everything `processCmd` calls out to. */
  datatype Context = Context(
    remoteMode: bool,
    settings: LocalMode.Settings,
    isFile: string -> bool,
    processFile: string -> FileRun,
    shell: string -> ShellRun,
    catalog: ResourceCatalog,
    server: string -> RemoteMode.Server,
    engine: string -> LocalMode.Engine)

  /** The execution flag with which an ordinary local statement is run. */
  const PlainFlag := -1

  /** The branch that handles the action, run against the context. */
  function Respond(a: Action, ctx: Context): Option<Response> {
    match a
    case Quit => Some(Response(Exited(0), [], []))
    case Source(path) => Some(SourceSpec(path, ctx.isFile, ctx.processFile))
    case Shell(commandLine) => Some(ShellSpec(ctx.shell(commandLine)))
    case ListResources(tokens) => Some(ListSpec(tokens, ctx.catalog))
    case Remote(statement) => Some(RemoteMode.RemoteSpec(ctx.server(statement)))
    case BiasSample(_) => None
    case Local(statement) => Some(LocalMode.LocalSpec(statement, PlainFlag, ctx.settings, ctx.engine(statement)).response)
  }

  /**
   * `processCmd(cmd)`. `None` for a sampling statement with `bias on`, whose
   * rewriting and runs are modelled only in part (see the sampling module).
   */
  function ProcessCmd(cmd: string, ctx: Context): (r: Option<Response>)
    ensures r.None? <==> Classify(cmd, ctx.remoteMode, ctx.settings.samplingEnabled).BiasSample?
    ensures IsQuit(cmd) ==> r == Some(Response(Exited(0), [], []))
  {
    Respond(Classify(cmd, ctx.remoteMode, ctx.settings.samplingEnabled), ctx)
  }

  /** Of the branches, only `quit` and `source` can end the process, `source` only when the script did. */
  lemma ExitingBranches(a: Action, ctx: Context)
    requires Respond(a, ctx).Some? && Respond(a, ctx).value.outcome.Exited?
    ensures a.Quit? || (a.Source? && ctx.isFile(a.path) && ctx.processFile(a.path) == Processed(Respond(a, ctx).value.outcome))
  {
    match a
    case Quit =>
    case Source(path) =>
    case Shell(commandLine) => ShellNeverExits(ctx.shell(commandLine));
    case ListResources(tokens) =>
    case Remote(statement) => RemoteNeverExits(ctx.server(statement));
    case BiasSample(_) =>
    case Local(statement) => LocalNeverExits(statement, ctx.settings, ctx.engine(statement));
  }

  /** The built-in commands behave the same whether the session talks to a server or not. */
  lemma BuiltinsIgnoreRemoteMode(cmd: string, ctx: Context)
    requires IsQuit(cmd) || IsSource(cmd) || IsShell(cmd) || IsList(cmd)
    ensures ProcessCmd(cmd, ctx) == ProcessCmd(cmd, ctx.(remoteMode := !ctx.remoteMode))
    ensures ProcessCmd(cmd, ctx).Some?
  {
    BuiltinsIgnoreMode(cmd, ctx.remoteMode, ctx.settings.samplingEnabled, !ctx.remoteMode, ctx.settings.samplingEnabled);
  }

  /**
   * Only `quit`/`exit` and a sourced script that itself ends the process make
   * `processCmd` end it; every other branch returns a code.
   */
  lemma OnlyQuitOrScriptExits(cmd: string, ctx: Context)
    requires ProcessCmd(cmd, ctx).Some? && ProcessCmd(cmd, ctx).value.outcome.Exited?
    ensures IsQuit(cmd) ||
            (IsSource(cmd) && ctx.isFile(Argument(cmd)) &&
             ctx.processFile(Argument(cmd)) == Processed(ProcessCmd(cmd, ctx).value.outcome))
  {
    ExitingBranches(Classify(cmd, ctx.remoteMode, ctx.settings.samplingEnabled), ctx);
  }

  lemma ShellNeverExits(run: ShellRun)
    ensures ShellSpec(run).outcome.Returned?
  {
  }

  lemma RemoteNeverExits(server: RemoteMode.Server)
    ensures RemoteMode.RemoteSpec(server).outcome.Returned?
  {
  }

  lemma LocalNeverExits(cmd: string, settings: LocalMode.Settings, engine: LocalMode.Engine)
    ensures LocalMode.LocalSpec(cmd, PlainFlag, settings, engine).response.outcome.Returned?
  {
  }

  /**
   * In remote mode a statement that is not built in goes to the server trimmed,
   * and the server's answer alone decides the response.
   */
  lemma RemoteGetsTrimmedStatement(cmd: string, ctx: Context)
    requires ctx.remoteMode
    requires !IsQuit(cmd) && !IsSource(cmd) && !IsShell(cmd) && !IsList(cmd)
    ensures ProcessCmd(cmd, ctx) == Some(RemoteMode.RemoteSpec(ctx.server(Trim(cmd))))
  {
  }

  /**
   * In local mode a statement that is neither built in nor a `bias on` sample
   * goes to the engine as typed, with the plain execution flag.
   */
  lemma LocalGetsStatementAsTyped(cmd: string, ctx: Context)
    requires !ctx.remoteMode
    requires !IsQuit(cmd) && !IsSource(cmd) && !IsShell(cmd) && !IsList(cmd)
    requires !(ctx.settings.samplingEnabled && HasBiasMarker(cmd))
    ensures ProcessCmd(cmd, ctx) == Some(LocalMode.LocalSpec(cmd, PlainFlag, ctx.settings, ctx.engine(cmd)).response)
  {
  }
}
