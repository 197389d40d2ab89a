/**
 * The command line of `marv` (rust/src/main.rs): which action the flags
 * select, and the checks made on the input path before the action runs.
 *
 * The file system is represented by two functions: `isPresent(path)` tells
 * whether a path exists, and `canonicalize(path)` gives its absolute form,
 * or None when `std::fs::canonicalize` fails.
 */
module Cli {
  import opened RustCore
  import opened RustPath

  /** The parsed command line: the four action flags and the optional input path. */
  datatype Args = Args(start: bool, stop: bool, killAll: bool, bgServer: bool, input: Option<string>)

  /** What `main` goes on to run. */
  datatype Action =
    | KillAllServers
    | RunServer(path: string)   // the background server itself (`--bg-server`)
    | StopServer(path: string)
    | StartServer(path: string)

  datatype CliError =
    | ConflictingActions          // more than one action flag: rejected while parsing
    | InputRequired               // no input path and not `--kill-all`
    | InputMissing(path: string)  // the input does not exist
    | NoAbsolutePath(input: string)
    | NotMarkdown(path: string)   // the extension is not md, markdown or mmd

  const MARKDOWN_EXTENSIONS: set<string> := {"md", "markdown", "mmd"}

  /** How many of the action flags are set; the flags are mutually exclusive. */
  function ActionFlags(args: Args): (n: nat)
    ensures n <= 4
    ensures n == 0 <==> !args.start && !args.stop && !args.killAll && !args.bgServer
  {
    (if args.start then 1 else 0) + (if args.stop then 1 else 0)
    + (if args.killAll then 1 else 0) + (if args.bgServer then 1 else 0)
  }

  /** The extension `main` checks: that of the path's last component, or "" when it has none. */
  function ExtensionOf(path: string): string {
    match Extension(FileName(path))
    case None => ""
    case Some(ext) => ext
  }

  /**
   * `main`'s dispatch, in the order of the source: the flags, `--kill-all`,
   * the input, `--bg-server`, the absolute path, and for a start (not a
   * stop) the extension and the existence of the file.
   */
  function Dispatch(args: Args, isPresent: string -> bool, canonicalize: string -> Option<string>): Result<Action, CliError> {
    if ActionFlags(args) > 1 then Err(ConflictingActions)
    else if args.killAll then Ok(KillAllServers)
    else match args.input
      case None => Err(InputRequired)
      case Some(input) =>
        if args.bgServer then
          if !isPresent(input) then Err(InputMissing(input))
          else match canonicalize(input)
            case None => Err(NoAbsolutePath(input))
            case Some(path) => Ok(RunServer(path))
        else match canonicalize(input)
          case None => Err(NoAbsolutePath(input))
          case Some(path) =>
            if !args.stop && ExtensionOf(path) !in MARKDOWN_EXTENSIONS then Err(NotMarkdown(path))
            else if !args.stop && !isPresent(path) then Err(InputMissing(path))
            else if args.stop then Ok(StopServer(path))
            else Ok(StartServer(path))
  }

  /** Every accepted command line sets at most one action flag. */
  lemma AcceptedHasOneAction(args: Args, isPresent: string -> bool, canonicalize: string -> Option<string>)
    ensures Dispatch(args, isPresent, canonicalize).Ok? ==> ActionFlags(args) <= 1
  {
  }

  /** `--kill-all` alone needs no input, and whatever the input it kills all servers. */
  lemma KillAllNeedsNoInput(args: Args, isPresent: string -> bool, canonicalize: string -> Option<string>)
    requires args.killAll && !args.start && !args.stop && !args.bgServer
    ensures Dispatch(args, isPresent, canonicalize) == Ok(KillAllServers)
  {
  }

  /** Every action other than `--kill-all` requires an input path. */
  lemma OtherActionsNeedInput(args: Args, isPresent: string -> bool, canonicalize: string -> Option<string>)
    requires !args.killAll && args.input.None?
    ensures Dispatch(args, isPresent, canonicalize).Err?
  {
  }

  /**
   * `--bg-server` runs the server for the absolute path of an input that
   * exists, whatever its extension, and for no other input.
   */
  lemma BackgroundServer(args: Args, isPresent: string -> bool, canonicalize: string -> Option<string>, path: string)
    requires args.bgServer && ActionFlags(args) == 1
    ensures Dispatch(args, isPresent, canonicalize) == Ok(RunServer(path)) <==>
      args.input.Some? && isPresent(args.input.value) && canonicalize(args.input.value) == Some(path)
  {
  }

  /**
   * A start is dispatched exactly when no other action is asked for, the
   * input has an absolute path, its extension is exactly md, markdown or mmd
   * (letter case counts) and the file exists.
   */
  lemma StartAccepted(args: Args, isPresent: string -> bool, canonicalize: string -> Option<string>, path: string)
    ensures Dispatch(args, isPresent, canonicalize) == Ok(StartServer(path)) <==>
      && !args.stop && !args.killAll && !args.bgServer
      && args.input.Some? && canonicalize(args.input.value) == Some(path)
      && ExtensionOf(path) in MARKDOWN_EXTENSIONS && isPresent(path)
  {
  }

  /**
   * A stop is dispatched exactly when `--stop` is the only action and the
   * input has an absolute path: neither its extension nor its existence is
   * checked.
   */
  lemma StopAccepted(args: Args, isPresent: string -> bool, canonicalize: string -> Option<string>, path: string)
    ensures Dispatch(args, isPresent, canonicalize) == Ok(StopServer(path)) <==>
      && args.stop && ActionFlags(args) == 1
      && args.input.Some? && canonicalize(args.input.value) == Some(path)
  {
  }

  /** A start with a file whose extension is not on the list is refused, before its existence is checked. */
  lemma StartRejectsOtherExtensions(args: Args, isPresent: string -> bool, canonicalize: string -> Option<string>, path: string)
    requires ActionFlags(args) <= 1 && !args.stop && !args.killAll && !args.bgServer
    requires args.input.Some? && canonicalize(args.input.value) == Some(path)
    requires ExtensionOf(path) !in MARKDOWN_EXTENSIONS
    ensures Dispatch(args, isPresent, canonicalize) == Err(NotMarkdown(path))
  {
  }

  /**
   * The extension check is case-sensitive and looks only at the last
   * component: `<dir>/<stem>.MD` is refused where `<dir>/<stem>.md` is not.
   */
  lemma ExtensionCaseSensitive(dir: string, stem: string)
    requires stem != [] && '/' !in stem && '.' !in stem
    ensures ExtensionOf(dir + "/" + stem + ".md") in MARKDOWN_EXTENSIONS
    ensures ExtensionOf(dir + "/" + stem + ".MD") !in MARKDOWN_EXTENSIONS
  {
    hide ExtensionOf;
    ExtensionOfJoined(dir, stem, "md");
    ExtensionOfJoined(dir, stem, "MD");
    assert dir + "/" + stem + "." + "md" == dir + "/" + stem + ".md";
    assert dir + "/" + stem + "." + "MD" == dir + "/" + stem + ".MD";
  }

  /** The extension checked for `<dir>/<stem>.<ext>` is `ext`. */
  lemma ExtensionOfJoined(dir: string, stem: string, ext: string)
    requires stem != [] && '/' !in stem && '.' !in ext && '/' !in ext
    ensures ExtensionOf(dir + "/" + stem + "." + ext) == ext
  {
    var name := stem + "." + ext;
    assert '/' !in name by {
      assert forall i :: 0 <= i < |name| ==> name[i] == (if i < |stem| then stem[i] else if i == |stem| then '.' else ext[i - |stem| - 1]);
    }
    LastComponent(dir, name);
    JoinedName(stem, ext);
    assert dir + "/" + stem + "." + ext == dir + "/" + name;
  }

  /** The last component of a path is what follows its last slash. */
  lemma LastComponent(dir: string, name: string)
    requires '/' !in name
    ensures FileName(dir + "/" + name) == name
  {
    var path := dir + "/" + name;
    assert path[|dir|] == '/';
    assert forall j :: |dir| < j < |path| ==> path[j] == name[j - |dir| - 1];
    assert path[|dir| + 1..] == name;
  }
}
