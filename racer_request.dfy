/**
 * One racer call (`run_racer`): the temporary snapshot path, the command
 * line, the `RUST_SRC_PATH` environment value and the parse of the child's
 * output. The platform path functions and the child process itself are
 * parameters: what they do is not part of this model.
 */
module RacerRequest {
  import opened Text
  import opened RacerOutput

  /** `os.path.expanduser`, `os.path.dirname`, `os.path.join` and `os.path.basename`. */
  datatype PathOps = PathOps(
    expandUser: string -> string,
    dirname: string -> string,
    join: (string, string) -> string,
    basename: string -> string)

  /** The plugin settings: the racer executable and the extra source search paths. */
  datatype Settings = Settings(racerBin: string, searchPaths: seq<string>)

  /** What starting racer gives back: no executable at all, or an exit code and the output lines. */
  datatype Child = NotFound | Exited(exitCode: int, output: seq<string>)

  /** The child process, as a function of its command line and its environment. */
  type Racer = (seq<string>, map<string, string>) -> Child

  const TempFileName: string := "current.racertmp"
  const SrcPathVar: string := "RUST_SRC_PATH"
  const PathListSep: char := ':'

  /** The snapshot file racer reads: `current.racertmp` beside the edited file. */
  function TempPath(ops: PathOps, fileName: string): string {
    ops.join(ops.dirname(fileName), TempFileName)
  }

  /** `expand_all`: every search path with `~` expanded, in order. */
  function ExpandAll(ops: PathOps, paths: seq<string>): (r: seq<string>)
    ensures |r| == |paths|
    ensures forall j :: 0 <= j < |paths| ==> r[j] == ops.expandUser(paths[j])
  {
    seq(|paths|, j requires 0 <= j < |paths| => ops.expandUser(paths[j]))
  }

  /** The value given to `RUST_SRC_PATH`: the expanded search paths joined by `:`. */
  function SrcPathValue(ops: PathOps, paths: seq<string>): string {
    JoinWith(ExpandAll(ops, paths), PathListSep)
  }

  /**
   * The child's environment: a copy of the plugin's own with `RUST_SRC_PATH`
   * set to the search-path value, replacing any value it had.
   */
  function LaunchEnv(environ: map<string, string>, ops: PathOps, paths: seq<string>): (env: map<string, string>)
    ensures env.Keys == environ.Keys + {SrcPathVar}
    ensures env[SrcPathVar] == SrcPathValue(ops, paths)
    ensures forall k :: k in environ && k != SrcPathVar ==> env[k] == environ[k]
  {
    environ[SrcPathVar := SrcPathValue(ops, paths)]
  }

  /** The command line racer is started with: the executable, the request arguments, the snapshot. */
  function Argv(racerBin: string, args: seq<string>, tempPath: string): (argv: seq<string>)
    ensures |argv| == |args| + 2
    ensures argv[0] == racerBin && argv[|argv| - 1] == tempPath
    ensures argv[1..|argv| - 1] == args
  {
    [racerBin] + args + [tempPath]
  }

  /** The caller's argument list, a Python list that `run_racer` changes in place. */
  class ArgList {
    var items: seq<string>

    constructor (items: seq<string>)
      ensures this.items == items
    {
      this.items := items;
    }

    /** `list.insert(index, x)`: an index past the end appends. */
    method Insert(index: nat, x: string)
      modifies this
      ensures var k := if index <= |old(items)| then index else |old(items)|;
        items == old(items)[..k] + [x] + old(items)[k..]
    {
      var k := if index <= |items| then index else |items|;
      items := items[..k] + [x] + items[k..];
    }

    /** `list.append(x)`. */
    method Append(x: string)
      modifies this
      ensures items == old(items) + [x]
    {
      items := items + [x];
    }
  }

  /** What one racer call returns, given the request arguments. */
  function RacerOutcome(settings: Settings, ops: PathOps, fileName: string, environ: map<string, string>,
                        racer: Racer, args: seq<string>): Outcome<seq<Match>>
  {
    var tempPath := TempPath(ops, fileName);
    match racer(Argv(settings.racerBin, args, tempPath), LaunchEnv(environ, ops, settings.searchPaths))
    case NotFound => Raised(RacerNotFound)
    case Exited(code, lines) => Parse(code, lines, fileName, tempPath)
  }

  /**
   * `run_racer`: frames the caller's list into the command line (before
   * racer is started, so the list is changed even when starting fails),
   * starts racer once with the search-path environment and parses its output.
   */
  method RunRacer(settings: Settings, ops: PathOps, fileName: string, environ: map<string, string>,
                  racer: Racer, cmdList: ArgList) returns (r: Outcome<seq<Match>>)
    modifies cmdList
    ensures cmdList.items == Argv(settings.racerBin, old(cmdList.items), TempPath(ops, fileName))
    ensures r == RacerOutcome(settings, ops, fileName, environ, racer, old(cmdList.items))
  {
    var tempFilePath := ops.join(ops.dirname(fileName), TempFileName);
    cmdList.Insert(0, settings.racerBin);
    cmdList.Append(tempFilePath);
    var expanded := ExpandAll(ops, settings.searchPaths);
    var envPath := JoinWith(expanded, PathListSep);
    var env := environ[SrcPathVar := envPath];
    match racer(cmdList.items, env)
    case NotFound =>
      r := Raised(RacerNotFound);
    case Exited(exitCode, output) =>
      r := ParseOutput(exitCode, output, fileName, tempFilePath);
  }

  /** A racer that cannot be started fails the call. */
  lemma NotFoundRaises(settings: Settings, ops: PathOps, fileName: string, environ: map<string, string>,
                       racer: Racer, args: seq<string>)
    requires racer(Argv(settings.racerBin, args, TempPath(ops, fileName)), LaunchEnv(environ, ops, settings.searchPaths)).NotFound?
    ensures RacerOutcome(settings, ops, fileName, environ, racer, args) == Raised(RacerNotFound)
  {
  }

  /** A non-zero exit code yields no results, whatever racer printed. */
  lemma FailedExitYieldsNothing(settings: Settings, ops: PathOps, fileName: string, environ: map<string, string>,
                                racer: Racer, args: seq<string>)
    requires racer(Argv(settings.racerBin, args, TempPath(ops, fileName)), LaunchEnv(environ, ops, settings.searchPaths)).Exited?
    requires racer(Argv(settings.racerBin, args, TempPath(ops, fileName)), LaunchEnv(environ, ops, settings.searchPaths)).exitCode != 0
    ensures RacerOutcome(settings, ops, fileName, environ, racer, args) == Done([])
  {
  }

  /** No result of a racer call names the temporary snapshot. */
  lemma NoTempPathReturned(settings: Settings, ops: PathOps, fileName: string, environ: map<string, string>,
                           racer: Racer, args: seq<string>)
    requires RacerOutcome(settings, ops, fileName, environ, racer, args).Done?
    ensures forall m :: m in RacerOutcome(settings, ops, fileName, environ, racer, args).value ==>
      m.path != TempPath(ops, fileName)
  {
    var tempPath := TempPath(ops, fileName);
    var child := racer(Argv(settings.racerBin, args, tempPath), LaunchEnv(environ, ops, settings.searchPaths));
    if child.Exited? && child.exitCode == 0 {
      NoTempPathInResults(child.output, fileName, tempPath);
    }
  }

  /**
   * racer reads `RUST_SRC_PATH` as a `:`-separated list: when no expanded
   * path holds a `:`, splitting the value gives back exactly the expanded
   * paths, in order.
   */
  lemma SrcPathValueSplits(ops: PathOps, paths: seq<string>)
    requires |paths| >= 1
    requires forall j :: 0 <= j < |paths| ==> PathListSep !in ops.expandUser(paths[j])
    ensures SplitN(SrcPathValue(ops, paths), PathListSep, |paths|) == ExpandAll(ops, paths)
  {
    SplitNOfJoin(ExpandAll(ops, paths), PathListSep, |paths|);
  }
}
