/**
 * The entry point (main): normalise the output name, then run file mode,
 * directory mode, or report an invalid path. Argument parsing is not
 * modelled; the parsed arguments and the file system are inputs.
 */
module MetaPdf {
  import opened Wrappers
  import opened OutputName
  import opened Metadata
  import opened Processing

  /** The parsed `-n`, `-f` and `-d` arguments; an option not given is None. */
  datatype Arguments = Arguments(name: string, file: Option<string>, directory: Option<string>)

  /**
   * The file system as the run sees it: the paths `os.path.isfile` and
   * `os.path.isdir` accept, what opening a path yields, and what walking a
   * directory yields.
   */
  datatype FileSystem = FileSystem(
    files: set<string>,
    directories: set<string>,
    open: string -> Document,
    walk: string -> Walk)

  datatype Mode = SingleFile(path: string) | WholeDirectory(path: string) | NoValidPath

  /** The normalised output name and the mode chosen. */
  datatype Plan = Plan(output: string, mode: Mode)

  /** Python truthiness of an optional path: given and not empty. */
  predicate Given(arg: Option<string>)
  {
    arg.Some? && arg.value != ""
  }

  /**
   * File mode runs exactly when a file path is given and names an existing
   * file; otherwise directory mode runs exactly when a directory path is
   * given and names an existing directory; otherwise the path is invalid.
   * The output name is normalised whatever the mode.
   */
  function Dispatch(args: Arguments, files: set<string>, directories: set<string>): (plan: Plan)
    ensures plan.output == EnsureCsvExtension(args.name) && HasCsvExtension(plan.output)
    ensures plan.mode.SingleFile? <==> Given(args.file) && args.file.value in files
    ensures plan.mode.SingleFile? ==> plan.mode.path == args.file.value
    ensures plan.mode.WholeDirectory? <==>
      !(Given(args.file) && args.file.value in files) && Given(args.directory) && args.directory.value in directories
    ensures plan.mode.WholeDirectory? ==> plan.mode.path == args.directory.value
  {
    var output := EnsureCsvExtension(args.name);
    if Given(args.file) && args.file.value in files then Plan(output, SingleFile(args.file.value))
    else if Given(args.directory) && args.directory.value in directories then Plan(output, WholeDirectory(args.directory.value))
    else Plan(output, NoValidPath)
  }

  /**
   * With exactly one of `-f` and `-d` given, as the argument parser
   * enforces, the path is invalid exactly when it does not exist as the
   * kind it was given as.
   */
  lemma DispatchOneArgument(args: Arguments, files: set<string>, directories: set<string>)
    requires args.file.Some? != args.directory.Some?
    ensures Dispatch(args, files, directories).mode.NoValidPath? <==>
      if args.file.Some? then !Given(args.file) || args.file.value !in files
      else !Given(args.directory) || args.directory.value !in directories
  {
  }

  /** The outcome of a whole run. */
  function RunOutcome(args: Arguments, fs: FileSystem): Outcome
  {
    var plan := Dispatch(args, fs.files, fs.directories);
    match plan.mode
    case SingleFile(path) => FileOutcome(plan.output, path, fs.open(path))
    case WholeDirectory(path) => DirectoryOutcome(plan.output, fs.walk(path))
    case NoValidPath => InvalidPath
  }

  /** The executable form of RunOutcome, running the mode through ProcessFile or ProcessDirectory. */
  method Run(args: Arguments, fs: FileSystem) returns (outcome: Outcome)
    ensures outcome == RunOutcome(args, fs)
  {
    var plan := Dispatch(args, fs.files, fs.directories);
    match plan.mode {
      case SingleFile(path) =>
        outcome := ProcessFile(plan.output, path, fs.open(path));
      case WholeDirectory(path) =>
        outcome := ProcessDirectory(plan.output, fs.walk(path));
      case NoValidPath =>
        outcome := InvalidPath;
    }
  }

  /**
   * A run writes nothing for an invalid path, and whatever it writes is
   * written under the normalised name, which ends in ".csv".
   */
  lemma RunWritesUnderNormalisedName(args: Arguments, fs: FileSystem)
    ensures RunOutcome(args, fs).InvalidPath? <==> Dispatch(args, fs.files, fs.directories).mode.NoValidPath?
    ensures RunOutcome(args, fs).FileSaved? || RunOutcome(args, fs).DirectorySaved? ==>
      RunOutcome(args, fs).output == EnsureCsvExtension(args.name) && HasCsvExtension(RunOutcome(args, fs).output)
  {
  }
}
