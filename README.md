# RustAutoComplete: a Dafny model of the racer client

RustAutoComplete is a Sublime Text plugin that asks the external `racer`
tool for Rust code completions and definition locations. This project
models the plugin's core in `RustAutoComplete.py` and proves properties of
that model:

- `Result.__init__`, which turns the comma-separated fields of a `MATCH `
  line into a record;
- `expand_all`;
- the logic of `run_racer`. This covers the path of the temporary snapshot
  file, how the caller's argument list is framed into racer's command line,
  the `RUST_SRC_PATH` value handed to racer, and the parse of racer's
  output. The parse drops matches in the edited file, maps matches in the
  snapshot back to the edited file, and aborts on a malformed line;
- the completion listener `on_query_completions`. It sends the row made
  1-based, builds `completion\ttype (file)` entries and collapses
  duplicates with `set`;
- the go-to-definition command, which opens a target only when racer
  reports exactly one match, written as `path:row:column`.

Modules, file by file:

| file | module | what it holds |
|---|---|---|
| `wrappers.dfy` | `Wrappers` | `Option` |
| `text.dfy` | `Text` | `startswith`, `split(sep, maxsplit)`, `join`, `int()` and `str()` for decimal integers, as the plugin uses them, plus a split at the last separator (`rsplit(sep, 1)`) used to read back an encoded `path:row:column` |
| `racer_output.dfy` | `RacerOutput` | the match record, the exceptions that abort a call, `Result.__init__`, the parse loop (`ParseOutput`) and its specification (`Collect`) |
| `racer_request.dfy` | `RacerRequest` | settings, path functions, the child process as a function, the caller's list as the class `ArgList`, and `run_racer` (`RunRacer`) |
| `commands.dfy` | `Commands` | `on_query_completions` (`OnQueryCompletions`, `Entries`) and `RustGotoDefinitionCommand.run` (`GotoDefinition`) |

How the source's mechanisms appear in the model:

- Exceptions become values of `Outcome<T> = Done(value) | Raised(fault)`.
  The faults are `IndexError` (a missing field), `ValueError` (a
  non-integer row or column) and the `OSError` of a racer executable that
  cannot be started. Inside `run_racer` an exception on one line stops the
  whole call: the model's parse returns the first fault in line order.
  The completion listener's bare `except` turns any fault into "no
  answer" (`None`).
- The go-to-definition command has no handler, so a fault there means
  nothing is opened (`None`).
- `os.path.expanduser`, `dirname`, `join` and `basename` are parameters:
  the four total functions of `PathOps`.
- The racer process is a parameter, `Racer = (argv, env) -> Child`. A
  `Child` is either `NotFound` or `Exited(exitCode, output lines)`.
- The process environment `os.environ` is a parameter `map<string, string>`.
- The list `cmd_list` is changed in place by `run_racer`: `insert(0, …)`
  and then `append(…)`. It is modelled by the class `ArgList`, whose
  `items` field the methods reassign. Its `Insert` clamps the index the
  way Python's `list.insert` does.
- `Result` objects are created fresh by the parse, and only their `path`
  is ever reassigned (once, before anything else can see the object).
  They are modelled as `Match` values, and that reassignment is a record
  update.

Every loop of the source appears as a `while` loop with invariants, proved
against a function that specifies it:

- the parse loop of `run_racer`: `RacerOutput.ParseOutput` against
  `RacerOutput.Parse`/`Collect`;
- the entry-building loop of `on_query_completions`: `Commands.Entries`
  against `Commands.EntryList`.

The code starts one racer process per request and parses the `MATCH `
lines of its output, split on commas. A single malformed `MATCH ` line
aborts the whole call, and a racer that cannot be started reaches the
caller as an exception. Duplicate completion entries collapse through an
unordered `set`.

## Model

| member | source | states |
|---|---|---|
| Text.SplitN | RustAutoComplete.py:105 | `split(',', 6)` gives between one and seven parts that join back to the input. Every part but the last is free of the separator. The last part is too when fewer than six cuts were made. |
| Text.SplitNOfJoin | RustAutoComplete.py:80 | splitting a `join` of separator-free parts, with enough cuts allowed, gives back exactly those parts |
| Text.ParseIntOfString | RustAutoComplete.py:52-53 | `int(str(i)) == i` for every integer, so a row or column printed in decimal is read back unchanged |
| Text.ParseIntRejects | RustAutoComplete.py:52-53 | a character other than a digit or a sign anywhere in a field makes the modelled `int()` fail (`ValueError`) |
| RacerOutput.DecodeFieldsOutcome | RustAutoComplete.py:50-55 | `Result.__init__` gives a record exactly when there are at least five fields and the second and third are integers; the record holds the first five fields in order. A non-numeric row is reported before a missing later field, and a list without a row field raises `IndexError`. |
| RacerOutput.DecodeEncoded | RustAutoComplete.py:104-106 | for comma-free text fields, the line racer prints for a record is a `MATCH ` line and decodes back to that same record |
| RacerOutput.DecodeIgnoresExtraFields | RustAutoComplete.py:105-106 | anything after the fifth field, commas included, is ignored: such a line still decodes to the record of its first five fields |
| RacerOutput.ParseOutput | RustAutoComplete.py:98-114 | the parse loop returns what `Parse` specifies for every exit code and output: no results on a non-zero exit, otherwise the per-line results in order, or the first line's fault |
| RacerOutput.CollectConcat | RustAutoComplete.py:102-111 | lines are handled in order and independently: the results of `a + b` are those of `a` followed by those of `b`, and a fault in `a` wins over anything in `b` |
| RacerOutput.NonMatchLineIgnored | RustAutoComplete.py:104 | a line not starting with `MATCH ` changes nothing, wherever it stands |
| RacerOutput.NoMatchLinesNoResults | RustAutoComplete.py:99-111 | an output with no `MATCH ` line yields an empty result list |
| RacerOutput.MalformedLineAborts | RustAutoComplete.py:105-106 | one malformed `MATCH ` line anywhere makes the whole parse raise, not just skip that record |
| RacerOutput.NoTempPathInResults | RustAutoComplete.py:107-111 | no result of a parse names the temporary snapshot file |
| RacerOutput.StepOnMatch | RustAutoComplete.py:107-111 | for a well-formed line: a match in the edited file is dropped, one in the snapshot is kept under the edited file's name, any other is kept unchanged; the own-file test comes first |
| RacerRequest.ExpandAll | RustAutoComplete.py:58-60 | `expand_all` keeps the length and order of the paths and expands each one |
| RacerRequest.LaunchEnv | RustAutoComplete.py:79-82 | the child's environment has the plugin's variables plus `RUST_SRC_PATH`; that variable holds the expanded search paths joined by `:`, and every other variable is unchanged |
| RacerRequest.Argv | RustAutoComplete.py:74-75 | the command line is the racer executable, then the request arguments unchanged, then the snapshot path |
| RacerRequest.ArgList.Insert | RustAutoComplete.py:74 | `list.insert(index, x)` puts `x` before position `index`, or at the end when `index` is past it; the other items keep their order |
| RacerRequest.ArgList.Append | RustAutoComplete.py:75 | `list.append(x)` adds `x` at the end |
| RacerRequest.RunRacer | RustAutoComplete.py:63-114 | `run_racer` leaves the caller's list framed as the command line and returns what racer's outcome specifies for that command line and environment |
| RacerRequest.NotFoundRaises | RustAutoComplete.py:89 | a racer that cannot be started makes the call raise |
| RacerRequest.FailedExitYieldsNothing | RustAutoComplete.py:101-114 | a non-zero exit code yields no results, whatever racer printed |
| RacerRequest.NoTempPathReturned | RustAutoComplete.py:107-111 | no result of `run_racer` names the snapshot file |
| RacerRequest.SrcPathValueSplits | RustAutoComplete.py:79-80 | when no expanded path holds a `:`, racer's reading of `RUST_SRC_PATH` as a `:`-separated list gives back exactly the expanded paths, in order |
| Commands.Entries | RustAutoComplete.py:131-135 | the loop builds, in order, one `(completion\ttype (basename), completion)` entry per match |
| Commands.OnQueryCompletions | RustAutoComplete.py:119-141 | the listener answers with what `Completions` specifies: nothing outside Rust source, on a fault, or without matches; otherwise the set of the matches' entries |
| Commands.CompletionsContents | RustAutoComplete.py:131-139 | an answer is a non-empty set no larger than the match list. It holds the entry of every match and nothing else. |
| Commands.CompletionsAbsent | RustAutoComplete.py:123-141 | there is no answer exactly when the cursor is outside Rust source, the racer call raises, or no match survives |
| Commands.ElementsBound | RustAutoComplete.py:139 | `set(list)` never has more elements than the list |
| Commands.ElementsCollapse | RustAutoComplete.py:139 | a list with a repeated element gives a strictly smaller `set` |
| Commands.DuplicateCompletionsCollapse | RustAutoComplete.py:137-139 | two matches with the same entry make the answer smaller than the match list |
| Commands.RequestPosition | RustAutoComplete.py:125-129 | racer receives the row made 1-based and the column unchanged, as decimal text that reads back to those numbers; both commands send the same position |
| Commands.GotoDefinition | RustAutoComplete.py:146-159 | the command opens what `DefinitionTarget` specifies |
| Commands.DefinitionOnlyWhenUnique | RustAutoComplete.py:153-159 | a target is opened exactly when racer reports exactly one surviving match, and it is that match's `path:row:column` |
| Commands.DecodeEncodedPosition | RustAutoComplete.py:158 | `path:row:column` is unambiguous: reading the last two `:`-separated fields as numbers gives back the path (even one holding `:`), the row and the column |
| Commands.AmbiguousDefinition | RustAutoComplete.py:151-153 | when racer prints two well-formed matches outside the edited file, nothing is opened |

## Left out

- The editor plumbing is left out: plugin loading and unloading, the settings object and its change callbacks, `view`, regions, selections and `window().open_file`. The editor's answers are parameters: whether the cursor is in Rust source, the 0-based row and column, and the file name. The file name is assumed present; `view.file_name()` returning `None` is not modelled.
- Writing the buffer to the snapshot file and removing it afterwards (lines 64-73 and 96) are file I/O, so they are not modelled. An `open` that fails is not modelled either; it would raise before the caller's list is changed.
- The Windows `STARTUPINFO` branch (lines 85-88) only hides a console window and does not change any result.
- The `print` calls (lines 113 and 141) are diagnostics with no effect on results.
- Decoding racer's bytes as UTF-8 and `splitlines` are left out: the model receives the output as a sequence of lines.
- The `sublime.INHIBIT_*` flags in the completion answer are a constant. The answer is modelled as the set of entries.
- `list(set(results))` has an unspecified order, so the answer is modelled as a set and no order is claimed.
- The Windows drive-letter fix-up (line 157) assigns a local variable that is never used, so it has no effect and is not modelled.
- Exceptions raised inside the `os.path` functions are not modelled. These functions are total parameters.
- Text.ParseInt: models `int()` for an optional sign followed by ASCII digits only. Python also accepts surrounding whitespace, underscores between digits and non-ASCII digits. Fields that only those rules accept are rejected here.
- Text.SplitN: models `str.split` with a one-character separator only, which is the only form the plugin uses.
- The column is sent to racer and put into `path:row:column` exactly as `view.rowcol` gives it, that is 0-based. No claim is made about the editor's convention for that column.
