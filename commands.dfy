/**
 * The two editor entry points that consume racer's results: the
 * completion listener (`RustAutocomplete.on_query_completions`) and the
 * go-to-definition command (`RustGotoDefinitionCommand.run`). The editor
 * supplies whether the cursor is in Rust source, the cursor's 0-based row
 * and column, and the file name.
 */
module Commands {
  import opened Wrappers
  import opened Text
  import opened RacerOutput
  import opened RacerRequest

  /** A completion as the editor shows it: the label `completion\ttype (file)` and the text inserted. */
  type Entry = (string, string)

  function CompletionEntry(ops: PathOps, m: Match): Entry {
    (m.completion + "\t" + m.kind + " (" + ops.basename(m.path) + ")", m.completion)
  }

  /** The entries of a list of matches, in order. */
  function EntryList(ops: PathOps, rs: seq<Match>): (list: seq<Entry>)
    ensures |list| == |rs|
    ensures forall j :: 0 <= j < |rs| ==> list[j] == CompletionEntry(ops, rs[j])
  {
    seq(|rs|, j requires 0 <= j < |rs| => CompletionEntry(ops, rs[j]))
  }

  /** Python's `set(list)`. */
  function Elements<T>(s: seq<T>): set<T> {
    set x | x in s
  }

  /** The request arguments of a completion: racer wants a 1-based row and a 0-based column. */
  function CompletionArgs(row: nat, col: nat): seq<string> {
    ["complete", IntToString(row + 1), IntToString(col)]
  }

  /** The request arguments of a definition lookup, numbered as for a completion. */
  function DefinitionArgs(row: nat, col: nat): seq<string> {
    ["find-definition", IntToString(row + 1), IntToString(col)]
  }

  /**
   * What the completion listener hands back to the editor: nothing outside
   * Rust source, nothing when the racer call raises (the bare `except`) or
   * yields no match, and otherwise the set of entries of the matches.
   */
  function Completions(isRustSource: bool, row: nat, col: nat, settings: Settings, ops: PathOps,
                       fileName: string, environ: map<string, string>, racer: Racer): Option<set<Entry>>
  {
    if !isRustSource then None
    else match RacerOutcome(settings, ops, fileName, environ, racer, CompletionArgs(row, col))
      case Raised(_) => None
      case Done(rs) => if |rs| == 0 then None else Some(Elements(EntryList(ops, rs)))
  }

  /** `on_query_completions`. */
  method OnQueryCompletions(isRustSource: bool, row: nat, col: nat, settings: Settings, ops: PathOps,
                            fileName: string, environ: map<string, string>, racer: Racer)
    returns (r: Option<set<Entry>>)
    ensures r == Completions(isRustSource, row, col, settings, ops, fileName, environ, racer)
  {
    if !isRustSource {
      return None;
    }
    var cmd := new ArgList(CompletionArgs(row, col));
    var raw := RunRacer(settings, ops, fileName, environ, racer, cmd);
    if raw.Raised? {
      return None;
    }
    var results := Entries(ops, raw.value);
    if |results| > 0 {
      return Some(Elements(results));
    }
    return None;
  }

  /** The loop of `on_query_completions` that turns each match into its entry, in order. */
  method Entries(ops: PathOps, rawResults: seq<Match>) returns (results: seq<Entry>)
    ensures results == EntryList(ops, rawResults)
  {
    results := [];
    var i := 0;
    while i < |rawResults|
      invariant 0 <= i <= |rawResults|
      invariant |results| == i
      invariant forall j :: 0 <= j < i ==> results[j] == CompletionEntry(ops, rawResults[j])
    {
      var result := rawResults[i];
      results := results + [(result.completion + "\t" + result.kind + " (" + ops.basename(result.path) + ")", result.completion)];
      i := i + 1;
    }
  }

  /** Where the editor is sent: `path:row:column`, with racer's row and column unchanged. */
  function EncodedPosition(m: Match): string {
    m.path + ":" + IntToString(m.row) + ":" + IntToString(m.column)
  }

  /**
   * The go-to-definition target: only when racer reports exactly one
   * match; none when it reports none, several, or the call raises (the
   * command has no handler, so nothing is opened).
   */
  function DefinitionTarget(row: nat, col: nat, settings: Settings, ops: PathOps,
                            fileName: string, environ: map<string, string>, racer: Racer): Option<string>
  {
    match RacerOutcome(settings, ops, fileName, environ, racer, DefinitionArgs(row, col))
    case Raised(_) => None
    case Done(rs) => if |rs| == 1 then Some(EncodedPosition(rs[0])) else None
  }

  /** `RustGotoDefinitionCommand.run`, returning the position it opens. */
  method GotoDefinition(row: nat, col: nat, settings: Settings, ops: PathOps,
                        fileName: string, environ: map<string, string>, racer: Racer)
    returns (target: Option<string>)
    ensures target == DefinitionTarget(row, col, settings, ops, fileName, environ, racer)
  {
    var cmd := new ArgList(["find-definition", IntToString(row + 1), IntToString(col)]);
    var results := RunRacer(settings, ops, fileName, environ, racer, cmd);
    if results.Raised? {
      return None;
    }
    target := None;
    if |results.value| == 1 {
      var result := results.value[0];
      target := Some(result.path + ":" + IntToString(result.row) + ":" + IntToString(result.column));
    }
  }

  /** racer receives the cursor as decimal text: the row made 1-based, the column left 0-based. */
  lemma RequestPosition(row: nat, col: nat)
    ensures ParseInt(CompletionArgs(row, col)[1]) == Some(row + 1)
    ensures ParseInt(CompletionArgs(row, col)[2]) == Some(col)
    ensures DefinitionArgs(row, col)[1..] == CompletionArgs(row, col)[1..]
  {
    ParseIntOfString(row + 1);
    ParseIntOfString(col);
  }

  /** `set` never has more elements than the list it was built from. */
  lemma {:induction false} ElementsBound<T>(s: seq<T>)
    ensures |Elements(s)| <= |s|
    decreases |s|
  {
    if |s| > 0 {
      var init := s[..|s| - 1];
      ElementsBound(init);
      assert s == init + [s[|s| - 1]];
      assert Elements(s) == Elements(init) + {s[|s| - 1]};
    }
  }

  /** A repeated entry is collapsed: `set` has fewer elements than a list with a duplicate. */
  lemma {:induction false} ElementsCollapse<T>(s: seq<T>, i: nat, j: nat)
    requires i < j < |s| && s[i] == s[j]
    ensures |Elements(s)| < |s|
    decreases |s|
  {
    var init := s[..|s| - 1];
    assert s == init + [s[|s| - 1]];
    assert Elements(s) == Elements(init) + {s[|s| - 1]};
    if j == |s| - 1 {
      assert init[i] == s[j];
      assert Elements(s) == Elements(init);
      ElementsBound(init);
    } else {
      assert init[i] == init[j];
      ElementsCollapse(init, i, j);
    }
  }

  /**
   * The completion answer, when there is one: a non-empty set that holds
   * the entry of every match and nothing else, with duplicates collapsed.
   */
  lemma CompletionsContents(isRustSource: bool, row: nat, col: nat, settings: Settings, ops: PathOps,
                            fileName: string, environ: map<string, string>, racer: Racer)
    requires Completions(isRustSource, row, col, settings, ops, fileName, environ, racer).Some?
    ensures isRustSource
    ensures var outcome := RacerOutcome(settings, ops, fileName, environ, racer, CompletionArgs(row, col));
      var answer := Completions(isRustSource, row, col, settings, ops, fileName, environ, racer).value;
      outcome.Done? && 1 <= |answer| <= |outcome.value| &&
      (forall m :: m in outcome.value ==> CompletionEntry(ops, m) in answer) &&
      (forall e :: e in answer ==> exists m :: m in outcome.value && e == CompletionEntry(ops, m))
  {
    var rs := RacerOutcome(settings, ops, fileName, environ, racer, CompletionArgs(row, col)).value;
    var list := EntryList(ops, rs);
    ElementsBound(list);
    assert list[0] in Elements(list);
    forall m | m in rs ensures CompletionEntry(ops, m) in Elements(list) {
      var j :| 0 <= j < |rs| && rs[j] == m;
      assert list[j] == CompletionEntry(ops, m);
    }
    forall e | e in Elements(list) ensures exists m :: m in rs && e == CompletionEntry(ops, m) {
      var j :| 0 <= j < |list| && list[j] == e;
      assert rs[j] in rs;
    }
  }

  /** The completion listener answers nothing exactly when it is outside Rust source, the call raises, or no match survives. */
  lemma CompletionsAbsent(isRustSource: bool, row: nat, col: nat, settings: Settings, ops: PathOps,
                          fileName: string, environ: map<string, string>, racer: Racer)
    ensures Completions(isRustSource, row, col, settings, ops, fileName, environ, racer).None? <==>
      !isRustSource ||
      RacerOutcome(settings, ops, fileName, environ, racer, CompletionArgs(row, col)).Raised? ||
      RacerOutcome(settings, ops, fileName, environ, racer, CompletionArgs(row, col)).value == []
  {
  }

  /** Two matches with the same entry show up once. */
  lemma DuplicateCompletionsCollapse(isRustSource: bool, row: nat, col: nat, settings: Settings, ops: PathOps,
                                     fileName: string, environ: map<string, string>, racer: Racer, i: nat, j: nat)
    requires Completions(isRustSource, row, col, settings, ops, fileName, environ, racer).Some?
    requires var rs := RacerOutcome(settings, ops, fileName, environ, racer, CompletionArgs(row, col)).value;
      i < j < |rs| && CompletionEntry(ops, rs[i]) == CompletionEntry(ops, rs[j])
    ensures |Completions(isRustSource, row, col, settings, ops, fileName, environ, racer).value|
          < |RacerOutcome(settings, ops, fileName, environ, racer, CompletionArgs(row, col)).value|
  {
    var rs := RacerOutcome(settings, ops, fileName, environ, racer, CompletionArgs(row, col)).value;
    var list := EntryList(ops, rs);
    ElementsCollapse(list, i, j);
  }

  /** A definition target exists exactly when racer reports exactly one match, and it is that match's position. */
  lemma DefinitionOnlyWhenUnique(row: nat, col: nat, settings: Settings, ops: PathOps,
                                 fileName: string, environ: map<string, string>, racer: Racer)
    ensures var outcome := RacerOutcome(settings, ops, fileName, environ, racer, DefinitionArgs(row, col));
      DefinitionTarget(row, col, settings, ops, fileName, environ, racer).Some? <==>
        outcome.Done? && |outcome.value| == 1
    ensures var outcome := RacerOutcome(settings, ops, fileName, environ, racer, DefinitionArgs(row, col));
      outcome.Done? && |outcome.value| == 1 ==>
        DefinitionTarget(row, col, settings, ops, fileName, environ, racer) == Some(EncodedPosition(outcome.value[0]))
  {
  }

  /** A position as the editor reads an encoded `path:row:column` name. */
  datatype Position = Position(path: string, row: int, column: int)

  /** The editor's reading of an encoded position: the last two `:`-separated fields are the row and the column. */
  function DecodePosition(s: string): Option<Position> {
    match SplitLast(s, ':')
    case None => None
    case Some((front, columnText)) =>
      match SplitLast(front, ':')
      case None => None
      case Some((path, rowText)) =>
        match (ParseInt(rowText), ParseInt(columnText))
        case (Some(r), Some(c)) => Some(Position(path, r, c))
        case _ => None
  }

  /** The encoded position is unambiguous: it gives back the path (even one holding `:`), the row and the column. */
  lemma DecodeEncodedPosition(m: Match)
    ensures DecodePosition(EncodedPosition(m)) == Some(Position(m.path, m.row, m.column))
  {
    var row, col := IntToString(m.row), IntToString(m.column);
    NotInIntString(m.row, ':');
    NotInIntString(m.column, ':');
    SplitLastAt(m.path + ":" + row, ':', col);
    SplitLastAt(m.path, ':', row);
    ParseIntOfString(m.row);
    ParseIntOfString(m.column);
  }

  /** Two surviving matches make the lookup ambiguous: nothing is opened. */
  lemma AmbiguousDefinition(row: nat, col: nat, settings: Settings, ops: PathOps,
                            fileName: string, environ: map<string, string>, racer: Racer, m1: Match, m2: Match)
    requires ',' !in m1.completion && ',' !in m1.path && ',' !in m1.kind
    requires ',' !in m2.completion && ',' !in m2.path && ',' !in m2.kind
    requires m1.path != fileName && m2.path != fileName
    requires racer(Argv(settings.racerBin, DefinitionArgs(row, col), TempPath(ops, fileName)),
                   LaunchEnv(environ, ops, settings.searchPaths))
          == Exited(0, [EncodeMatchLine(m1), EncodeMatchLine(m2)])
    ensures DefinitionTarget(row, col, settings, ops, fileName, environ, racer) == None
  {
    var tempPath := TempPath(ops, fileName);
    var l1, l2 := EncodeMatchLine(m1), EncodeMatchLine(m2);
    assert [l1, l2] == [l1] + [l2];
    CollectConcat([l1], [l2], fileName, tempPath);
    CollectSingle(l1, fileName, tempPath);
    CollectSingle(l2, fileName, tempPath);
    StepOnMatch(m1, fileName, tempPath);
    StepOnMatch(m2, fileName, tempPath);
  }
}
