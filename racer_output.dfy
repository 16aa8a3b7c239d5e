/**
 * Parsing racer's standard output into match records (`Result` and the
 * parse loop at the end of `run_racer`).
 *
 * racer prints one line per match, `MATCH completion,row,column,path,type`,
 * possibly with further comma-separated fields, among other lines. Only the
 * `MATCH ` lines count; a match in the edited file itself is dropped, and a
 * match in the temporary snapshot of the buffer is reported against the
 * edited file.
 */
module RacerOutput {
  import opened Wrappers
  import opened Text

  /** One match (the `Result` class): `row` is 1-based and `column` 0-based, as racer prints them. */
  datatype Match = Match(completion: string, row: int, column: int, path: string, kind: string)

  /** The exceptions that abort a whole racer call. */
  datatype Fault =
    | MissingField    // IndexError: the line has fewer than five fields
    | NotAnInteger    // ValueError: the row or the column is not an integer
    | RacerNotFound   // OSError from Popen: the racer executable cannot be started

  /** A value, or the exception that took its place. */
  datatype Outcome<T> = Done(value: T) | Raised(fault: Fault)

  const MatchPrefix: string := "MATCH "
  const MaxSplit: nat := 6

  /**
   * `Result.__init__`: the fields are read in order completion, row,
   * column, path, type, so the first missing or non-numeric one decides
   * which exception is raised; fields after the fifth are never read.
   */
  function DecodeFields(parts: seq<string>): Outcome<Match> {
    if |parts| < 2 then Raised(MissingField)
    else match ParseInt(parts[1])
      case None => Raised(NotAnInteger)
      case Some(row) =>
        if |parts| < 3 then Raised(MissingField)
        else match ParseInt(parts[2])
          case None => Raised(NotAnInteger)
          case Some(column) =>
            if |parts| < 5 then Raised(MissingField)
            else Done(Match(parts[0], row, column, parts[3], parts[4]))
  }

  /**
   * What `Result.__init__` makes of a field list: a record exactly when
   * there are at least five fields and the second and third are integers,
   * holding the first five fields in order; a non-numeric row is reported
   * before any missing later field, and a list with no row field at all
   * raises `IndexError`.
   */
  lemma DecodeFieldsOutcome(parts: seq<string>)
    ensures DecodeFields(parts).Done? <==>
      |parts| >= 5 && ParseInt(parts[1]).Some? && ParseInt(parts[2]).Some?
    ensures DecodeFields(parts).Done? ==>
      DecodeFields(parts).value ==
        Match(parts[0], ParseInt(parts[1]).value, ParseInt(parts[2]).value, parts[3], parts[4])
    ensures |parts| < 2 ==> DecodeFields(parts) == Raised(MissingField)
    ensures |parts| >= 2 && ParseInt(parts[1]).None? ==> DecodeFields(parts) == Raised(NotAnInteger)
  {
  }

  predicate IsMatchLine(line: string) {
    StartsWith(line, MatchPrefix)
  }

  /** The fields of a `MATCH ` line: the rest of the line split on at most six commas. */
  function MatchFields(line: string): seq<string>
    requires IsMatchLine(line)
  {
    SplitN(line[|MatchPrefix|..], ',', MaxSplit)
  }

  /** The line racer prints for a match, with no fields after the fifth. */
  function EncodeMatchLine(m: Match): string {
    MatchPrefix + (m.completion + ("," + (IntToString(m.row) + ("," + (IntToString(m.column) + ("," + (m.path + ("," + m.kind))))))))
  }

  /** One pass of the parse loop: what one output line adds to the results. */
  function Step(line: string, fileName: string, tempPath: string): Outcome<seq<Match>> {
    if !IsMatchLine(line) then Done([])
    else match DecodeFields(MatchFields(line))
      case Raised(f) => Raised(f)
      case Done(m) =>
        if m.path == fileName then Done([])
        else if m.path == tempPath then Done([m.(path := fileName)])
        else Done([m])
  }

  /** Runs `y` after `x`: the first exception wins, otherwise the results are concatenated. */
  function Then(x: Outcome<seq<Match>>, y: Outcome<seq<Match>>): Outcome<seq<Match>> {
    match x
    case Raised(f) => Raised(f)
    case Done(a) =>
      match y
      case Raised(g) => Raised(g)
      case Done(b) => Done(a + b)
  }

  /** The parse loop over `lines`, one `Step` after another. */
  function Collect(lines: seq<string>, fileName: string, tempPath: string): Outcome<seq<Match>>
    decreases |lines|
  {
    if |lines| == 0 then Done([])
    else Then(Collect(lines[..|lines| - 1], fileName, tempPath), Step(lines[|lines| - 1], fileName, tempPath))
  }

  /** What the parse at the end of `run_racer` computes from the exit code and the output lines. */
  function Parse(exitCode: int, lines: seq<string>, fileName: string, tempPath: string): Outcome<seq<Match>> {
    if exitCode == 0 then Collect(lines, fileName, tempPath) else Done([])
  }

  /** The parse loop of `run_racer`, as the source writes it. */
  method ParseOutput(exitCode: int, lines: seq<string>, fileName: string, tempPath: string)
    returns (r: Outcome<seq<Match>>)
    ensures r == Parse(exitCode, lines, fileName, tempPath)
  {
    var results: seq<Match> := [];
    if exitCode == 0 {
      var i := 0;
      while i < |lines|
        invariant 0 <= i <= |lines|
        invariant Collect(lines[..i], fileName, tempPath) == Done(results)
      {
        var line := lines[i];
        assert lines[..i + 1][..i] == lines[..i];
        assert Collect(lines[..i + 1], fileName, tempPath) == Then(Done(results), Step(line, fileName, tempPath));
        if StartsWith(line, MatchPrefix) {
          var parts := SplitN(line[|MatchPrefix|..], ',', MaxSplit);
          var decoded := DecodeFields(parts);
          if decoded.Raised? {
            CollectConcat(lines[..i + 1], lines[i + 1..], fileName, tempPath);
            assert lines[..i + 1] + lines[i + 1..] == lines;
            return Raised(decoded.fault);
          }
          var result := decoded.value;
          if result.path == fileName {
            assert Step(line, fileName, tempPath) == Done([]);
            assert results + [] == results;
            i := i + 1;
            continue;
          }
          if result.path == tempPath {
            result := result.(path := fileName);
          }
          assert Step(line, fileName, tempPath) == Done([result]);
          results := results + [result];
        } else {
          assert Step(line, fileName, tempPath) == Done([]);
          assert results + [] == results;
        }
        i := i + 1;
      }
      assert lines[..|lines|] == lines;
    }
    return Done(results);
  }

  lemma ThenAssociative(x: Outcome<seq<Match>>, y: Outcome<seq<Match>>, z: Outcome<seq<Match>>)
    ensures Then(Then(x, y), z) == Then(x, Then(y, z))
  {
    if x.Done? && y.Done? && z.Done? {
      assert (x.value + y.value) + z.value == x.value + (y.value + z.value);
    }
  }

  /**
   * Lines are handled in order and independently: the results of `a + b`
   * are those of `a` followed by those of `b`, and the first exception
   * (from `a` before `b`) aborts the whole parse.
   */
  lemma {:induction false} CollectConcat(a: seq<string>, b: seq<string>, fileName: string, tempPath: string)
    ensures Collect(a + b, fileName, tempPath) == Then(Collect(a, fileName, tempPath), Collect(b, fileName, tempPath))
    decreases |b|
  {
    var x := Collect(a, fileName, tempPath);
    if |b| == 0 {
      assert a + b == a;
      if x.Done? {
        assert x.value + [] == x.value;
      }
    } else {
      var init, last := b[..|b| - 1], b[|b| - 1];
      assert (a + b)[..|a + b| - 1] == a + init;
      assert (a + b)[|a + b| - 1] == last;
      CollectConcat(a, init, fileName, tempPath);
      ThenAssociative(x, Collect(init, fileName, tempPath), Step(last, fileName, tempPath));
    }
  }

  /** A one-line output yields just what that line's `Step` yields. */
  lemma CollectSingle(line: string, fileName: string, tempPath: string)
    ensures Collect([line], fileName, tempPath) == Step(line, fileName, tempPath)
  {
    assert [line][..0] == [];
    var s := Step(line, fileName, tempPath);
    if s.Done? {
      assert [] + s.value == s.value;
    }
  }

  /** A line that does not start with `MATCH ` changes nothing, wherever it stands. */
  lemma NonMatchLineIgnored(a: seq<string>, line: string, b: seq<string>, fileName: string, tempPath: string)
    requires !IsMatchLine(line)
    ensures Collect(a + [line] + b, fileName, tempPath) == Collect(a + b, fileName, tempPath)
  {
    CollectConcat(a + [line], b, fileName, tempPath);
    CollectConcat(a, [line], fileName, tempPath);
    CollectConcat(a, b, fileName, tempPath);
    CollectSingle(line, fileName, tempPath);
    var x := Collect(a, fileName, tempPath);
    if x.Done? {
      assert x.value + [] == x.value;
    }
  }

  /** An output with no `MATCH ` line at all yields no results. */
  lemma {:induction false} NoMatchLinesNoResults(lines: seq<string>, fileName: string, tempPath: string)
    requires forall j :: 0 <= j < |lines| ==> !IsMatchLine(lines[j])
    ensures Collect(lines, fileName, tempPath) == Done([])
    decreases |lines|
  {
    if |lines| > 0 {
      var init := lines[..|lines| - 1];
      assert forall j :: 0 <= j < |init| ==> !IsMatchLine(init[j]) by {
        forall j | 0 <= j < |init| ensures !IsMatchLine(init[j]) {
          assert init[j] == lines[j];
        }
      }
      NoMatchLinesNoResults(init, fileName, tempPath);
      assert Step(lines[|lines| - 1], fileName, tempPath) == Done([]);
      var none: seq<Match> := [];
      assert none + none == none;
    }
  }

  /** A malformed `MATCH ` line anywhere in the output aborts the whole parse, not just its record. */
  lemma MalformedLineAborts(lines: seq<string>, j: nat, fileName: string, tempPath: string)
    requires j < |lines| && IsMatchLine(lines[j])
    requires DecodeFields(MatchFields(lines[j])).Raised?
    ensures Collect(lines, fileName, tempPath).Raised?
  {
    var a, b := lines[..j], lines[j + 1..];
    assert lines == a + [lines[j]] + b;
    CollectConcat(a + [lines[j]], b, fileName, tempPath);
    CollectConcat(a, [lines[j]], fileName, tempPath);
    CollectSingle(lines[j], fileName, tempPath);
  }

  /** No result ever names the temporary snapshot: it is either the edited file (and dropped) or rewritten. */
  lemma {:induction false} NoTempPathInResults(lines: seq<string>, fileName: string, tempPath: string)
    requires Collect(lines, fileName, tempPath).Done?
    ensures forall m :: m in Collect(lines, fileName, tempPath).value ==> m.path != tempPath
    decreases |lines|
  {
    if |lines| > 0 {
      NoTempPathInResults(lines[..|lines| - 1], fileName, tempPath);
    }
  }

  /** The line printed for `m` with `last` in place of its type: what all splits but the last leave alone. */
  function LineEndingWith(m: Match, last: string): string {
    MatchPrefix + (m.completion + ("," + (IntToString(m.row) + ("," + (IntToString(m.column) + ("," + (m.path + ("," + last))))))))
  }

  /** The first four fields of a line are split off, and the last two splits apply to what follows them. */
  lemma {:induction false} FieldsOfLine(m: Match, last: string)
    requires ',' !in m.completion && ',' !in m.path
    ensures IsMatchLine(LineEndingWith(m, last))
    ensures MatchFields(LineEndingWith(m, last))
         == [m.completion, IntToString(m.row), IntToString(m.column), m.path] + SplitN(last, ',', 2)
  {
    var row, col := IntToString(m.row), IntToString(m.column);
    NotInIntString(m.row, ',');
    NotInIntString(m.column, ',');
    var t3 := m.path + ("," + last);
    var t2 := col + ("," + t3);
    var t1 := row + ("," + t2);
    var t0 := m.completion + ("," + t1);
    var line := MatchPrefix + t0;
    assert line[..|MatchPrefix|] == MatchPrefix;
    assert line[|MatchPrefix|..] == t0;
    ConcatAssociative(m.completion, [','], t1);
    ConcatAssociative(row, [','], t2);
    ConcatAssociative(col, [','], t3);
    ConcatAssociative(m.path, [','], last);
    SplitNPeel(t0, m.completion, ',', t1, 5);
    SplitNPeel(t1, row, ',', t2, 4);
    SplitNPeel(t2, col, ',', t3, 3);
    SplitNPeel(t3, m.path, ',', last, 2);
    PrependFour(m.completion, row, col, m.path, SplitN(last, ',', 2));
  }

  lemma PrependFour<T>(a: T, b: T, c: T, d: T, r: seq<T>)
    ensures [a] + ([b] + ([c] + ([d] + r))) == [a, b, c, d] + r
  {
  }

  /** Text appended to a line extends its last field. */
  lemma LineAppend(m: Match, last: string, e: string)
    ensures LineEndingWith(m, last) + e == LineEndingWith(m, last + e)
  {
    var row, col := IntToString(m.row), IntToString(m.column);
    var t4 := "," + last;
    var t3 := m.path + t4;
    var t2 := "," + t3;
    var t1 := col + t2;
    var t0 := "," + t1;
    var u1 := row + t0;
    var u0 := "," + u1;
    var body := m.completion + u0;
    ConcatAssociative(MatchPrefix, body, e);
    ConcatAssociative(m.completion, u0, e);
    ConcatAssociative(",", u1, e);
    ConcatAssociative(row, t0, e);
    ConcatAssociative(",", t1, e);
    ConcatAssociative(col, t2, e);
    ConcatAssociative(",", t3, e);
    ConcatAssociative(m.path, t4, e);
    ConcatAssociative(",", last, e);
  }

  /** A match line printed from a record decodes back to that record. */
  lemma DecodeEncoded(m: Match)
    requires ',' !in m.completion && ',' !in m.path && ',' !in m.kind
    ensures IsMatchLine(EncodeMatchLine(m))
    ensures DecodeFields(MatchFields(EncodeMatchLine(m))) == Done(m)
  {
    assert EncodeMatchLine(m) == LineEndingWith(m, m.kind);
    FieldsOfLine(m, m.kind);
    assert SplitN(m.kind, ',', 2) == [m.kind];
    DecodeRecordFields(m, [m.kind], MatchFields(EncodeMatchLine(m)));
  }

  /** Fields after the fifth, whatever they hold, are ignored. */
  lemma DecodeIgnoresExtraFields(m: Match, extra: string)
    requires ',' !in m.completion && ',' !in m.path && ',' !in m.kind
    ensures IsMatchLine(EncodeMatchLine(m) + "," + extra)
    ensures DecodeFields(MatchFields(EncodeMatchLine(m) + "," + extra)) == Done(m)
  {
    var e := "," + extra;
    var line := EncodeMatchLine(m) + "," + extra;
    assert EncodeMatchLine(m) == LineEndingWith(m, m.kind);
    assert line == EncodeMatchLine(m) + e;
    LineAppend(m, m.kind, e);
    FieldsOfLine(m, m.kind + e);
    SplitNPeel(m.kind + e, m.kind, ',', extra, 1);
    DecodeRecordFields(m, [m.kind] + SplitN(extra, ',', 1), MatchFields(line));
  }

  /** Fields that begin with a record's five values, shown as racer prints them, decode to that record. */
  lemma DecodeRecordFields(m: Match, rest: seq<string>, fields: seq<string>)
    requires |rest| >= 1 && rest[0] == m.kind
    requires fields == [m.completion, IntToString(m.row), IntToString(m.column), m.path] + rest
    ensures DecodeFields(fields) == Done(m)
  {
    ParseIntOfString(m.row);
    ParseIntOfString(m.column);
  }

  /**
   * The per-record rules: a match in the edited file is dropped, one in the
   * temporary snapshot is kept under the edited file's name, any other is
   * kept as it is. The own-file test comes first.
   */
  lemma StepOnMatch(m: Match, fileName: string, tempPath: string)
    requires ',' !in m.completion && ',' !in m.path && ',' !in m.kind
    ensures Step(EncodeMatchLine(m), fileName, tempPath) ==
      if m.path == fileName then Done([])
      else if m.path == tempPath then Done([m.(path := fileName)])
      else Done([m])
  {
    DecodeEncoded(m);
  }
}
