/**
 * The Python string operations the plugin relies on: `str.startswith`,
 * `str.split(sep, maxsplit)`, `sep.join(parts)`, `int(s)` and `str(i)`,
 * for one-character separators and ASCII decimal numbers.
 */
module Text {
  import opened Wrappers

  predicate IsDigit(c: char) {
    '0' <= c <= '9'
  }

  predicate AllDigits(s: string) {
    forall j :: 0 <= j < |s| ==> IsDigit(s[j])
  }

  /** Python's `s.startswith(prefix)`. */
  predicate StartsWith(s: string, prefix: string) {
    |prefix| <= |s| && s[..|prefix|] == prefix
  }

  /** Python's `sep.join(parts)` for a one-character separator. */
  function JoinWith(parts: seq<string>, sep: char): string
    decreases |parts|
  {
    if |parts| == 0 then ""
    else if |parts| == 1 then parts[0]
    else parts[0] + [sep] + JoinWith(parts[1..], sep)
  }

  /** The text before and after the first `sep` in `s`; `None` when there is none. */
  function SplitFirst(s: string, sep: char): (r: Option<(string, string)>)
    decreases |s|
    ensures r.None? <==> sep !in s
    ensures r.Some? ==> s == r.value.0 + [sep] + r.value.1 && sep !in r.value.0
  {
    if |s| == 0 then None
    else if s[0] == sep then
      assert s == [] + [sep] + s[1..];
      Some(([], s[1..]))
    else match SplitFirst(s[1..], sep)
      case None => None
      case Some((a, b)) =>
        var head := [s[0]] + a;
        LongerHead(s, sep, a, b, head);
        Some((head, b))
  }

  /** A cut of `s[1..]` after `a` is a cut of `s` after `s[0]` and `a`. */
  lemma LongerHead(s: string, sep: char, a: string, b: string, head: string)
    requires |s| > 0 && s[0] != sep && s[1..] == a + [sep] + b && sep !in a && head == [s[0]] + a
    ensures s == head + [sep] + b && sep !in head
  {
    assert s == [s[0]] + s[1..];
  }

  /** A string can be cut at a separator after a separator-free head in one way only. */
  lemma CutUnique(a: string, b: string, a': string, b': string, sep: char)
    requires sep !in a && sep !in a' && a + [sep] + b == a' + [sep] + b'
    ensures a == a' && b == b'
  {
    var s := a + [sep] + b;
    assert s[|a|] == sep && s[|a'|] == sep;
    assert forall k :: 0 <= k < |a| ==> s[k] == a[k];
    assert forall k :: 0 <= k < |a'| ==> s[k] == a'[k];
    assert |a| == |a'|;
    assert a == s[..|a|] && a' == s[..|a'|];
    assert b == s[|a| + 1..] && b' == s[|a'| + 1..];
  }

  /** The first separator is the one after a separator-free head. */
  lemma SplitFirstAt(a: string, sep: char, b: string)
    requires sep !in a
    ensures SplitFirst(a + [sep] + b, sep) == Some((a, b))
  {
    var s := a + [sep] + b;
    assert s[|a|] == sep;
    var r := SplitFirst(s, sep);
    CutUnique(a, b, r.value.0, r.value.1, sep);
  }

  /**
   * Python's `s.split(sep, maxsplit)`: cut at the first `maxsplit`
   * occurrences of `sep`, leaving the remainder (separators and all) as
   * the last part. The parts join back to `s`; every part but the last is
   * free of `sep`, and so is the last when fewer than `maxsplit` cuts were
   * made.
   */
  function SplitN(s: string, sep: char, maxsplit: nat): (parts: seq<string>)
    decreases |s|
    ensures 1 <= |parts| <= maxsplit + 1
    ensures JoinWith(parts, sep) == s
    ensures forall j :: 0 <= j < |parts| - 1 ==> sep !in parts[j]
    ensures |parts| <= maxsplit ==> sep !in parts[|parts| - 1]
  {
    if maxsplit == 0 then [s]
    else match SplitFirst(s, sep)
      case None => [s]
      case Some((head, tail)) =>
        var fewer: nat := maxsplit - 1;
        var rest := SplitN(tail, sep, fewer);
        var parts := [head] + rest;
        SplitOneMore(s, sep, maxsplit, fewer, head, tail, rest, parts);
        parts
  }

  /** A separator-free head, a separator and a split of the remainder make a split with one cut more. */
  lemma SplitOneMore(s: string, sep: char, maxsplit: nat, fewer: nat, head: string, tail: string,
                     rest: seq<string>, parts: seq<string>)
    requires maxsplit == fewer + 1 && sep !in head && s == head + [sep] + tail
    requires 1 <= |rest| <= fewer + 1 && JoinWith(rest, sep) == tail
    requires forall j :: 0 <= j < |rest| - 1 ==> sep !in rest[j]
    requires |rest| <= fewer ==> sep !in rest[|rest| - 1]
    requires parts == [head] + rest
    ensures 1 <= |parts| <= maxsplit + 1
    ensures JoinWith(parts, sep) == s
    ensures forall j :: 0 <= j < |parts| - 1 ==> sep !in parts[j]
    ensures |parts| <= maxsplit ==> sep !in parts[|parts| - 1]
  {
    JoinWithCons(head, rest, sep);
    LastOfCons(head, rest, parts);
    forall j | 0 <= j < |parts| - 1 ensures sep !in parts[j] {
      if j > 0 {
        assert parts[j] == rest[j - 1];
      }
    }
  }

  /** Splitting a string that begins with a separator-free field and a separator peels that field off. */
  lemma SplitNPeel(s: string, a: string, sep: char, b: string, maxsplit: nat)
    requires sep !in a && s == a + [sep] + b
    ensures SplitN(s, sep, maxsplit + 1) == [a] + SplitN(b, sep, maxsplit)
  {
    SplitFirstAt(a, sep, b);
  }

  /** `SplitNPeel`, with the split of the remainder and the result already known. */
  lemma SplitNPeelTo(s: string, a: string, sep: char, b: string, maxsplit: nat, fewer: nat,
                     rest: seq<string>, parts: seq<string>)
    requires maxsplit == fewer + 1 && sep !in a && s == a + [sep] + b
    requires SplitN(b, sep, fewer) == rest && [a] + rest == parts
    ensures SplitN(s, sep, maxsplit) == parts
  {
    SplitNPeel(s, a, sep, b, fewer);
  }

  /** `split` undoes `join` when no part holds the separator and enough splits are allowed. */
  lemma {:induction false} SplitNOfJoin(parts: seq<string>, sep: char, maxsplit: nat)
    requires 1 <= |parts| <= maxsplit + 1
    requires forall j :: 0 <= j < |parts| ==> sep !in parts[j]
    ensures SplitN(JoinWith(parts, sep), sep, maxsplit) == parts
  {
    if |parts| == 1 {
      assert JoinWith(parts, sep) == parts[0];
      assert SplitN(parts[0], sep, maxsplit) == [parts[0]];
      Singleton(parts);
    } else {
      var head, rest := parts[0], parts[1..];
      var joined, tail := JoinWith(parts, sep), JoinWith(rest, sep);
      var fewer: nat := maxsplit - 1;
      SepFreeTail(parts, sep);
      SplitNOfJoin(rest, sep, fewer);
      JoinWithUnfold(parts, sep);
      HeadAndTail(parts);
      SplitNPeelTo(joined, head, sep, tail, maxsplit, fewer, rest, parts);
    }
  }

  lemma SepFreeTail(parts: seq<string>, sep: char)
    requires |parts| >= 1
    requires forall j :: 0 <= j < |parts| ==> sep !in parts[j]
    ensures forall j :: 0 <= j < |parts| - 1 ==> sep !in parts[1..][j]
  {
  }

  lemma JoinWithUnfold(parts: seq<string>, sep: char)
    requires |parts| >= 2
    ensures JoinWith(parts, sep) == parts[0] + [sep] + JoinWith(parts[1..], sep)
  {
  }

  /** Joining a part in front of at least one other adds that part and a separator. */
  lemma JoinWithCons(x: string, parts: seq<string>, sep: char)
    requires |parts| >= 1
    ensures JoinWith([x] + parts, sep) == x + [sep] + JoinWith(parts, sep)
  {
    assert ([x] + parts)[1..] == parts;
  }

  lemma LastOfCons<T>(x: T, rest: seq<T>, parts: seq<T>)
    requires |rest| > 0 && parts == [x] + rest
    ensures |parts| == |rest| + 1 && parts[|parts| - 1] == rest[|rest| - 1]
  {
  }

  lemma Singleton<T>(s: seq<T>)
    requires |s| == 1
    ensures [s[0]] == s
  {
  }

  lemma HeadAndTail<T>(s: seq<T>)
    requires |s| > 0
    ensures [s[0]] + s[1..] == s
  {
  }

  lemma ConcatAssociative<T>(a: seq<T>, b: seq<T>, c: seq<T>)
    ensures (a + b) + c == a + (b + c)
  {
  }

  /**
   * Python's `s.rsplit(sep, 1)` when `sep` occurs in `s`: the text before
   * and after the last occurrence of `sep`; `None` when there is none.
   */
  function SplitLast(s: string, sep: char): (r: Option<(string, string)>)
    decreases |s|
    ensures r.None? <==> sep !in s
    ensures r.Some? ==> s == r.value.0 + [sep] + r.value.1 && sep !in r.value.1
  {
    if |s| == 0 then None
    else
      var init, last := s[..|s| - 1], s[|s| - 1];
      assert s == init + [last];
      if last == sep then Some((init, ""))
      else match SplitLast(init, sep)
        case None => None
        case Some((a, b)) => Some((a, b + [last]))
  }

  /** The last separator is found however many separators precede it. */
  lemma {:induction false} SplitLastAt(a: string, sep: char, b: string)
    requires sep !in b
    ensures SplitLast(a + [sep] + b, sep) == Some((a, b))
  {
    var s := a + [sep] + b;
    if |b| == 0 {
      assert s[..|s| - 1] == a;
    } else {
      var b' := b[..|b| - 1];
      assert b == b' + [b[|b| - 1]];
      assert s[..|s| - 1] == a + [sep] + b';
      assert sep !in b';
      SplitLastAt(a, sep, b');
    }
  }

  /** The value of a string of decimal digits. */
  function DigitsValue(s: string): nat
    requires AllDigits(s)
    decreases |s|
  {
    if |s| == 0 then 0
    else 10 * DigitsValue(s[..|s| - 1]) + (s[|s| - 1] as int - '0' as int)
  }

  /**
   * Python's `int(s)`, restricted to an optional `+` or `-` sign followed
   * by one or more ASCII decimal digits; `None` where Python raises
   * `ValueError`.
   */
  function ParseInt(s: string): Option<int> {
    if |s| > 0 && (s[0] == '-' || s[0] == '+') then
      var digits := s[1..];
      if |digits| > 0 && AllDigits(digits) then
        var v: int := DigitsValue(digits);
        Some(if s[0] == '-' then -v else v)
      else None
    else if |s| > 0 && AllDigits(s) then Some(DigitsValue(s))
    else None
  }

  /** A character other than a digit or a sign anywhere makes `int` fail. */
  lemma ParseIntRejects(s: string, j: nat)
    requires j < |s| && !IsDigit(s[j]) && s[j] != '-' && s[j] != '+'
    ensures ParseInt(s) == None
  {
    if |s| > 0 && (s[0] == '-' || s[0] == '+') {
      assert s[1..][j - 1] == s[j];
    }
  }

  /** Python's `str(n)` for a natural number. */
  function NatToString(n: nat): (s: string)
    decreases n
    ensures |s| > 0 && AllDigits(s)
  {
    if n < 10 then [('0' as int + n) as char]
    else NatToString(n / 10) + [('0' as int + n % 10) as char]
  }

  /** Python's `str(i)` for an integer. */
  function IntToString(i: int): (s: string)
    ensures |s| > 0 && AllDigits(s[1..])
    ensures IsDigit(s[0]) || (s[0] == '-' && |s| > 1)
  {
    if i < 0 then "-" + NatToString(-i) else NatToString(i)
  }

  lemma {:induction false} DigitsOfNat(n: nat)
    ensures DigitsValue(NatToString(n)) == n
    decreases n
  {
    if n >= 10 {
      var s := NatToString(n);
      assert s[..|s| - 1] == NatToString(n / 10);
      DigitsOfNat(n / 10);
    }
  }

  /** `int(str(i)) == i`. */
  lemma ParseIntOfString(i: int)
    ensures ParseInt(IntToString(i)) == Some(i)
  {
    var s := IntToString(i);
    if i < 0 {
      var digits := NatToString(-i);
      assert s == "-" + digits && s[1..] == digits;
      DigitsOfNat(-i);
      assert DigitsValue(digits) == -i;
    } else {
      DigitsOfNat(i);
      assert s[0] != '-' && s[0] != '+';
    }
  }

  /** `str(i)` holds only digits and a leading minus, so no other character can occur in it. */
  lemma NotInIntString(i: int, c: char)
    requires !IsDigit(c) && c != '-'
    ensures c !in IntToString(i)
  {
    var s := IntToString(i);
    forall j | 0 <= j < |s| ensures s[j] != c {
      if j > 0 {
        assert s[1..][j - 1] == s[j];
      }
    }
  }
}
