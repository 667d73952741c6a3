/**
  minigrep/src/lib.rs: the line search (`search`, `search_case_insensitive`),
  the argument checks of `Config::new`, and the choice of search in `run`.
  Reading the file and printing are left to the caller: the file's text (or
  the read error) is a parameter.
*/
module Minigrep {
  import opened Wrappers
  import opened Text

  // ---------------------------------------------------------------------
  // str::lines

  /** Index of the first '\n' in `s` at or after `from`, or |s| when there is none. */
  function IndexOfNewline(s: string, from: nat): (i: nat)
    requires from <= |s|
    ensures from <= i <= |s|
    ensures i < |s| ==> s[i] == '\n'
    ensures forall k :: from <= k < i ==> s[k] != '\n'
    decreases |s| - from
  {
    if from == |s| || s[from] == '\n' then from else IndexOfNewline(s, from + 1)
  }

  /** Drops one trailing carriage return, as `lines` does with a "\r\n" terminator. */
  function StripCR(line: string): (r: string)
    ensures r == line || (line != [] && r == line[..|line| - 1] && line[|line| - 1] == '\r')
    ensures r != line <==> line != [] && line[|line| - 1] == '\r'
  {
    if line != [] && line[|line| - 1] == '\r' then line[..|line| - 1] else line
  }

  /**
    `str::lines`: the pieces between '\n' terminators, each with one trailing
    '\r' removed; a final '\n' does not start an empty last line, and the
    empty text has no lines at all.
  */
  function Lines(s: string): seq<string>
    decreases |s|
  {
    if s == [] then []
    else
      var i := IndexOfNewline(s, 0);
      if i == |s| then [StripCR(s)]
      else [StripCR(s[..i])] + Lines(s[i + 1..])
  }

  /** The lines joined back with '\n' separators. */
  function Unlines(ls: seq<string>): string
  {
    if ls == [] then [] else if |ls| == 1 then ls[0] else ls[0] + "\n" + Unlines(ls[1..])
  }

  lemma {:induction false} LinesHaveNoNewline(s: string)
    ensures forall k :: 0 <= k < |Lines(s)| ==> '\n' !in Lines(s)[k]
    decreases |s|
  {
    if s != [] {
      var i := IndexOfNewline(s, 0);
      if i < |s| {
        LinesHaveNoNewline(s[i + 1..]);
      }
    }
  }

  /**
    For text without carriage returns, the lines joined with '\n' give the
    text back, apart from one optional final '\n'.
  */
  lemma {:induction false} LinesRoundTrip(s: string)
    requires '\r' !in s
    ensures s != [] && s[|s| - 1] == '\n' ==> Unlines(Lines(s)) + "\n" == s
    ensures s == [] || s[|s| - 1] != '\n' ==> Unlines(Lines(s)) == s
    decreases |s|
  {
    if s != [] {
      var i := IndexOfNewline(s, 0);
      if i < |s| {
        var a, rest := s[..i], s[i + 1..];
        LinesAtFirstNewline(s);
        LinesRoundTrip(rest);
        if rest == [] {
          assert Lines(s) == [a];
        } else {
          LinesNonEmpty(rest);
          UnlinesCons(a, Lines(rest));
          JoinStep(s, a, rest, Unlines(Lines(rest)));
        }
      } else {
        assert s[|s| - 1] in s;
        assert Lines(s) == [s];
      }
    }
  }

  /** Without carriage returns, the text up to the first '\n' is the first line as it stands. */
  lemma LinesAtFirstNewline(s: string)
    requires '\r' !in s && IndexOfNewline(s, 0) < |s|
    ensures var i := IndexOfNewline(s, 0);
      && s == s[..i] + "\n" + s[i + 1..]
      && '\r' !in s[i + 1..]
      && Lines(s) == [s[..i]] + Lines(s[i + 1..])
  {
    var i := IndexOfNewline(s, 0);
    var a := s[..i];
    assert StripCR(a) == a by {
      if a != [] { assert a[|a| - 1] == s[i - 1]; }
    }
    NotInSuffix(s, i + 1, '\r');
    SplitAtNewline(s, i);
  }

  lemma SplitAtNewline(s: string, i: nat)
    requires i < |s| && s[i] == '\n'
    ensures s == s[..i] + "\n" + s[i + 1..]
  {
  }

  lemma NotInSuffix(s: string, j: nat, c: char)
    requires c !in s && j <= |s|
    ensures c !in s[j..]
  {
    forall k | 0 <= k < |s| - j ensures s[j..][k] != c {
      assert s[j..][k] == s[j + k] && s[j + k] in s;
    }
  }

  /** Putting the first line back in front of the rest of the text it was split from. */
  lemma JoinStep(s: string, a: string, rest: string, u: string)
    requires rest != [] && s == a + "\n" + rest
    requires rest[|rest| - 1] == '\n' ==> u + "\n" == rest
    requires rest[|rest| - 1] != '\n' ==> u == rest
    ensures s[|s| - 1] == '\n' ==> a + "\n" + u + "\n" == s
    ensures s[|s| - 1] != '\n' ==> a + "\n" + u == s
  {
    assert s[|s| - 1] == rest[|rest| - 1];
    if rest[|rest| - 1] == '\n' {
      assert a + "\n" + u + "\n" == a + "\n" + (u + "\n");
    }
  }

  lemma UnlinesCons(a: string, ls: seq<string>)
    requires ls != []
    ensures Unlines([a] + ls) == a + "\n" + Unlines(ls)
  {
    assert ([a] + ls)[1..] == ls;
  }

  lemma LinesNonEmpty(s: string)
    requires s != []
    ensures Lines(s) != []
  {
  }

  /** A line split off before a '\n' loses exactly one trailing '\r'. */
  lemma LinesSplit(a: string, b: string)
    requires '\n' !in a
    ensures Lines(a + "\n" + b) == [StripCR(a)] + Lines(b)
  {
    IndexOfNewlineAfter(a, b);
    JoinedParts(a, b);
  }

  lemma JoinedParts(a: string, b: string)
    ensures (a + "\n" + b)[..|a|] == a && (a + "\n" + b)[|a| + 1..] == b
  {
  }

  lemma IndexOfNewlineAfter(a: string, b: string)
    requires '\n' !in a
    ensures IndexOfNewline(a + "\n" + b, 0) == |a|
  {
    var s := a + "\n" + b;
    forall k | 0 <= k < |a| ensures s[k] != '\n' {
      assert s[k] == a[k] && a[k] in a;
    }
    assert s[|a|] == '\n';
  }

  lemma LinesLast(a: string)
    requires a != [] && '\n' !in a
    ensures Lines(a) == [StripCR(a)]
  {
    forall k | 0 <= k < |a| ensures a[k] != '\n' {
      assert a[k] in a;
    }
  }

  // ---------------------------------------------------------------------
  // str::contains and the search functions

  /** `line.contains(query)`: `query` occurs in `line` at some position. */
  predicate Contains(line: string, query: string)
  {
    exists i :: 0 <= i <= |line| && StartsWith(line[i..], query)
  }

  lemma ContainsEmpty(line: string)
    ensures Contains(line, "")
  {
    assert StartsWith(line[0..], "");
  }

  /** A line lacking one of the query's characters cannot contain the query. */
  lemma MissingCharNotContained(line: string, query: string, c: char)
    requires c in query && c !in line
    ensures !Contains(line, query)
  {
  }

  /** `lines.filter(|line| line.contains(query)).collect()`. */
  function Filter(lines: seq<string>, query: string): (r: seq<string>)
    ensures |r| <= |lines|
    ensures forall k :: 0 <= k < |r| ==> r[k] in lines && Contains(r[k], query)
  {
    if lines == [] then []
    else if Contains(lines[0], query) then [lines[0]] + Filter(lines[1..], query)
    else Filter(lines[1..], query)
  }

  /** Filtering keeps every matching line as often as it occurs and drops every other line. */
  lemma {:induction false} FilterCounts(lines: seq<string>, query: string)
    ensures forall x :: multiset(Filter(lines, query))[x] == if Contains(x, query) then multiset(lines)[x] else 0
  {
    if lines != [] {
      FilterCounts(lines[1..], query);
      assert lines == [lines[0]] + lines[1..];
    }
  }

  /** Filtering a concatenation filters each part in place: the original order is kept. */
  lemma {:induction false} FilterConcat(a: seq<string>, b: seq<string>, query: string)
    ensures Filter(a + b, query) == Filter(a, query) + Filter(b, query)
  {
    if a != [] {
      assert (a + b)[0] == a[0] && (a + b)[1..] == a[1..] + b;
      FilterConcat(a[1..], b, query);
    } else {
      assert a + b == b;
    }
  }

  /** `search`: the lines of `contents` that contain `query`, in their original order. */
  function Search(query: string, contents: string): seq<string>
  {
    Filter(Lines(contents), query)
  }

  /**
    `search_case_insensitive`: the source applies the same case-sensitive
    `contains` filter as `search`; neither the query nor the lines are lowercased.
  */
  function SearchCaseInsensitive(query: string, contents: string): seq<string>
  {
    Filter(Lines(contents), query)
  }

  /** What `search` returns: exactly the matching lines, with their multiplicities, at most one per line. */
  lemma SearchSpec(query: string, contents: string)
    ensures forall x :: x in Search(query, contents) <==> x in Lines(contents) && Contains(x, query)
    ensures forall x :: multiset(Search(query, contents))[x] == if Contains(x, query) then multiset(Lines(contents))[x] else 0
    ensures |Search(query, contents)| <= |Lines(contents)|
  {
    FilterCounts(Lines(contents), query);
    forall x ensures x in Search(query, contents) <==> x in Lines(contents) && Contains(x, query) {
      assert x in Search(query, contents) <==> multiset(Search(query, contents))[x] > 0;
      assert x in Lines(contents) <==> multiset(Lines(contents))[x] > 0;
    }
  }

  /** Both search functions return the same lines for every input. */
  lemma SearchCaseInsensitiveIsSearch(query: string, contents: string)
    ensures SearchCaseInsensitive(query, contents) == Search(query, contents)
  {
  }

  /**
    Lines without '\n', the last one non-empty, joined with '\n' split back
    into the same lines, each losing one trailing '\r'.
  */
  lemma {:induction false} LinesOfUnlines(ls: seq<string>)
    requires ls != [] && ls[|ls| - 1] != []
    requires forall k :: 0 <= k < |ls| ==> '\n' !in ls[k]
    ensures |Lines(Unlines(ls))| == |ls|
    ensures forall k :: 0 <= k < |ls| ==> Lines(Unlines(ls))[k] == StripCR(ls[k])
    decreases |ls|
  {
    if |ls| == 1 {
      LinesLast(ls[0]);
    } else {
      var tail := ls[1..];
      LinesOfUnlines(tail);
      LinesSplit(ls[0], Unlines(tail));
      forall k | 1 <= k < |ls| ensures Lines(Unlines(ls))[k] == StripCR(ls[k]) {
        assert ls[k] == tail[k - 1];
      }
    }
  }

  /** Lines that hold no '\n' and do not end in '\r', the last one non-empty, survive a join and split unchanged. */
  lemma PlainLinesRoundTrip(ls: seq<string>)
    requires ls != [] && ls[|ls| - 1] != []
    requires forall k :: 0 <= k < |ls| ==> '\n' !in ls[k] && StripCR(ls[k]) == ls[k]
    ensures Lines(Unlines(ls)) == ls
  {
    LinesOfUnlines(ls);
  }

  /** The four-line text of the source's tests, joined by '\n' with no final '\n'. */
  lemma UnlinesOfFour(l1: string, l2: string, l3: string, l4: string)
    ensures Unlines([l1, l2, l3, l4]) == l1 + "\n" + (l2 + "\n" + (l3 + "\n" + l4))
  {
    assert [l3, l4][1..] == [l4];
    assert Unlines([l3, l4]) == l3 + "\n" + l4;
    assert [l2, l3, l4][1..] == [l3, l4];
    assert Unlines([l2, l3, l4]) == l2 + "\n" + (l3 + "\n" + l4);
    assert [l1, l2, l3, l4][1..] == [l2, l3, l4];
  }

  /**
    The source's own `case_sensitive` test: in its four-line text, the query
    "duct" finds only "safe, fast, productive.".
  */
  lemma CaseSensitiveExample(l1: string, l2: string, l3: string, l4: string)
    requires l1 == "Rust:" && l2 == "safe, fast, productive." && l3 == "Pick three." && l4 == "Duct tape."
    ensures Search("duct", l1 + "\n" + (l2 + "\n" + (l3 + "\n" + l4))) == [l2]
  {
    var q := "duct";
    var ls := [l1, l2, l3, l4];
    UnlinesOfFour(l1, l2, l3, l4);
    PlainLinesRoundTrip(ls);
    MissingCharNotContained(l1, q, 'd');
    MissingCharNotContained(l3, q, 'd');
    MissingCharNotContained(l4, q, 'd');
    ProductiveContainsDuct(l2);
    assert ls[1..] == [l2, l3, l4] && ls[1..][1..] == [l3, l4] && ls[1..][1..][1..] == [l4];
    assert Filter([l4], q) == [];
    assert Filter([l3, l4], q) == [];
    assert Filter([l2, l3, l4], q) == [l2];
  }

  lemma ProductiveContainsDuct(line: string)
    requires line == "safe, fast, productive."
    ensures Contains(line, "duct")
  {
    assert StartsWith(line[15..], "duct");
  }

  /**
    The source's `case_insensitive` test expects "Rust:" and "Trust me." for
    the query "rUsT"; as written, `search_case_insensitive` finds nothing.
  */
  lemma CaseInsensitiveExampleFindsNothing(l1: string, l2: string, l3: string, l4: string)
    requires l1 == "Rust:" && l2 == "safe, fast, productive." && l3 == "Pick three." && l4 == "Trust me."
    ensures SearchCaseInsensitive("rUsT", l1 + "\n" + (l2 + "\n" + (l3 + "\n" + l4))) == []
  {
    var q := "rUsT";
    var ls := [l1, l2, l3, l4];
    UnlinesOfFour(l1, l2, l3, l4);
    PlainLinesRoundTrip(ls);
    MissingCharNotContained(l1, q, 'U');
    MissingCharNotContained(l2, q, 'U');
    MissingCharNotContained(l3, q, 'U');
    MissingCharNotContained(l4, q, 'U');
    assert ls[1..] == [l2, l3, l4] && ls[1..][1..] == [l3, l4] && ls[1..][1..][1..] == [l4];
    assert Filter([l4], q) == [];
    assert Filter([l3, l4], q) == [];
    assert Filter([l2, l3, l4], q) == [];
  }

  // ---------------------------------------------------------------------
  // Config::new and run

  datatype Config = Config(query: string, filename: string, caseSensitive: bool)

  const NoQuery := "Didn't get a query string"
  const NoFileName := "Didn't get a file name"
  const NotEnough := "Not enough arguments"
  const TooMany := "Too many arguments"

  /**
    `Config::new(env::args())`. `args` is the whole argument list, program
    name first; `caseInsensitiveSet` is whether `env::var("CASE_INSENSITIVE")`
    succeeds. The iterator is consumed as in the source: the program name,
    then the query, then the file name, then the count of what remains
    (`args.len()`) is checked.
  */
  function NewConfig(args: seq<string>, caseInsensitiveSet: bool): (r: Result<Config, string>)
    ensures |args| <= 1 ==> r == Err(NoQuery)
    ensures |args| == 2 ==> r == Err(NoFileName)
    ensures 3 <= |args| < 6 ==> r == Err(NotEnough)
    ensures |args| > 6 ==> r == Err(TooMany)
    ensures |args| == 6 ==> r == Ok(Config(args[1], args[2], !caseInsensitiveSet))
  {
    var afterProgram := if args == [] then [] else args[1..];
    if afterProgram == [] then Err(NoQuery)
    else
      var query := afterProgram[0];
      var afterQuery := afterProgram[1..];
      if afterQuery == [] then Err(NoFileName)
      else
        var filename := afterQuery[0];
        var remaining := afterQuery[1..];
        if |remaining| < 3 then Err(NotEnough)
        else if |remaining| > 3 then Err(TooMany)
        else Ok(Config(query, filename, !caseInsensitiveSet))
  }

  /** Only an argument list of exactly six entries is accepted, whatever the environment says. */
  lemma NewConfigAcceptsOnlySix(args: seq<string>, caseInsensitiveSet: bool)
    ensures NewConfig(args, caseInsensitiveSet).Ok? <==> |args| == 6
    ensures NewConfig(args, caseInsensitiveSet).Err? ==> NewConfig(args, !caseInsensitiveSet) == NewConfig(args, caseInsensitiveSet)
  {
  }

  /**
    `run`, past the file read: `file` is what `fs::read_to_string` returned.
    A read error is passed on; otherwise the result is the list of lines
    `run` prints, from `search` when `case_sensitive` is set and from
    `search_case_insensitive` otherwise.
  */
  function Run(config: Config, file: Result<string, string>): (r: Result<seq<string>, string>)
    ensures file.Err? ==> r == Err(file.error)
    ensures file.Ok? && config.caseSensitive ==> r == Ok(Search(config.query, file.value))
    ensures file.Ok? && !config.caseSensitive ==> r == Ok(SearchCaseInsensitive(config.query, file.value))
  {
    match file
    case Err(e) => Err(e)
    case Ok(contents) =>
      Ok(if config.caseSensitive then Search(config.query, contents)
         else SearchCaseInsensitive(config.query, contents))
  }

  /** Whatever `CASE_INSENSITIVE` says, `run` prints exactly the lines that contain the query, case-sensitively. */
  lemma RunPrintsMatchingLines(config: Config, contents: string)
    ensures Run(config, Ok(contents)).Ok?
    ensures forall x :: x in Run(config, Ok(contents)).value <==> x in Lines(contents) && Contains(x, config.query)
  {
    SearchSpec(config.query, contents);
  }
}
