/**
 * The test-repository reader: each line `NAME: DEP1 DEP2 ...` gives the
 * package NAME the listed direct dependencies. Lines that are blank or
 * start with `#` once stripped are skipped; a line without `:` stops the
 * reader with an error naming its 1-based line number. Opening the file is
 * outside the model: the reader takes the file's lines.
 */
module RepoParser {
  import opened Text
  import opened Levels

  /** What a line holds, once stripped. */
  datatype LineKind =
    | Skip                                  // blank or a comment
    | Entry(pkg: string, deps: seq<string>)  // `pkg: deps`
    | NoColon(line: string)                 // neither, and no `:` in it

  datatype ParseError = MissingColon(lineNo: nat, line: string)

  datatype Result<T> = Ok(value: T) | Err(error: ParseError)

  /** `[x for x in ws if x]`: the non-empty strings of `ws`, in order. */
  function DropEmpty(ws: seq<string>): (r: seq<string>)
    ensures forall i :: 0 <= i < |r| ==> r[i] != []
    ensures forall x :: x in r <==> x in ws && x != []
    ensures |r| <= |ws|
  {
    if ws == [] then []
    else (if ws[0] == [] then [] else [ws[0]]) + DropEmpty(ws[1..])
  }

  /**
   * The filter works element by element: filtering a concatenation filters
   * each part and keeps them in order, so a string's position and count are
   * preserved.
   */
  lemma {:induction false} DropEmptyAppend(a: seq<string>, b: seq<string>)
    ensures DropEmpty(a + b) == DropEmpty(a) + DropEmpty(b)
  {
    if a == [] {
      assert a + b == b;
    } else {
      assert (a + b)[0] == a[0];
      assert (a + b)[1..] == a[1..] + b;
      DropEmptyAppend(a[1..], b);
    }
  }

  /** Dropping empty strings from a list that has none changes nothing. */
  lemma {:induction false} DropEmptyNone(ws: seq<string>)
    requires forall i :: 0 <= i < |ws| ==> ws[i] != []
    ensures DropEmpty(ws) == ws
  {
    if ws != [] {
      DropEmptyNone(ws[1..]);
      assert ws == [ws[0]] + ws[1..];
    }
  }

  /** `name, deps = line.split(":", 1)`, then the name and the dependencies of the two parts. */
  function SplitEntry(line: string): (string, seq<string>)
    requires ':' in line
  {
    var i := IndexOf(line, ':');
    (EntryName(line[..i]), EntryDeps(line[i + 1..]))
  }

  /**
   * `name.strip()` for the text before the first `:`: that text less the
   * whitespace around it, so it holds no `:` and neither starts nor ends
   * with whitespace.
   */
  function EntryName(left: string): (name: string)
    requires ':' !in left
    ensures ':' !in name && Strip(name) == name
    ensures exists a, c :: AllSpace(a) && AllSpace(c) && left == a + name + c
  {
    StripKeeps(left, ':');
    StripIdempotent(left);
    StripIsInfix(left);
    Strip(left)
  }

  /**
   * `[x for x in deps.strip().split() if x]` for the text after the first
   * `:` (later colons included): none of the words is empty or holds
   * whitespace, the stripped text is exactly those words with whitespace
   * between them, and together they spell out its non-whitespace.
   */
  function EntryDeps(right: string): (ds: seq<string>)
    ensures forall k :: 0 <= k < |ds| ==> ds[k] != [] && NoSpace(ds[k])
    ensures exists gaps :: |gaps| == |ds| + 1 && Separators(gaps) && Strip(right) == Interleave(gaps, ds)
    ensures Concat(ds) == NonSpace(right)
  {
    var ws := Words(Strip(right));
    DropEmptyNone(ws);
    WordsAreRuns(Strip(right));
    WordsKeepNonSpace(Strip(right));
    NonSpaceStrip(right);
    DropEmpty(ws)
  }

  /**
   * The parse of one line, as the reader's loop body does it: a blank or
   * comment line is skipped, a line without `:` is an error, anything else
   * is split at its first `:`.
   */
  function ParseLine(raw: string): (k: LineKind)
    ensures k.Skip? <==> Strip(raw) == [] || Strip(raw)[0] == '#'
    ensures k.NoColon? ==> ':' !in raw && k.line == Strip(raw)
    ensures k.Entry? ==> ':' in raw
  {
    var line := Strip(raw);
    StripKeeps(raw, ':');
    if line == [] || line[0] == '#' then Skip
    else if ':' !in line then NoColon(line)
    else
      var e := SplitEntry(line);
      Entry(e.0, e.1)
  }

  /** The parse of every line, in order. */
  function Kinds(lines: seq<string>): (ks: seq<LineKind>)
    ensures |ks| == |lines|
    ensures forall i :: 0 <= i < |lines| ==> ks[i] == ParseLine(lines[i])
  {
    seq(|lines|, i requires 0 <= i < |lines| => ParseLine(lines[i]))
  }

  /** One more parsed line on top of the entries read so far; `lineNo` counts from 1. */
  function ApplyLine(deps: Repo, lineNo: nat, k: LineKind): Result<Repo>
  {
    match k
    case Skip => Ok(deps)
    case NoColon(line) => Err(MissingColon(lineNo, line))
    case Entry(pkg, ds) => Ok(deps[pkg := ds])
  }

  /**
   * The entries of the parsed lines, in order, a later entry for a package
   * replacing an earlier one, or the error for the first line without `:`.
   */
  function Assemble(kinds: seq<LineKind>): Result<Repo>
    decreases |kinds|
  {
    if kinds == [] then Ok(map[])
    else
      match Assemble(kinds[..|kinds| - 1])
      case Err(e) => Err(e)
      case Ok(deps) => ApplyLine(deps, |kinds|, kinds[|kinds| - 1])
  }

  /** The reader's result for a sequence of lines. */
  function ParseLines(lines: seq<string>): Result<Repo>
  {
    Assemble(Kinds(lines))
  }

  lemma AssembleStep(kinds: seq<LineKind>, n: nat)
    requires n < |kinds|
    ensures Assemble(kinds[..n + 1])
         == match Assemble(kinds[..n])
            case Err(e) => Err(e)
            case Ok(deps) => ApplyLine(deps, n + 1, kinds[n])
  {
    assert kinds[..n + 1][..n] == kinds[..n];
  }

  /** Once a line has failed, the lines after it change nothing: the reader stops there. */
  lemma {:induction false} ErrorStops(kinds: seq<LineKind>, n: nat)
    requires n <= |kinds| && Assemble(kinds[..n]).Err?
    ensures Assemble(kinds) == Assemble(kinds[..n])
    decreases |kinds| - n
  {
    if n < |kinds| {
      AssembleStep(kinds, n);
      ErrorStops(kinds, n + 1);
    } else {
      assert kinds[..n] == kinds;
    }
  }

  /**
   * The reader's loop: count lines from 1, skip blank and comment lines,
   * fail on a line without `:`, otherwise split at the first `:` and record
   * the stripped name with the words after the colon.
   */
  method ReadTestRepo(lines: seq<string>) returns (r: Result<Repo>)
    ensures r == ParseLines(lines)
  {
    ghost var kinds := Kinds(lines);
    var deps: Repo := map[];
    var ln := 0;
    while ln < |lines|
      invariant ln <= |lines|
      invariant Assemble(kinds[..ln]) == Ok(deps)
    {
      var raw := lines[ln];
      AssembleStep(kinds, ln);
      ln := ln + 1;
      var line := Strip(raw);
      if line == [] || line[0] == '#' {
        continue;
      }
      if ':' !in line {
        r := Err(MissingColon(ln, line));
        ErrorStops(kinds, ln);
        return;
      }
      var i := IndexOf(line, ':');
      var pkg := EntryName(line[..i]);
      var depList := EntryDeps(line[i + 1..]);
      deps := deps[pkg := depList];
    }
    assert kinds[..ln] == kinds;
    r := Ok(deps);
  }

  /**
   * The reader fails exactly when some line has no `:`, and then it
   * reports the first such line, by its 1-based number and stripped text.
   */
  lemma {:induction false} AssembleError(kinds: seq<LineKind>)
    ensures Assemble(kinds).Ok? <==> forall k :: 0 <= k < |kinds| ==> !kinds[k].NoColon?
    ensures Assemble(kinds).Err? ==>
      var j := Assemble(kinds).error.lineNo - 1;
      && 0 <= j < |kinds|
      && kinds[j] == NoColon(Assemble(kinds).error.line)
      && forall k :: 0 <= k < j ==> !kinds[k].NoColon?
    decreases |kinds|
  {
    if kinds != [] {
      var n := |kinds| - 1;
      var pre := kinds[..n];
      AssembleError(pre);
      assert forall k :: 0 <= k < n ==> pre[k] == kinds[k];
    }
  }

  /** Line j is the last entry for `pkg` among the parsed lines. */
  ghost predicate LastEntry(kinds: seq<LineKind>, j: int, pkg: string)
  {
    && 0 <= j < |kinds| && kinds[j].Entry? && kinds[j].pkg == pkg
    && forall k :: j < k < |kinds| && kinds[k].Entry? ==> kinds[k].pkg != pkg
  }

  /**
   * A successful read maps exactly the packages that have an entry line,
   * each to the dependencies of its last entry line: a later line for the
   * same package replaces the earlier one.
   */
  lemma {:induction false} AssembleEntries(kinds: seq<LineKind>)
    requires Assemble(kinds).Ok?
    ensures forall pkg :: (pkg in Assemble(kinds).value
      <==> exists j :: 0 <= j < |kinds| && kinds[j].Entry? && kinds[j].pkg == pkg)
    ensures forall j, pkg :: (LastEntry(kinds, j, pkg)
      ==> pkg in Assemble(kinds).value && Assemble(kinds).value[pkg] == kinds[j].deps)
    decreases |kinds|
  {
    if kinds != [] {
      var n := |kinds| - 1;
      var pre := kinds[..n];
      assert forall k :: 0 <= k < n ==> pre[k] == kinds[k];
      AssembleEntries(pre);
      var before := Assemble(pre).value;
      var repo := Assemble(kinds).value;
      forall pkg ensures pkg in repo <==> exists j :: 0 <= j < |kinds| && kinds[j].Entry? && kinds[j].pkg == pkg {
        if pkg in before {
          var j :| 0 <= j < n && pre[j].Entry? && pre[j].pkg == pkg;
          assert kinds[j] == pre[j];
        }
      }
      forall j, pkg | LastEntry(kinds, j, pkg)
        ensures pkg in repo && repo[pkg] == kinds[j].deps
      {
        if j < n {
          assert LastEntry(pre, j, pkg);
        }
      }
    }
  }

  /** What follows the `:` of a formatted line. */
  function DepsText(deps: seq<string>): string
  {
    if deps == [] then [] else " " + Unwords(deps)
  }

  /** The line `pkg: dep1 dep2 ...` as the file format writes it (`pkg:` when there are none). */
  function FormatLine(pkg: string, deps: seq<string>): string
  {
    pkg + ":" + DepsText(deps)
  }

  /** A name fit to be written: non-empty, no outer whitespace, no `:`, not a comment. */
  ghost predicate WritableName(pkg: string)
  {
    pkg != [] && !IsSpace(pkg[0]) && !IsSpace(pkg[|pkg| - 1]) && ':' !in pkg && pkg[0] != '#'
  }

  ghost predicate WritableDeps(deps: seq<string>)
  {
    forall i :: 0 <= i < |deps| ==> deps[i] != [] && NoSpace(deps[i])
  }

  lemma FormatLineStripped(pkg: string, deps: seq<string>)
    requires WritableName(pkg) && WritableDeps(deps)
    ensures Strip(FormatLine(pkg, deps)) == FormatLine(pkg, deps)
  {
    var s := FormatLine(pkg, deps);
    assert s[0] == pkg[0];
    if deps == [] {
      assert s[|s| - 1] == ':';
    } else {
      var u := Unwords(deps);
      UnwordsEnds(deps);
      assert s[|s| - 1] == u[|u| - 1];
    }
    StripExact([], s, []);
    assert [] + s + [] == s;
  }

  lemma DepsTextWords(deps: seq<string>)
    requires WritableDeps(deps)
    ensures DropEmpty(Words(Strip(DepsText(deps)))) == deps
  {
    if deps != [] {
      var u := Unwords(deps);
      UnwordsEnds(deps);
      StripExact(" ", u, []);
      assert " " + u + [] == DepsText(deps);
      WordsUnwords(deps);
    }
    DropEmptyNone(deps);
  }

  lemma SplitFormatLine(pkg: string, deps: seq<string>)
    requires WritableName(pkg) && WritableDeps(deps)
    ensures ':' in FormatLine(pkg, deps)
    ensures SplitEntry(FormatLine(pkg, deps)) == (pkg, deps)
  {
    var s := FormatLine(pkg, deps);
    var tail := DepsText(deps);
    assert s == pkg + [':'] + tail;
    assert s[|pkg|] == ':';
    IndexOfAfter(pkg, ':', tail);
    assert s[..|pkg|] == pkg && s[|pkg| + 1..] == tail;
    StripExact([], pkg, []);
    assert [] + pkg + [] == pkg;
    DepsTextWords(deps);
  }

  /**
   * Reading a formatted line gives back its package and dependencies, for
   * any name that is non-empty, has no outer whitespace, no `:` and does
   * not start with `#`, and any dependency words without whitespace.
   */
  lemma ParseFormatLine(pkg: string, deps: seq<string>)
    requires WritableName(pkg) && WritableDeps(deps)
    ensures ParseLine(FormatLine(pkg, deps)) == Entry(pkg, deps)
  {
    var s := FormatLine(pkg, deps);
    FormatLineStripped(pkg, deps);
    SplitFormatLine(pkg, deps);
    assert s[0] == pkg[0];
    ParseStrippedEntry(s);
  }

  /** A stripped line that is not a comment and has a `:` is an entry, split at that `:`. */
  lemma ParseStrippedEntry(s: string)
    requires Strip(s) == s && s != [] && s[0] != '#' && ':' in s
    ensures ParseLine(s) == Entry(SplitEntry(s).0, SplitEntry(s).1)
  {
  }

  lemma DocLineA()
    ensures ParseLine("A: B C") == Entry("A", ["B", "C"])
  {
    assert FormatLine("A", ["B", "C"]) == "A: B C" by {
      assert Unwords(["B", "C"]) == "B C";
    }
    assert WritableDeps(["B", "C"]);
    ParseFormatLine("A", ["B", "C"]);
  }

  lemma DocLineB()
    ensures ParseLine("B: D") == Entry("B", ["D"])
  {
    assert FormatLine("B", ["D"]) == "B: D";
    assert WritableDeps(["D"]);
    ParseFormatLine("B", ["D"]);
  }

  lemma DocLineC()
    ensures ParseLine("C:") == Entry("C", [])
  {
    assert FormatLine("C", []) == "C:";
    ParseFormatLine("C", []);
  }

  /** The entries `A: B C`, `B: D`, `C:` in that order assemble into their map. */
  lemma DocAssemble(kinds: seq<LineKind>)
    requires |kinds| == 3
    requires kinds[0] == Entry("A", ["B", "C"]) && kinds[1] == Entry("B", ["D"]) && kinds[2] == Entry("C", [])
    ensures Assemble(kinds) == Ok(map["A" := ["B", "C"], "B" := ["D"], "C" := []])
  {
    assert Assemble(kinds[..1]) == Ok(map["A" := ["B", "C"]]) by {
      assert kinds[..0] == [];
      AssembleStep(kinds, 0);
    }
    assert Assemble(kinds[..2]) == Ok(map["A" := ["B", "C"], "B" := ["D"]]) by {
      AssembleStep(kinds, 1);
    }
    AssembleStep(kinds, 2);
    assert kinds[..3] == kinds;
  }

  /** The lines of the file format's own example, read one by one. */
  lemma DocKind0(lines: seq<string>)
    requires lines == ["A: B C", "B: D", "C:"]
    ensures |Kinds(lines)| == 3 && Kinds(lines)[0] == Entry("A", ["B", "C"])
  {
    DocLineA();
  }

  lemma DocKind1(lines: seq<string>)
    requires lines == ["A: B C", "B: D", "C:"]
    ensures Kinds(lines)[1] == Entry("B", ["D"])
  {
    DocLineB();
  }

  lemma DocKind2(lines: seq<string>)
    requires lines == ["A: B C", "B: D", "C:"]
    ensures Kinds(lines)[2] == Entry("C", [])
  {
    DocLineC();
  }

  /** The file format's own example: `A: B C`, `B: D`, `C:`. */
  lemma DocExample(lines: seq<string>)
    requires lines == ["A: B C", "B: D", "C:"]
    ensures ParseLines(lines) == Ok(map["A" := ["B", "C"], "B" := ["D"], "C" := []])
  {
    DocKind0(lines);
    DocKind1(lines);
    DocKind2(lines);
    DocAssemble(Kinds(lines));
  }
}
