/**
  The pytest plugin that turns a notebook into test items: the pytest
  version parse, the collection of test cells with the setup cells before
  them, running an item, and the failure report. pytest itself, importing
  the notebook and running cell code are not modelled: cells are values and
  whether a cell raises is a parameter.
*/
module Collector {
  import opened Wrappers
  import opened PyStr

  /** `tuple(int(x) for x in version.split('.'))`, or `(0, 0, 0)` when a component is not an integer. */
  function PytestVersion(version: string): (r: seq<int>)
    ensures |r| >= 1
  {
    var parts := Split(version, '.');
    if forall k :: 0 <= k < |parts| ==> ParseInt(parts[k]).Some? then
      seq(|parts|, k requires 0 <= k < |parts| => ParseInt(parts[k]).value)
    else [0, 0, 0]
  }

  /** Python's tuple comparison `a >= b`. */
  predicate TupleAtLeast(a: seq<int>, b: seq<int>) {
    if b == [] then true
    else if a == [] then false
    else if a[0] != b[0] then a[0] > b[0]
    else TupleAtLeast(a[1..], b[1..])
  }

  /** The plugin registers the `file_path` form of the collection hook from pytest 7 on. */
  predicate UsesFilePathHook(version: string) {
    TupleAtLeast(PytestVersion(version), [7, 0, 0])
  }

  /** The dotted text of a version. */
  function VersionText(v: seq<nat>): (r: string)
    requires |v| >= 1
  {
    Join(seq(|v|, k requires 0 <= k < |v| => NatToString(v[k])), '.')
  }

  /** A dotted run of natural numbers parses back to those numbers. */
  lemma VersionRoundTrip(v: seq<nat>)
    requires |v| >= 1
    ensures PytestVersion(VersionText(v)) == v
  {
    var parts := seq(|v|, k requires 0 <= k < |v| => NatToString(v[k]));
    forall k | 0 <= k < |parts| ensures '.' !in parts[k] {
      assert AllDigits(parts[k]);
    }
    SplitJoin(parts, '.');
    assert Split(VersionText(v), '.') == parts;
    forall k | 0 <= k < |parts| ensures ParseInt(parts[k]) == Some(v[k] as int) {
      ParseIntOfNat(v[k]);
    }
    var r := PytestVersion(VersionText(v));
    assert |r| == |v|;
    forall k | 0 <= k < |v| ensures r[k] == v[k] {
      assert r[k] == ParseInt(parts[k]).value;
    }
  }

  /** A version with a non-numeric component, such as a release candidate, counts as `(0, 0, 0)` and so as old. */
  lemma NonNumericIsOld(version: string, k: nat)
    requires k < |Split(version, '.')| && ParseInt(Split(version, '.')[k]).None?
    ensures PytestVersion(version) == [0, 0, 0] && !UsesFilePathHook(version)
  {
    var parts := Split(version, '.');
    assert !(forall j :: 0 <= j < |parts| ==> ParseInt(parts[j]).Some?);
    assert PytestVersion(version) == [0, 0, 0];
    assert !TupleAtLeast([0, 0, 0], [7, 0, 0]);
  }

  /** The three letters `TEST_PATTERN` compares case-insensitively; `s` also matches the long s `ſ`. */
  predicate LetterCi(c: char, lower: char) {
    if lower == 't' then c == 't' || c == 'T'
    else if lower == 'e' then c == 'e' || c == 'E'
    else c == 's' || c == 'S' || c == 'ſ'
  }

  predicate StartsWithTest(s: string) {
    |s| >= 4 && LetterCi(s[0], 't') && LetterCi(s[1], 'e') && LetterCi(s[2], 's') && LetterCi(s[3], 't')
  }

  /** The number of `#` at the start of `s`. */
  function LeadingHashes(s: string): (n: nat)
    ensures n <= |s| && (forall j :: 0 <= j < n ==> s[j] == '#') && (n < |s| ==> s[n] != '#')
  {
    if s == [] || s[0] != '#' then 0 else 1 + LeadingHashes(s[1..])
  }

  /**
    `re.match(r"(?i)^\s*#+\s*(test.*?)\s*$", line).group(1)` on a line
    without line breaks: the text after the hashes and the spaces that
    follow them, without its trailing spaces, when it starts with `test`.
    The lazy group stops before the trailing white space.
  */
  function TestName(line: string): (r: Option<string>)
    ensures r.Some? ==> StartsWithTest(r.value) && !IsSpace(r.value[|r.value| - 1])
  {
    var s := LStrip(line);
    var n := LeadingHashes(s);
    if n == 0 then None
    else
      var rest := LStrip(s[n..]);
      if StartsWithTest(rest) then
        var name := RStrip(rest);
        TestLettersNotSpace(rest);
        RStripKeeps(rest, 3);
        RStripEndsInNonSpace(rest);
        assert |name| > 3;
        assert !IsSpace(name[|name| - 1]);
        Some(name)
      else None
  }

  lemma RStripEndsInNonSpace(s: string)
    ensures RStrip(s) == [] || !IsSpace(RStrip(s)[|RStrip(s)| - 1])
  {
  }

  lemma NotHash(c: char)
    requires IsSpace(c) || LetterCi(c, 't')
    ensures c != '#'
  {
  }

  lemma TestLettersNotSpace(s: string)
    requires StartsWithTest(s)
    ensures !IsSpace(s[0]) && !IsSpace(s[3])
  {
  }

  /** Stripping trailing white space keeps everything up to a non-space character. */
  lemma {:induction false} RStripKeeps(s: string, k: nat)
    requires k < |s| && !IsSpace(s[k])
    ensures k < |RStrip(s)| && RStrip(s)[..k + 1] == s[..k + 1]
  {
    if IsSpace(s[|s| - 1]) {
      RStripKeeps(s[..|s| - 1], k);
    }
  }

  lemma {:induction false} LStripSpaces(w: string, t: string)
    requires AllSpace(w) && (t == [] || !IsSpace(t[0]))
    ensures LStrip(w + t) == t
  {
    if w != [] {
      assert (w + t)[1..] == w[1..] + t;
      LStripSpaces(w[1..], t);
    }
  }

  lemma {:induction false} RStripSpaces(t: string, w: string)
    requires AllSpace(w) && (t == [] || !IsSpace(t[|t| - 1]))
    ensures RStrip(t + w) == t
  {
    if w != [] {
      assert (t + w)[..|t + w| - 1] == t + w[..|w| - 1];
      RStripSpaces(t, w[..|w| - 1]);
    }
  }

  /**
    A comment line made of spaces, hashes, spaces, a name starting with
    `test` and trailing spaces names the test it carries.
  */
  lemma TestNameOfComment(w1: string, hashes: string, w2: string, name: string, w3: string)
    requires AllSpace(w1) && AllSpace(w2) && AllSpace(w3)
    requires hashes != [] && forall j :: 0 <= j < |hashes| ==> hashes[j] == '#'
    requires StartsWithTest(name) && !IsSpace(name[|name| - 1])
    ensures TestName(w1 + hashes + w2 + name + w3) == Some(name)
  {
    var tail := w2 + (name + w3);
    var line := w1 + (hashes + tail);
    assert w1 + hashes + w2 + name + w3 == line;
    LStripSpaces(w1, hashes + tail);
    assert LeadingHashes(hashes + tail) == |hashes| by {
      if w2 != [] {
        assert tail[0] == w2[0] && IsSpace(w2[0]);
      } else {
        assert tail[0] == (name + w3)[0] == name[0] && LetterCi(name[0], 't');
      }
      NotHash(tail[0]);
      LeadingHashesAppend(hashes, tail);
    }
    assert (hashes + tail)[|hashes|..] == tail;
    TestLettersNotSpace(name);
    LStripSpaces(w2, name + w3);
    StartsWithTestAppend(name, w3);
    RStripSpaces(name, w3);
    TestNameSteps(line, |hashes|, name + w3);
  }

  lemma StartsWithTestAppend(name: string, w: string)
    requires StartsWithTest(name)
    ensures StartsWithTest(name + w)
  {
    assert (name + w)[..4] == name[..4];
  }

  /** `TestName` once the leading spaces and hashes are known. */
  lemma TestNameSteps(line: string, n: nat, rest: string)
    requires n == LeadingHashes(LStrip(line)) && n > 0
    requires rest == LStrip(LStrip(line)[n..]) && StartsWithTest(rest)
    ensures TestName(line) == Some(RStrip(rest))
  {
  }

  lemma {:induction false} LeadingHashesAppend(hashes: string, tail: string)
    requires forall j :: 0 <= j < |hashes| ==> hashes[j] == '#'
    requires tail != [] && tail[0] != '#'
    ensures LeadingHashes(hashes + tail) == |hashes|
  {
    if hashes != [] {
      assert (hashes + tail)[1..] == hashes[1..] + tail;
      LeadingHashesAppend(hashes[1..], tail);
    }
  }

  /** A notebook cell as the plugin sees it: its source and its `markus` metadata, if any. */
  datatype Cell = Cell(source: string, markus: Option<map<string, bool>>)

  /** `cell.source.splitlines() or [""]`, first line. */
  function FirstLine(source: string): string {
    var lines := SplitLines(source);
    if lines == [] then "" else lines[0]
  }

  /** `match and match.group(1)` on the first line: the test's name for a test cell. */
  function CellTestName(c: Cell): Option<string> {
    var m := TestName(FirstLine(c.source));
    if m.Some? && m.value != "" then m else None
  }

  /** A collected `IpynbItem`. */
  datatype Item = Item(name: string, testCell: Cell, setupCells: seq<Cell>)

  /*
    The collection below is stated for any way `testName` of telling test
    cells from setup cells; `Collect` uses `CellTestName`.
  */

  /** The items yielded for `cells`. */
  function Items(cells: seq<Cell>, testName: Cell -> Option<string>): seq<Item> {
    if cells == [] then []
    else
      var prefix := cells[..|cells| - 1];
      var c := cells[|cells| - 1];
      match testName(c)
      case Some(name) => Items(prefix, testName) + [Item(name, c, Pending(prefix, testName))]
      case None => Items(prefix, testName)
  }

  /** The setup cells gathered since the last test cell. */
  function Pending(cells: seq<Cell>, testName: Cell -> Option<string>): (r: seq<Cell>)
    ensures forall c :: c in r ==> testName(c).None?
  {
    if cells == [] then []
    else
      var c := cells[|cells| - 1];
      if testName(c).Some? then [] else Pending(cells[..|cells| - 1], testName) + [c]
  }

  /** `IpynbFile.collect` over the notebook's cells. */
  method Collect(cells: seq<Cell>) returns (items: seq<Item>)
    ensures items == Items(cells, CellTestName)
    ensures |items| == |TestCells(cells, CellTestName)|
    ensures Unfold(items) + Pending(cells, CellTestName) == cells
  {
    items := [];
    var setupCells: seq<Cell> := [];
    for i := 0 to |cells|
      invariant items == Items(cells[..i], CellTestName) && setupCells == Pending(cells[..i], CellTestName)
    {
      assert cells[..i + 1][..i] == cells[..i];
      var c := cells[i];
      var lines := SplitLines(c.source);
      if lines == [] {
        lines := [""];
      }
      var m := TestName(lines[0]);
      if m.Some? && m.value != "" {
        assert CellTestName(c) == m;
        items := items + [Item(m.value, c, setupCells)];
        setupCells := [];
      } else {
        assert CellTestName(c) == None;
        setupCells := setupCells + [c];
      }
    }
    assert cells[..|cells|] == cells;
    ItemsCount(cells, CellTestName);
    ItemsPartition(cells, CellTestName);
  }

  /** The test cells of `cells`, in order. */
  function TestCells(cells: seq<Cell>, testName: Cell -> Option<string>): (r: seq<Cell>)
    ensures forall c :: c in r ==> testName(c).Some?
  {
    if cells == [] then []
    else
      var c := cells[|cells| - 1];
      TestCells(cells[..|cells| - 1], testName) + if testName(c).Some? then [c] else []
  }

  /** Each item's setup cells followed by its test cell, item after item. */
  function Unfold(items: seq<Item>): seq<Cell> {
    if items == [] then []
    else Unfold(items[..|items| - 1]) + items[|items| - 1].setupCells + [items[|items| - 1].testCell]
  }

  /** One item per test cell, carrying that test cell, in order. */
  lemma {:induction false} ItemsCount(cells: seq<Cell>, testName: Cell -> Option<string>)
    ensures |Items(cells, testName)| == |TestCells(cells, testName)|
    ensures forall k :: 0 <= k < |Items(cells, testName)| ==> Items(cells, testName)[k].testCell == TestCells(cells, testName)[k]
  {
    if cells != [] {
      ItemsCount(cells[..|cells| - 1], testName);
    }
  }

  /**
    The items' setup and test cells, then the setup cells after the last
    test cell, are the notebook's cells in order: every cell goes to exactly
    one place and the trailing setup cells go to no item.
  */
  lemma {:induction false} ItemsPartition(cells: seq<Cell>, testName: Cell -> Option<string>)
    ensures Unfold(Items(cells, testName)) + Pending(cells, testName) == cells
  {
    if cells != [] {
      var prefix := cells[..|cells| - 1];
      var c := cells[|cells| - 1];
      ItemsPartition(prefix, testName);
      assert cells == prefix + [c];
      if testName(c).Some? {
        var items := Items(prefix, testName);
        var item := Item(testName(c).value, c, Pending(prefix, testName));
        assert (items + [item])[..|items|] == items;
      }
    }
  }

  /** Every item's setup cells are setup cells, and its test cell is a test cell carrying the item's name. */
  lemma {:induction false} ItemCellsClassified(cells: seq<Cell>, testName: Cell -> Option<string>)
    ensures forall it, c :: it in Items(cells, testName) && c in it.setupCells ==> testName(c).None?
    ensures forall it :: it in Items(cells, testName) ==> testName(it.testCell) == Some(it.name)
  {
    if cells != [] {
      var prefix := cells[..|cells| - 1];
      var c := cells[|cells| - 1];
      ItemCellsClassified(prefix, testName);
    }
  }

  /** `'markus' in cell.metadata and cell.metadata.markus.get('skip', True)` */
  predicate Skipped(c: Cell) {
    c.markus.Some? && (if "skip" in c.markus.value then c.markus.value["skip"] else true)
  }

  /** The setup cells `runtest` runs: those not skipped, in order. */
  function Runnable(setupCells: seq<Cell>): (r: seq<Cell>)
    ensures forall c :: c in r <==> c in setupCells && !Skipped(c)
  {
    if setupCells == [] then []
    else
      var c := setupCells[|setupCells| - 1];
      assert setupCells == setupCells[..|setupCells| - 1] + [c];
      Runnable(setupCells[..|setupCells| - 1]) + if Skipped(c) then [] else [c]
  }

  /** Which cell `_last_cell` refers to: none yet, a setup cell by position, or the test cell. */
  datatype LastCell = NoCell | Setup(index: nat) | TestCell

  /**
    `IpynbItem.runtest`: `raises` says which cells raise when run. The
    result is the cells run, in order, the cell `_last_cell` refers to, and
    whether a cell raised (which ends the run).
  */
  method RunCells(setupCells: seq<Cell>, testCell: Cell, raises: Cell -> bool) returns (ran: seq<Cell>, last: LastCell, raised: bool)
    ensures ran <= Runnable(setupCells) + [testCell] && ran != []
    ensures forall k :: 0 <= k < |ran| - 1 ==> !raises(ran[k])
    ensures raised <==> raises(ran[|ran| - 1])
    ensures !raised ==> ran == Runnable(setupCells) + [testCell]
    ensures last == TestCell <==> forall c :: c in Runnable(setupCells) ==> !raises(c)
    ensures last != TestCell ==> last.Setup? && last.index < |setupCells| && setupCells[last.index] == ran[|ran| - 1] && raised
  {
    var stop;
    ran, stop := RunSetup(setupCells, raises);
    if stop.Some? {
      assert ran[|ran| - 1] == Runnable(setupCells)[|ran| - 1];
      return ran, Setup(stop.value), true;
    }
    last := TestCell;
    ran := ran + [testCell];
    raised := raises(testCell);
  }

  /**
    The loop of `runtest` over the setup cells: the runnable cells run in
    order until one raises; `stop` is the position of the one that raised.
  */
  method RunSetup(setupCells: seq<Cell>, raises: Cell -> bool) returns (ran: seq<Cell>, stop: Option<nat>)
    ensures stop.None? ==> ran == Runnable(setupCells) && forall c :: c in ran ==> !raises(c)
    ensures stop.Some? ==> stop.value < |setupCells| && ran != [] && ran <= Runnable(setupCells) &&
                           ran[|ran| - 1] == setupCells[stop.value] && raises(ran[|ran| - 1])
    ensures stop.Some? ==> forall k :: 0 <= k < |ran| - 1 ==> !raises(ran[k])
  {
    ran := [];
    for i := 0 to |setupCells|
      invariant ran == Runnable(setupCells[..i])
      invariant forall c :: c in ran ==> !raises(c)
    {
      RunnableStep(setupCells, i);
      if Skipped(setupCells[i]) {
        continue;
      }
      if raises(setupCells[i]) {
        RaisingCell(setupCells, i, ran, raises);
        return ran + [setupCells[i]], Some(i);
      }
      ran := ran + [setupCells[i]];
    }
    assert setupCells[..|setupCells|] == setupCells;
    stop := None;
  }

  /** One more setup cell extends the runnable ones by that cell, unless it is skipped. */
  lemma RunnableStep(setupCells: seq<Cell>, i: nat)
    requires i < |setupCells|
    ensures Runnable(setupCells[..i + 1]) == Runnable(setupCells[..i]) + if Skipped(setupCells[i]) then [] else [setupCells[i]]
  {
    assert setupCells[..i + 1][..i] == setupCells[..i];
  }

  /** The cells run when the setup cell at `i` is the first to raise. */
  lemma RaisingCell(setupCells: seq<Cell>, i: nat, ran: seq<Cell>, raises: Cell -> bool)
    requires i < |setupCells| && !Skipped(setupCells[i]) && raises(setupCells[i])
    requires ran == Runnable(setupCells[..i]) && forall c :: c in ran ==> !raises(c)
    ensures ran + [setupCells[i]] <= Runnable(setupCells)
    ensures forall k :: 0 <= k < |ran| ==> !raises((ran + [setupCells[i]])[k])
  {
    RunnableStep(setupCells, i);
    RunnablePrefix(setupCells, i + 1);
    forall k | 0 <= k < |ran|
      ensures !raises((ran + [setupCells[i]])[k])
    {
      assert (ran + [setupCells[i]])[k] == ran[k];
    }
  }

  lemma {:induction false} RunnablePrefix(setupCells: seq<Cell>, i: nat)
    requires i <= |setupCells|
    ensures Runnable(setupCells[..i]) <= Runnable(setupCells)
  {
    if i < |setupCells| {
      var prefix := setupCells[..|setupCells| - 1];
      assert setupCells[..i] == prefix[..i];
      RunnablePrefix(prefix, i);
    } else {
      assert setupCells[..i] == setupCells;
    }
  }

  /** An item while it runs: `_last_cell` is the only state `runtest` changes. */
  class IpynbItem {
    const name: string
    const testCell: Cell
    const setupCells: seq<Cell>
    var lastCell: LastCell

    constructor(item: Item)
      ensures name == item.name && testCell == item.testCell && setupCells == item.setupCells
      ensures lastCell == NoCell
    {
      name := item.name;
      testCell := item.testCell;
      setupCells := item.setupCells;
      lastCell := NoCell;
    }

    method Runtest(raises: Cell -> bool) returns (ran: seq<Cell>, raised: bool)
      modifies this
      ensures lastCell != NoCell
      ensures ran <= Runnable(setupCells) + [testCell] && ran != []
      ensures forall k :: 0 <= k < |ran| - 1 ==> !raises(ran[k])
      ensures raised <==> raises(ran[|ran| - 1])
      ensures !raised ==> ran == Runnable(setupCells) + [testCell]
      ensures lastCell == TestCell <==> forall c :: c in Runnable(setupCells) ==> !raises(c)
      ensures lastCell.Setup? ==>
        lastCell.index < |setupCells| && setupCells[lastCell.index] == ran[|ran| - 1] && raised
    {
      var last;
      ran, last, raised := RunCells(setupCells, testCell, raises);
      lastCell := last;
    }

    /** `repr_failure` on this item's current state. */
    function ReprFailure(modFile: string, exc: ExceptionInfo): (r: Report)
      reads this
      requires lastCell.Setup? ==> lastCell.index < |setupCells|
      ensures ReportFrame(exc.traceback, exc.typename, modFile).None? <==> r == NoReport
      ensures r == ReportingFailed <==> ReportFrame(exc.traceback, exc.typename, modFile).Some? && lastCell == NoCell
      ensures r.ReportText? ==> lastCell != NoCell && Header(lastCell, exc.typename) + "\n\n" <= r.text &&
                                |exc.exconly| <= |r.text| && r.text[|r.text| - |exc.exconly|..] == exc.exconly
    {
      FailureReport(lastCell, setupCells, testCell, modFile, exc)
    }
  }

  datatype TracebackEntry = TracebackEntry(path: string, lineno: int)
  datatype ExceptionInfo = ExceptionInfo(typename: string, traceback: seq<TracebackEntry>, exconly: string)

  /** A report, no report (the scan finds no frame and the method returns `None`), or the fallback message. */
  datatype Report = NoReport | ReportText(text: string) | ReportingFailed

  /** The frame the report is about: scanning from the innermost, the first in the notebook, or any frame for a `SyntaxError`. */
  function ReportFrame(traceback: seq<TracebackEntry>, typename: string, modFile: string): (r: Option<nat>)
    ensures r.Some? ==> r.value < |traceback| && (typename == "SyntaxError" || modFile <= traceback[r.value].path)
    ensures r.Some? ==> forall j :: r.value < j < |traceback| ==> typename != "SyntaxError" && !(modFile <= traceback[j].path)
    ensures r.None? ==> forall j :: 0 <= j < |traceback| ==> typename != "SyntaxError" && !(modFile <= traceback[j].path)
  {
    if traceback == [] then None
    else if typename == "SyntaxError" || modFile <= traceback[|traceback| - 1].path then Some(|traceback| - 1)
    else ReportFrame(traceback[..|traceback| - 1], typename, modFile)
  }

  /** The cell's lines, the error line marked with `-> ` and every other indented by three spaces. */
  function MarkLines(lines: seq<string>, errLine: int): (r: seq<string>)
  {
    seq(|lines|, i requires 0 <= i < |lines| => (if i == errLine then "-> " else "   ") + lines[i])
  }

  /** Marking keeps every line and marks exactly the error line, if the cell has it. */
  lemma MarkLinesExact(lines: seq<string>, errLine: int)
    ensures |MarkLines(lines, errLine)| == |lines|
    ensures forall i :: 0 <= i < |lines| ==> MarkLines(lines, errLine)[i][3..] == lines[i]
    ensures (set i | 0 <= i < |lines| && MarkLines(lines, errLine)[i][..3] == "-> ") ==
      (if 0 <= errLine < |lines| then {errLine} else {})
  {
    var r := MarkLines(lines, errLine);
    forall i | 0 <= i < |lines| ensures r[i][3..] == lines[i] && (r[i][..3] == "-> " <==> i == errLine) {
      var prefix := if i == errLine then "-> " else "   ";
      assert r[i] == prefix + lines[i];
      assert r[i][..3] == prefix;
    }
  }

  const FailureHeader := "Failure in test cell:"
  const ErrorHeader := "Error in test cell:"
  const NotExecutedHeader := "Test cell was not executed because an earlier cell raised an error:"

  function Header(last: LastCell, typename: string): string {
    if last == TestCell then
      if typename == "AssertionError" then FailureHeader else ErrorHeader
    else NotExecutedHeader
  }

  /** `repr_failure`. With no last cell, reading its source fails and the fallback message is returned. */
  function FailureReport(last: LastCell, setupCells: seq<Cell>, testCell: Cell, modFile: string, exc: ExceptionInfo): (r: Report)
    requires last.Setup? ==> last.index < |setupCells|
    ensures ReportFrame(exc.traceback, exc.typename, modFile).None? <==> r == NoReport
    ensures r == ReportingFailed <==> ReportFrame(exc.traceback, exc.typename, modFile).Some? && last == NoCell
    ensures r.ReportText? ==> last != NoCell && Header(last, exc.typename) + "\n\n" <= r.text &&
                              |exc.exconly| <= |r.text| && r.text[|r.text| - |exc.exconly|..] == exc.exconly
  {
    match ReportFrame(exc.traceback, exc.typename, modFile)
    case None => NoReport
    case Some(k) =>
      if last == NoCell then ReportingFailed
      else
        var cell := if last.Setup? then setupCells[last.index] else testCell;
        var lines := MarkLines(SplitLines(cell.source), exc.traceback[k].lineno);
        var head := Header(last, exc.typename) + "\n\n";
        var text := head + (Join(lines, '\n') + "\n\n") + exc.exconly;
        Framed(head, Join(lines, '\n') + "\n\n", exc.exconly);
        ReportText(text)
  }

  /** A text made of three parts starts with the first and ends with the last. */
  lemma Framed(head: string, middle: string, tail: string)
    ensures head <= head + middle + tail
    ensures |tail| <= |head + middle + tail| && (head + middle + tail)[|head + middle + tail| - |tail|..] == tail
  {
    var text := head + middle + tail;
    assert text[..|head|] == head;
  }

  /**
    After `runtest`, the report's header says the test cell failed or
    errored exactly when no runnable setup cell raised, and that it was not
    executed otherwise.
  */
  lemma HeaderAfterRun(setupCells: seq<Cell>, raises: Cell -> bool, last: LastCell, typename: string)
    requires last != NoCell
    requires last == TestCell <==> forall c :: c in Runnable(setupCells) ==> !raises(c)
    ensures Header(last, typename) == NotExecutedHeader <==> exists c :: c in Runnable(setupCells) && raises(c)
    ensures Header(last, typename) == FailureHeader <==> (forall c :: c in Runnable(setupCells) ==> !raises(c)) && typename == "AssertionError"
  {
  }
}
