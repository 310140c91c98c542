/**
  How the test-case validation helpers name, collect and judge student test
  cases. Loading unittest cases, running pytest and running a test case are
  not modelled: the discovered unittest ids, the lines pytest prints when it
  collects, and the outcome of running a case are inputs.
*/
module Validation {
  import opened Wrappers
  import opened PyStr
  import opened Dicts

  /** `PYTEST_NAME_SEPARATOR` */
  const NameSeparator := "::"
  /** `PYTEST_ERROR_SEP`: the line pytest prints before its short summary. */
  const ErrorSeparator := "=========================== short test summary info ==========================="

  /** `remove_module_from_name`: the text after the first `::`; without one, `find` gives -1 and the first character is dropped. */
  function RemoveModuleFromName(pytestName: string): (r: string)
    ensures Contains(pytestName, NameSeparator) ==>
              exists i :: OccursAt(pytestName, NameSeparator, i) && r == pytestName[i + 2..] &&
                          forall j :: 0 <= j < i ==> !OccursAt(pytestName, NameSeparator, j)
    ensures !Contains(pytestName, NameSeparator) ==> r == if pytestName == [] then [] else pytestName[1..]
  {
    var i := Find(pytestName, NameSeparator, 0);
    assert i == -1 <==> !Contains(pytestName, NameSeparator);
    Slice(pytestName, i + 2, |pytestName|)
  }

  /** A node id whose path has no `:` loses exactly its path and separator. */
  lemma RemoveModuleRoundTrip(path: string, short: string)
    requires forall k :: 0 <= k < |path| ==> path[k] != ':'
    ensures RemoveModuleFromName(path + NameSeparator + short) == short
  {
    var s := path + NameSeparator + short;
    assert s[|path|..|path| + 2] == NameSeparator;
    forall j | 0 <= j < |path|
      ensures !OccursAt(s, NameSeparator, j)
    {
      assert s[j..j + 2][0] == s[j] == path[j];
      assert NameSeparator[0] == ':';
    }
    FindFirst(s, NameSeparator, |path|);
    assert s[|path| + 2..] == short;
  }

  /** A unittest id that starts with the module name loses that name and one more character (the dot). */
  function UnittestName(id: string, moduleName: string): (r: string)
    ensures |r| <= |id|
    ensures !(moduleName <= id) ==> r == id
  {
    if moduleName <= id then
      if |moduleName| + 1 <= |id| then
        assert Slice(id, |moduleName| + 1, |id|) == id[|moduleName| + 1..];
        Slice(id, |moduleName| + 1, |id|)
      else Slice(id, |moduleName| + 1, |id|)
    else id
  }

  lemma UnittestNameOfQualified(moduleName: string, rest: string)
    ensures UnittestName(moduleName + "." + rest, moduleName) == rest
  {
    var id := moduleName + "." + rest;
    assert moduleName <= id;
    assert id[|moduleName| + 1..] == rest;
  }

  /** The file pytest is pointed at: the dotted module name as a path (the POSIX separator), with `.py`. */
  function ModulePath(moduleName: string): (r: string)
    ensures |r| == |moduleName| + 3
    ensures forall k :: 0 <= k < |moduleName| ==> r[k] != '.'
  {
    ReplaceChar(moduleName, '.', '/') + ".py"
  }

  /** The key a collected pytest case is stored under: its short name with `::` written as `.`. */
  function PytestKey(line: string): string {
    ReplaceAll(RemoveModuleFromName(line), NameSeparator, ".")
  }

  /** What a wrapper runs: a unittest case (known by its id) or a pytest node id. */
  datatype TestCase = UnitTest(id: string) | PytestNode(nodeid: string)

  /** `_CaseWrapper` */
  datatype CaseWrapper = CaseWrapper(name: string, testcase: TestCase, testModule: string)

  type Cases = ODict<CaseWrapper>

  /** `discovered_unittests` after the loop over the loaded suites. */
  function UnitCases(ids: seq<string>, moduleName: string): (d: Cases)
    ensures WellFormed(d)
  {
    if ids == [] then ODict([], map[])
    else
      var id := ids[|ids| - 1];
      var name := UnittestName(id, moduleName);
      Put(UnitCases(ids[..|ids| - 1], moduleName), name, CaseWrapper(name, UnitTest(id), moduleName))
  }

  /** The wrapper of a collected pytest line. */
  function PytestCase(line: string, moduleName: string): CaseWrapper {
    CaseWrapper(line, PytestNode(ModulePath(moduleName) + NameSeparator + RemoveModuleFromName(line)), moduleName)
  }

  /** The loop over the collected lines: each line with `::` whose key is not a unittest name is stored, a later line overwriting. */
  function AddPytest(d: Cases, lines: seq<string>, moduleName: string, unittests: set<string>): (r: Cases)
    requires WellFormed(d)
    ensures WellFormed(r)
  {
    if lines == [] then d
    else
      var prev := AddPytest(d, lines[..|lines| - 1], moduleName, unittests);
      var line := lines[|lines| - 1];
      if !Contains(line, NameSeparator) || PytestKey(line) in unittests then prev
      else Put(prev, PytestKey(line), PytestCase(line, moduleName))
  }

  /** `get_test_cases` on the discovered unittest ids and the lines pytest prints when collecting. */
  function TestCases(ids: seq<string>, lines: seq<string>, moduleName: string, allowPytest: bool, allowUnittest: bool): (d: Cases)
    ensures WellFormed(d)
  {
    var units := UnitCases(ids, moduleName);
    var start := if allowUnittest then units else ODict([], map[]);
    if allowPytest then AddPytest(start, lines, moduleName, units.values.Keys) else start
  }

  /** The name `get_test_cases` uses: the one given, or else the module's `__name__`. */
  function ModuleName(testModuleName: string, dunderName: string): string {
    if testModuleName == "" then dunderName else testModuleName
  }

  /** `get_test_cases`: fill the unittest dictionary, then the result. */
  method GetTestCases(ids: seq<string>, lines: seq<string>, testModuleName: string, dunderName: string,
                      allowPytest: bool, allowUnittest: bool) returns (discovered: Cases)
    ensures discovered == TestCases(ids, lines, ModuleName(testModuleName, dunderName), allowPytest, allowUnittest)
  {
    var moduleName := if testModuleName == "" then dunderName else testModuleName;
    var units: Cases := ODict([], map[]);
    for i := 0 to |ids|
      invariant units == UnitCases(ids[..i], moduleName)
    {
      var name := UnittestName(ids[i], moduleName);
      assert ids[..i + 1][..i] == ids[..i];
      units := Put(units, name, CaseWrapper(name, UnitTest(ids[i]), moduleName));
    }
    assert ids[..|ids|] == ids;
    discovered := if allowUnittest then units else ODict([], map[]);
    if allowPytest {
      var start := discovered;
      for i := 0 to |lines|
        invariant discovered == AddPytest(start, lines[..i], moduleName, units.values.Keys)
      {
        var line := lines[i];
        assert lines[..i + 1][..i] == lines[..i];
        if Contains(line, NameSeparator) {
          var key := PytestKey(line);
          if key !in units.values {
            discovered := Put(discovered, key, PytestCase(line, moduleName));
          }
        }
      }
      assert lines[..|lines|] == lines;
    }
  }

  /** The unittest dictionary has one entry per short name. */
  lemma {:induction false} UnitCasesKeys(ids: seq<string>, moduleName: string, k: string)
    ensures k in UnitCases(ids, moduleName).values <==> exists j :: 0 <= j < |ids| && UnittestName(ids[j], moduleName) == k
  {
    if ids != [] {
      var init := ids[..|ids| - 1];
      var lastName := UnittestName(ids[|ids| - 1], moduleName);
      UnitCasesKeys(init, moduleName, k);
      NamedSnoc(ids, init, moduleName, k);
      assert UnitCases(ids, moduleName).values ==
        UnitCases(init, moduleName).values[lastName := CaseWrapper(lastName, UnitTest(ids[|ids| - 1]), moduleName)];
    }
  }

  /** Some id of `ids` has short name `k` when the last one has or some id before it has. */
  lemma NamedSnoc(ids: seq<string>, init: seq<string>, moduleName: string, k: string)
    requires ids != [] && init == ids[..|ids| - 1]
    ensures (exists j :: 0 <= j < |ids| && UnittestName(ids[j], moduleName) == k) <==>
            UnittestName(ids[|ids| - 1], moduleName) == k ||
            exists j :: 0 <= j < |init| && UnittestName(init[j], moduleName) == k
  {
    if j :| 0 <= j < |ids| && UnittestName(ids[j], moduleName) == k {
      if j < |init| {
        assert init[j] == ids[j];
      }
    }
    if j :| 0 <= j < |init| && UnittestName(init[j], moduleName) == k {
      assert init[j] == ids[j];
    }
  }

  /** Each entry is a unittest case stored under its own name. */
  lemma {:induction false} UnitCasesShape(ids: seq<string>, moduleName: string, k: string)
    requires k in UnitCases(ids, moduleName).values
    ensures UnitCases(ids, moduleName).values[k].name == k
    ensures UnitCases(ids, moduleName).values[k].testcase.UnitTest?
    ensures UnitCases(ids, moduleName).values[k].testModule == moduleName
  {
    var init := ids[..|ids| - 1];
    if UnittestName(ids[|ids| - 1], moduleName) != k {
      UnitCasesShape(init, moduleName, k);
    }
  }

  /** The entry for a short name holds the last id with that name. */
  lemma {:induction false} UnitCasesLast(ids: seq<string>, moduleName: string, j: nat)
    requires j < |ids|
    requires forall j' :: j < j' < |ids| ==> UnittestName(ids[j'], moduleName) != UnittestName(ids[j], moduleName)
    ensures UnittestName(ids[j], moduleName) in UnitCases(ids, moduleName).values
    ensures UnitCases(ids, moduleName).values[UnittestName(ids[j], moduleName)] ==
              CaseWrapper(UnittestName(ids[j], moduleName), UnitTest(ids[j]), moduleName)
  {
    var init := ids[..|ids| - 1];
    if j < |ids| - 1 {
      assert init[j] == ids[j];
      UnitCasesLast(init, moduleName, j);
    }
  }

  /** The pytest pass adds only keys of collected lines that are not unittest names, and leaves every unittest entry alone. */
  lemma {:induction false} AddPytestEntries(d: Cases, lines: seq<string>, moduleName: string, unittests: set<string>, k: string)
    requires WellFormed(d)
    ensures k in AddPytest(d, lines, moduleName, unittests).values <==>
              k in d.values ||
              (k !in unittests && exists i :: 0 <= i < |lines| && Contains(lines[i], NameSeparator) && PytestKey(lines[i]) == k)
    ensures k in unittests && k in d.values ==> AddPytest(d, lines, moduleName, unittests).values[k] == d.values[k]
    ensures k in AddPytest(d, lines, moduleName, unittests).values && k !in d.values ==>
              exists i :: 0 <= i < |lines| && Contains(lines[i], NameSeparator) && PytestKey(lines[i]) == k &&
                          AddPytest(d, lines, moduleName, unittests).values[k] == PytestCase(lines[i], moduleName)
  {
    if lines != [] {
      var init := lines[..|lines| - 1];
      AddPytestEntries(d, init, moduleName, unittests, k);
      assert forall i :: 0 <= i < |init| ==> init[i] == lines[i];
    }
  }

  /**
    Which names `get_test_cases` returns: the unittest names when unittests
    are allowed, and, when pytest cases are allowed, the key of every
    collected line with `::` that is not a unittest name.
  */
  lemma TestCasesKeys(ids: seq<string>, lines: seq<string>, moduleName: string, allowPytest: bool, allowUnittest: bool, k: string)
    ensures k in TestCases(ids, lines, moduleName, allowPytest, allowUnittest).values <==>
              (allowUnittest && exists j :: 0 <= j < |ids| && UnittestName(ids[j], moduleName) == k) ||
              (allowPytest && (forall j :: 0 <= j < |ids| ==> UnittestName(ids[j], moduleName) != k) &&
               exists i :: 0 <= i < |lines| && Contains(lines[i], NameSeparator) && PytestKey(lines[i]) == k)
  {
    var units := UnitCases(ids, moduleName);
    var start := if allowUnittest then units else ODict([], map[]);
    UnitCasesKeys(ids, moduleName, k);
    if allowPytest {
      AddPytestEntries(start, lines, moduleName, units.values.Keys, k);
    }
  }

  /** A collected pytest case never replaces a unittest case of the same name. */
  lemma UnittestsWin(ids: seq<string>, lines: seq<string>, moduleName: string, allowPytest: bool, k: string)
    requires k in UnitCases(ids, moduleName).values
    ensures k in TestCases(ids, lines, moduleName, allowPytest, true).values
    ensures TestCases(ids, lines, moduleName, allowPytest, true).values[k] == UnitCases(ids, moduleName).values[k]
    ensures TestCases(ids, lines, moduleName, allowPytest, true).values[k].testcase.UnitTest?
  {
    var units := UnitCases(ids, moduleName);
    UnitCasesShape(ids, moduleName, k);
    UnitCasesKeys(ids, moduleName, k);
    if allowPytest {
      AddPytestEntries(units, lines, moduleName, units.values.Keys, k);
    }
  }

  /** A pytest entry runs the node at the module's path with the line's short name. */
  lemma PytestEntry(ids: seq<string>, lines: seq<string>, moduleName: string, allowUnittest: bool, k: string)
    requires k in TestCases(ids, lines, moduleName, true, allowUnittest).values
    requires forall j :: 0 <= j < |ids| ==> UnittestName(ids[j], moduleName) != k
    ensures exists i :: 0 <= i < |lines| && Contains(lines[i], NameSeparator) && PytestKey(lines[i]) == k &&
             TestCases(ids, lines, moduleName, true, allowUnittest).values[k] ==
               CaseWrapper(lines[i], PytestNode(ModulePath(moduleName) + NameSeparator + RemoveModuleFromName(lines[i])), moduleName)
  {
    var units := UnitCases(ids, moduleName);
    var start := if allowUnittest then units else ODict([], map[]);
    UnitCasesKeys(ids, moduleName, k);
    AddPytestEntries(start, lines, moduleName, units.values.Keys, k);
  }

  /**
    `get_failures` with the run of one wrapper (under whatever replacement
    is in force) given: the names whose run reports a message.
  */
  method GetFailures(testcases: Cases, run: CaseWrapper -> string) returns (failures: set<string>)
    requires WellFormed(testcases)
    ensures failures <= testcases.values.Keys
    ensures forall k :: k in failures <==> k in testcases.values && run(testcases.values[k]) != ""
  {
    failures := {};
    for i := 0 to |testcases.keys|
      invariant forall k :: k in failures <==>
                  (exists j :: 0 <= j < i && testcases.keys[j] == k) && run(testcases.values[k]) != ""
    {
      var name := testcases.keys[i];
      if run(testcases.values[name]) != "" {
        failures := failures + {name};
      }
    }
  }

  /** What running a case produced: a unittest result's failure and error tracebacks, or pytest's exit code and output. */
  datatype Outcome =
    | UnittestRun(failures: seq<string>, errors: seq<string>)
    | PytestRun(nodeid: string, exitCode: int, output: string)

  /**
    The message `_run` extracts from a failing pytest run: from just after
    the line naming the test up to the summary separator, or the whole
    output when that is empty.
  */
  function ExtractMessage(output: string, nodeid: string): (r: string)
    ensures r == "" ==> output == ""
    ensures exists a, b :: 0 <= a <= b <= |output| && r == output[a..b]
  {
    var identifier := ReplaceAll(RemoveModuleFromName(nodeid), NameSeparator, ".");
    var identifierLoc := Find(output, identifier, 0);
    var start := Find(output, "\n", identifierLoc) + 1;
    var end := Find(output, ErrorSeparator, 0);
    var message := Slice(output, start, end);
    if message != "" then message
    else
      assert output == output[0..|output|];
      output
  }

  /** `sub` first occurs in `s` at `i`. */
  predicate FirstAt(s: string, sub: string, i: nat) {
    OccursAt(s, sub, i) && forall j :: 0 <= j < i ==> !OccursAt(s, sub, j)
  }

  lemma FindFirst(s: string, sub: string, i: nat)
    requires FirstAt(s, sub, i)
    ensures Find(s, sub, 0) == i
  {
  }

  /** `sub` first occurs in `s` at or after `from` at `i`. */
  lemma FindNext(s: string, sub: string, from: nat, i: nat)
    requires from <= i && OccursAt(s, sub, i)
    requires forall j :: from <= j < i ==> !OccursAt(s, sub, j)
    ensures Find(s, sub, from) == i
  {
  }

  /**
    When the test's identifier appears, a newline follows it, and the
    separator comes after that line, the message is exactly the text between
    the newline and the separator.
  */
  lemma MessageBetween(output: string, nodeid: string, p: nat, q: nat, e: nat)
    requires FirstAt(output, ReplaceAll(RemoveModuleFromName(nodeid), NameSeparator, "."), p)
    requires p <= q && OccursAt(output, "\n", q) && forall j :: p <= j < q ==> !OccursAt(output, "\n", j)
    requires FirstAt(output, ErrorSeparator, e) && q + 1 < e
    ensures ExtractMessage(output, nodeid) == output[q + 1..e]
  {
    var identifier := ReplaceAll(RemoveModuleFromName(nodeid), NameSeparator, ".");
    FindFirst(output, identifier, p);
    FindNext(output, "\n", p, q);
    FindFirst(output, ErrorSeparator, e);
  }

  /** `_CaseWrapper._run`: the first failure's traceback, else the first error's, else the message of a pytest run with a positive exit code; empty means passed. */
  function RunMessage(o: Outcome): (r: string)
    ensures o.PytestRun? && o.exitCode <= 0 ==> r == ""
    ensures o.PytestRun? && o.exitCode > 0 && o.output != "" ==> r != ""
    ensures o.UnittestRun? ==> (r == "" <==> (o.failures == [] || o.failures[0] == "") && (o.failures != [] || o.errors == [] || o.errors[0] == ""))
  {
    match o
    case UnittestRun(failures, errors) =>
      if failures != [] then failures[0] else if errors != [] then errors[0] else ""
    case PytestRun(nodeid, exitCode, output) =>
      if exitCode > 0 then ExtractMessage(output, nodeid) else ""
  }

  /** One doctest example: its source and expected output. */
  datatype Example = Example(source: string, want: string)

  /** The examples of every test, in order. */
  function Flatten(tests: seq<seq<Example>>): (r: seq<Example>)
    ensures forall ex :: ex in r <==> exists i :: 0 <= i < |tests| && ex in tests[i]
  {
    if tests == [] then []
    else
      var rest := Flatten(tests[..|tests| - 1]);
      assert forall i :: 0 <= i < |tests| - 1 ==> tests[..|tests| - 1][i] == tests[i];
      rest + tests[|tests| - 1]
  }

  /** Each example as the (stripped source, stripped expected output) pair the comprehension stores. */
  function StrippedPairs(examples: seq<Example>): (ps: seq<(string, string)>)
    ensures |ps| == |examples|
    ensures forall i :: 0 <= i < |examples| ==> ps[i] == (Strip(examples[i].source), Strip(examples[i].want))
  {
    seq(|examples|, i requires 0 <= i < |examples| => (Strip(examples[i].source), Strip(examples[i].want)))
  }

  /** A dictionary comprehension over pairs: a later pair overwrites an earlier one with the same key. */
  function DictOf(ps: seq<(string, string)>): map<string, string> {
    if ps == [] then map[]
    else DictOf(ps[..|ps| - 1])[ps[|ps| - 1].0 := ps[|ps| - 1].1]
  }

  /** `_read_tests_as_dict` */
  function ReadTestsAsDict(tests: seq<seq<Example>>): map<string, string> {
    DictOf(StrippedPairs(Flatten(tests)))
  }

  /** The keys are exactly the pairs' keys. */
  lemma {:induction false} DictOfKeys(ps: seq<(string, string)>, k: string)
    ensures k in DictOf(ps) <==> exists i :: 0 <= i < |ps| && ps[i].0 == k
  {
    if ps != [] {
      var init := ps[..|ps| - 1];
      DictOfKeys(init, k);
      if ps[|ps| - 1].0 != k {
        if exists i :: 0 <= i < |ps| && ps[i].0 == k {
          var i :| 0 <= i < |ps| && ps[i].0 == k;
          assert init[i] == ps[i];
        }
        if exists i :: 0 <= i < |init| && init[i].0 == k {
          var i :| 0 <= i < |init| && init[i].0 == k;
          assert init[i] == ps[i];
        }
      }
    }
  }

  /** A key maps to the value of its last pair. */
  lemma {:induction false} DictOfLast(ps: seq<(string, string)>, i: nat)
    requires i < |ps|
    requires forall j :: i < j < |ps| ==> ps[j].0 != ps[i].0
    ensures ps[i].0 in DictOf(ps) && DictOf(ps)[ps[i].0] == ps[i].1
  {
    var init := ps[..|ps| - 1];
    if i < |ps| - 1 {
      assert init[i] == ps[i];
      DictOfLast(init, i);
    }
  }

  /** The keys are the stripped sources of the examples of all the tests. */
  lemma ReadTestsKeys(tests: seq<seq<Example>>, k: string)
    ensures k in ReadTestsAsDict(tests) <==> exists i, ex :: 0 <= i < |tests| && ex in tests[i] && Strip(ex.source) == k
  {
    var flat := Flatten(tests);
    var ps := StrippedPairs(flat);
    DictOfKeys(ps, k);
    if exists i, ex :: 0 <= i < |tests| && ex in tests[i] && Strip(ex.source) == k {
      var i, ex :| 0 <= i < |tests| && ex in tests[i] && Strip(ex.source) == k;
      assert ex in flat;
      var j :| 0 <= j < |flat| && flat[j] == ex;
      assert ps[j].0 == k;
    }
    if k in DictOf(ps) {
      var j :| 0 <= j < |ps| && ps[j].0 == k;
      assert flat[j] in flat;
    }
  }

  /** A stripped source maps to the stripped expected output of the last example with that source. */
  lemma ReadTestsLast(tests: seq<seq<Example>>, j: nat)
    requires j < |Flatten(tests)|
    requires forall j' :: j < j' < |Flatten(tests)| ==> Strip(Flatten(tests)[j'].source) != Strip(Flatten(tests)[j].source)
    ensures Strip(Flatten(tests)[j].source) in ReadTestsAsDict(tests)
    ensures ReadTestsAsDict(tests)[Strip(Flatten(tests)[j].source)] == Strip(Flatten(tests)[j].want)
  {
    DictOfLast(StrippedPairs(Flatten(tests)), j);
  }
}
