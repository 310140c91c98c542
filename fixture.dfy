/**
  The results grid behind the test-case validation fixture: for every
  student test case, whether it passes when a function or a module is
  replaced by each of several versions. Running the tests is not modelled:
  the failure set of each version is given, as `get_failures` would compute
  it.
*/
module Fixture {
  import opened Wrappers
  import opened Dicts

  /** A function object: `id` stands for its identity and `name` for its `__name__`. */
  datatype Callable = Callable(id: nat, name: string)

  /** One version the grid is built with: the key its results are stored under and the tests that fail with it. */
  datatype Column = Column(key: string, failures: set<string>)

  /** The versions in the order `__init__` runs them: every function (under its `__name__`), then every module. */
  function Columns(functions: seq<Callable>, modules: seq<string>,
                   functionFailures: Callable -> set<string>, moduleFailures: string -> set<string>): (r: seq<Column>)
    ensures |r| == |functions| + |modules|
    ensures forall i :: 0 <= i < |functions| ==> r[i] == Column(functions[i].name, functionFailures(functions[i]))
    ensures forall i :: 0 <= i < |modules| ==> r[|functions| + i] == Column(modules[i], moduleFailures(modules[i]))
  {
    seq(|functions|, i requires 0 <= i < |functions| => Column(functions[i].name, functionFailures(functions[i])))
    + seq(|modules|, i requires 0 <= i < |modules| => Column(modules[i], moduleFailures(modules[i])))
  }

  /** A row's results: a `dict[str, bool]` from version to pass. */
  type Row = ODict<bool>

  /** The keys of the columns, each once, in the order of their first column. */
  function Keys(columns: seq<Column>): (r: seq<string>)
    ensures Distinct(r)
    ensures forall k :: k in r <==> exists i :: 0 <= i < |columns| && columns[i].key == k
  {
    if columns == [] then []
    else
      var init := Keys(columns[..|columns| - 1]);
      var c := columns[|columns| - 1];
      assert forall i :: 0 <= i < |columns| - 1 ==> columns[..|columns| - 1][i] == columns[i];
      if c.key in init then init else init + [c.key]
  }

  /** The row `__init__` builds for test `t`: one entry per column, written in column order. */
  function RowOf(columns: seq<Column>, t: string): (r: Row)
    ensures WellFormed(r)
  {
    if columns == [] then ODict([], map[])
    else
      var c := columns[|columns| - 1];
      Put(RowOf(columns[..|columns| - 1], t), c.key, t !in c.failures)
  }

  /** Every row has one entry per distinct key, in the order the keys first appear. */
  lemma {:induction false} RowOfNames(columns: seq<Column>, t: string)
    ensures RowOf(columns, t).keys == Keys(columns)
  {
    if columns != [] {
      var init := columns[..|columns| - 1];
      RowOfNames(init, t);
    }
  }

  /** A key's entry records the last column with that key: true iff `t` is not among its failures. */
  lemma {:induction false} RowOfValue(columns: seq<Column>, t: string, i: nat)
    requires i < |columns|
    requires forall j :: i < j < |columns| ==> columns[j].key != columns[i].key
    ensures columns[i].key in RowOf(columns, t).values
    ensures RowOf(columns, t).values[columns[i].key] == (t !in columns[i].failures)
  {
    var init := columns[..|columns| - 1];
    if i < |columns| - 1 {
      assert init[i] == columns[i];
      RowOfValue(init, t, i);
    }
  }

  /** No two columns share a key: no function `__name__` repeats or equals a module name. */
  predicate DistinctKeys(columns: seq<Column>) {
    forall i, j :: 0 <= i < j < |columns| ==> columns[i].key != columns[j].key
  }

  /** `n` copies of `x`. */
  function Repeat(x: string, n: nat): (r: seq<string>)
    ensures |r| == n && forall k :: 0 <= k < n ==> r[k] == x
  {
    if n == 0 then [] else Repeat(x, n - 1) + [x]
  }

  /**
    `_mock_names` as `__init__` fills it: the append sits inside the loop over
    the tests, so each key is appended once per test case.
  */
  function MockNames(columns: seq<Column>, n: nat): seq<string> {
    if columns == [] then []
    else MockNames(columns[..|columns| - 1], n) + Repeat(columns[|columns| - 1].key, n)
  }

  /** `get_mock_names`: the supplied keys when there is a test case, and nothing when there is none. */
  lemma {:induction false} MockNamesSet(columns: seq<Column>, n: nat, x: string)
    ensures x in MockNames(columns, n) <==> n > 0 && exists i :: 0 <= i < |columns| && columns[i].key == x
  {
    if columns != [] {
      var init := columns[..|columns| - 1];
      var last := columns[|columns| - 1];
      MockNamesSet(init, n, x);
      assert MockNames(columns, n) == MockNames(init, n) + Repeat(last.key, n);
      assert x in Repeat(last.key, n) <==> n > 0 && x == last.key;
      if x in MockNames(init, n) {
        var i :| 0 <= i < |init| && init[i].key == x;
        assert columns[i] == init[i];
      }
      if n > 0 && exists i :: 0 <= i < |columns| && columns[i].key == x {
        var i :| 0 <= i < |columns| && columns[i].key == x;
        if i < |columns| - 1 {
          assert init[i] == columns[i];
          assert x in MockNames(init, n);
        } else {
          assert x in Repeat(last.key, n);
        }
      }
    }
  }

  /**
    The nested loops of `ResultsGrid.__init__`: for each version in turn, and
    for each test case in turn, store whether the test passed and append the
    key to the mock names.
  */
  method BuildRows(tests: seq<string>, columns: seq<Column>) returns (rows: map<string, Row>, mockNames: seq<string>)
    requires Distinct(tests)
    ensures forall t :: t in rows <==> t in tests
    ensures forall t :: t in rows ==> rows[t] == RowOf(columns, t)
    ensures mockNames == MockNames(columns, |tests|)
  {
    rows := map t | t in tests :: ODict([], map[]);
    mockNames := [];
    var j := 0;
    while j < |columns|
      invariant 0 <= j <= |columns|
      invariant forall t :: t in rows <==> t in tests
      invariant forall t :: t in rows ==> rows[t] == RowOf(columns[..j], t)
      invariant mockNames == MockNames(columns[..j], |tests|)
    {
      var c := columns[j];
      rows, mockNames := FillColumn(rows, tests, c, mockNames);
      forall t | t in rows
        ensures rows[t] == RowOf(columns[..j + 1], t)
      {
        RowOfNext(columns, j, t);
      }
      MockNamesNext(columns, j, |tests|);
      j := j + 1;
    }
    assert columns[..|columns|] == columns;
  }

  /** The inner loop of `__init__`: one version's result for every test case, and its name appended once per test. */
  method FillColumn(rows: map<string, Row>, tests: seq<string>, c: Column, names: seq<string>)
    returns (rows': map<string, Row>, names': seq<string>)
    requires Distinct(tests)
    requires forall t :: t in rows <==> t in tests
    requires forall t :: t in rows ==> WellFormed(rows[t])
    ensures forall t :: t in rows' <==> t in tests
    ensures forall t :: t in rows' ==> rows'[t] == Put(rows[t], c.key, t !in c.failures)
    ensures names' == names + Repeat(c.key, |tests|)
  {
    rows', names' := rows, names;
    for i := 0 to |tests|
      invariant forall t :: t in rows' <==> t in tests
      invariant forall k :: 0 <= k < i ==> rows'[tests[k]] == Put(rows[tests[k]], c.key, tests[k] !in c.failures)
      invariant forall k :: i <= k < |tests| ==> rows'[tests[k]] == rows[tests[k]]
      invariant names' == names + Repeat(c.key, i)
    {
      var t := tests[i];
      var next := rows'[t := Put(rows'[t], c.key, t !in c.failures)];
      forall k | 0 <= k < |tests| && k != i ensures next[tests[k]] == rows'[tests[k]] {
        assert tests[k] != t;
      }
      rows' := next;
      RepeatSnoc(names, c.key, i);
      names' := names' + [c.key];
    }
    forall t | t in rows'
      ensures rows'[t] == Put(rows[t], c.key, t !in c.failures)
    {
      var k :| 0 <= k < |tests| && tests[k] == t;
    }
  }

  lemma RepeatSnoc(names: seq<string>, x: string, i: nat)
    ensures names + Repeat(x, i) + [x] == names + Repeat(x, i + 1)
  {
  }

  lemma RowOfNext(columns: seq<Column>, j: nat, t: string)
    requires j < |columns|
    ensures RowOf(columns[..j + 1], t) == Put(RowOf(columns[..j], t), columns[j].key, t !in columns[j].failures)
  {
    assert columns[..j + 1][..j] == columns[..j];
  }

  lemma MockNamesNext(columns: seq<Column>, j: nat, n: nat)
    requires j < |columns|
    ensures MockNames(columns[..j + 1], n) == MockNames(columns[..j], n) + Repeat(columns[j].key, n)
  {
    assert columns[..j + 1][..j] == columns[..j];
  }

  /** A row of the grid: the test's name and its results. */
  datatype ResultsRow = ResultsRow(testName: string, row: Row)

  /** Every name before position `i` is in the row and holds `want`. */
  predicate AllWantBefore(row: Row, names: seq<string>, want: bool, i: int)
    requires 0 <= i <= |names|
  {
    forall j :: 0 <= j < i ==> names[j] in row.values && row.values[names[j]] == want
  }

  /** Scanning `names` in order, a missing name comes before any name whose value is not `want`. */
  predicate MissingReached(row: Row, names: seq<string>, want: bool) {
    exists i :: 0 <= i < |names| && names[i] !in row.values && AllWantBefore(row, names, want, i)
  }

  /** Scanning `names` in order, a name whose value is not `want` comes before any missing name. */
  predicate OtherReached(row: Row, names: seq<string>, want: bool) {
    exists i :: 0 <= i < |names| && names[i] in row.values && row.values[names[i]] != want && AllWantBefore(row, names, want, i)
  }

  /** The scan of `names` from position 1 is the scan of `names[1..]`, once `names[0]` holds `want`. */
  lemma ReachedTail(row: Row, names: seq<string>, want: bool)
    requires names != [] && names[0] in row.values && row.values[names[0]] == want
    ensures MissingReached(row, names, want) <==> MissingReached(row, names[1..], want)
    ensures OtherReached(row, names, want) <==> OtherReached(row, names[1..], want)
  {
    var tail := names[1..];
    forall i | 0 <= i < |tail|
      ensures AllWantBefore(row, names, want, i + 1) <==> AllWantBefore(row, tail, want, i)
    {
      assert forall j :: 0 <= j < i ==> tail[j] == names[j + 1];
      if AllWantBefore(row, tail, want, i) {
        forall j | 0 <= j < i + 1
          ensures names[j] in row.values && row.values[names[j]] == want
        {
          if j > 0 { assert names[j] == tail[j - 1]; }
        }
      }
    }
    if MissingReached(row, names, want) {
      var i :| 0 <= i < |names| && names[i] !in row.values && AllWantBefore(row, names, want, i);
      assert i > 0 && tail[i - 1] == names[i];
    }
    if MissingReached(row, tail, want) {
      var i :| 0 <= i < |tail| && tail[i] !in row.values && AllWantBefore(row, tail, want, i);
      assert names[i + 1] == tail[i];
    }
    if OtherReached(row, names, want) {
      var i :| 0 <= i < |names| && names[i] in row.values && row.values[names[i]] != want && AllWantBefore(row, names, want, i);
      assert i > 0 && tail[i - 1] == names[i];
    }
    if OtherReached(row, tail, want) {
      var i :| 0 <= i < |tail| && tail[i] in row.values && row.values[tail[i]] != want && AllWantBefore(row, tail, want, i);
      assert names[i + 1] == tail[i];
    }
  }

  /** `all(self._results[name] is want for name in names)`: stops at the first other value, raises `KeyError` at a missing name. */
  function AllAre(row: Row, names: seq<string>, want: bool): (r: Result<bool, string>)
    ensures r.Failure? <==> MissingReached(row, names, want)
    ensures r == Success(false) <==> OtherReached(row, names, want)
    ensures r == Success(true) <==> forall n :: n in names ==> n in row.values && row.values[n] == want
    ensures r.Failure? ==> r.error in names && r.error !in row.values
    ensures (forall n :: n in names ==> n in row.values) ==>
              r == Success(forall n :: n in names ==> row.values[n] == want)
  {
    if names == [] then Success(true)
    else if names[0] !in row.values then
      assert AllWantBefore(row, names, want, 0);
      Failure(names[0])
    else if row.values[names[0]] != want then
      assert AllWantBefore(row, names, want, 0);
      Success(false)
    else
      var rest := AllAre(row, names[1..], want);
      ReachedTail(row, names, want);
      assert forall n :: n in names <==> n == names[0] || n in names[1..];
      rest
  }

  /**
    `ResultsRow.matches`, with the sets given in their iteration order (an
    empty sequence stands for `None` too).
  */
  function Matches(r: ResultsRow, mustPass: seq<string>, mustFail: seq<string>): (m: Result<bool, string>)
    ensures m.Failure? <==>
              MissingReached(r.row, mustPass, true) ||
              ((forall p :: p in mustPass ==> p in r.row.values && r.row.values[p]) && MissingReached(r.row, mustFail, false))
    ensures m.Failure? ==> (m.error in mustPass || m.error in mustFail) && m.error !in r.row.values
    ensures (forall n :: n in mustPass + mustFail ==> n in r.row.values) ==>
              m == Success((forall p :: p in mustPass ==> r.row.values[p]) &&
                           (forall f :: f in mustFail ==> !r.row.values[f]))
  {
    assert forall n :: n in mustPass + mustFail <==> n in mustPass || n in mustFail;
    match AllAre(r.row, mustPass, true)
    case Failure(k) => Failure(k)
    case Success(b) => if b then AllAre(r.row, mustFail, false) else Success(false)
  }

  /** What `ResultsRow.__getitem__` is given: an object with a `__name__`, or a plain key. */
  datatype Key = Named(fn: Callable) | Plain(name: string)

  /** The key an item is looked up under: an object's `__name__`, or the item itself. */
  function KeyName(item: Key): string {
    match item
    case Named(fn) => fn.name
    case Plain(name) => name
  }

  /** `ResultsRow.__getitem__`: an object with `__name__` is looked up by that name; a missing key raises `KeyError`. */
  function GetResult(r: ResultsRow, item: Key): (v: Result<bool, string>)
    ensures v.Success? <==> KeyName(item) in r.row.values
    ensures v.Success? ==> v.value == r.row.values[KeyName(item)]
    ensures v.Failure? ==> v.error == KeyName(item)
  {
    if KeyName(item) in r.row.values then Success(r.row.values[KeyName(item)]) else Failure(KeyName(item))
  }

  /** `ResultsRow.__iter__`: the (name, result) pairs in insertion order. */
  function Pairs(r: ResultsRow): (ps: seq<(string, bool)>)
    requires WellFormed(r.row)
    ensures |ps| == |r.row.keys|
    ensures forall i :: 0 <= i < |ps| ==> ps[i].0 in r.row.values && ps[i].1 == r.row.values[ps[i].0]
    ensures forall k :: k in r.row.values ==> exists i :: 0 <= i < |ps| && ps[i].0 == k
    ensures forall i, j :: 0 <= i < j < |ps| ==> ps[i].0 != ps[j].0
  {
    var ps := seq(|r.row.keys|, i requires 0 <= i < |r.row.keys| => (r.row.keys[i], r.row.values[r.row.keys[i]]));
    assert forall i :: 0 <= i < |ps| ==> ps[i].0 == r.row.keys[i];
    ps
  }

  /**
    `ResultsGrid.filter` over the rows in their order: the names not
    excluded whose row matches. The first `KeyError` raised by `matches`
    escapes.
  */
  function FilterRows(rows: seq<ResultsRow>, mustPass: seq<string>, mustFail: seq<string>, exclusions: set<string>): (r: Result<set<string>, string>)
    ensures r.Success? ==> forall t :: t in r.value <==>
              exists i :: 0 <= i < |rows| && rows[i].testName == t && t !in exclusions && Matches(rows[i], mustPass, mustFail) == Success(true)
    ensures r.Failure? ==> (r.error in mustPass || r.error in mustFail) &&
                           exists i :: 0 <= i < |rows| && r.error !in rows[i].row.values
    ensures (forall i, n :: 0 <= i < |rows| && n in mustPass + mustFail ==> n in rows[i].row.values) ==> r.Success?
  {
    if rows == [] then Success({})
    else
      var rest := FilterRows(rows[1..], mustPass, mustFail, exclusions);
      assert forall i :: 1 <= i < |rows| ==> rows[1..][i - 1] == rows[i];
      if rows[0].testName in exclusions then rest
      else
        match Matches(rows[0], mustPass, mustFail)
        case Failure(k) => Failure(k)
        case Success(b) =>
          if rest.Failure? then rest
          else if b then Success({rows[0].testName} + rest.value)
          else rest
  }

  /** The rows of a grid built for `tests`, in insertion order. */
  function GridRows(tests: seq<string>, columns: seq<Column>): (rs: seq<ResultsRow>)
    ensures |rs| == |tests|
    ensures forall i :: 0 <= i < |tests| ==> rs[i] == ResultsRow(tests[i], RowOf(columns, tests[i]))
  {
    seq(|tests|, i requires 0 <= i < |tests| => ResultsRow(tests[i], RowOf(columns, tests[i])))
  }

  /** Test `t` passes with every version in `mustPass` and fails with every version in `mustFail`. */
  predicate Wanted(columns: seq<Column>, t: string, mustPass: seq<string>, mustFail: seq<string>) {
    forall i :: 0 <= i < |columns| ==>
      (columns[i].key in mustPass ==> t !in columns[i].failures) &&
      (columns[i].key in mustFail ==> t in columns[i].failures)
  }

  /** With distinct keys, a built row matches iff the test passes every `mustPass` version and fails every `mustFail` one. */
  lemma MatchesBuiltRow(columns: seq<Column>, t: string, mustPass: seq<string>, mustFail: seq<string>)
    requires DistinctKeys(columns)
    requires forall n :: n in mustPass + mustFail ==> exists i :: 0 <= i < |columns| && columns[i].key == n
    ensures forall n :: n in mustPass + mustFail ==> n in RowOf(columns, t).values
    ensures Matches(ResultsRow(t, RowOf(columns, t)), mustPass, mustFail) == Success(Wanted(columns, t, mustPass, mustFail))
  {
    var values := RowOf(columns, t).values;
    forall i | 0 <= i < |columns|
      ensures columns[i].key in values && values[columns[i].key] == (t !in columns[i].failures)
    {
      RowOfValue(columns, t, i);
    }
    forall n | n in mustPass + mustFail
      ensures n in values
    {
      var i :| 0 <= i < |columns| && columns[i].key == n;
    }
    forall p | p in mustPass
      ensures exists i :: 0 <= i < |columns| && columns[i].key == p
    {
      assert p in mustPass + mustFail;
    }
    forall f | f in mustFail
      ensures exists i :: 0 <= i < |columns| && columns[i].key == f
    {
      assert f in mustPass + mustFail;
    }
  }

  /**
    `filter` on a grid built with distinct keys, asked only about known
    versions: exactly the test cases, not excluded, that pass every
    `mustPass` version and fail every `mustFail` one.
  */
  lemma FilterBuiltGrid(tests: seq<string>, columns: seq<Column>, mustPass: seq<string>, mustFail: seq<string>, exclusions: set<string>)
    requires DistinctKeys(columns)
    requires forall n :: n in mustPass + mustFail ==> exists i :: 0 <= i < |columns| && columns[i].key == n
    ensures FilterRows(GridRows(tests, columns), mustPass, mustFail, exclusions).Success?
    ensures forall t :: t in FilterRows(GridRows(tests, columns), mustPass, mustFail, exclusions).value <==>
              t in tests && t !in exclusions && Wanted(columns, t, mustPass, mustFail)
  {
    var rows := GridRows(tests, columns);
    forall i | 0 <= i < |rows|
      ensures Matches(rows[i], mustPass, mustFail) == Success(Wanted(columns, tests[i], mustPass, mustFail))
      ensures forall n :: n in mustPass + mustFail ==> n in rows[i].row.values
    {
      MatchesBuiltRow(columns, tests[i], mustPass, mustFail);
    }
    var r := FilterRows(rows, mustPass, mustFail, exclusions);
    assert r.Success?;
    forall t
      ensures t in r.value <==> t in tests && t !in exclusions && Wanted(columns, t, mustPass, mustFail)
    {
      if t in r.value {
        var i :| 0 <= i < |rows| && rows[i].testName == t && t !in exclusions && Matches(rows[i], mustPass, mustFail) == Success(true);
        assert tests[i] == t;
      }
      if t in tests && t !in exclusions && Wanted(columns, t, mustPass, mustFail) {
        var i :| 0 <= i < |tests| && tests[i] == t;
        assert rows[i].testName == t;
      }
    }
  }

  /** The cell for test `t` and function `f`, looked up by the function object: true iff `t` is not among `f`'s failures. */
  lemma GetByFunction(functions: seq<Callable>, modules: seq<string>, functionFailures: Callable -> set<string>,
                      moduleFailures: string -> set<string>, t: string, i: nat)
    requires i < |functions|
    requires DistinctKeys(Columns(functions, modules, functionFailures, moduleFailures))
    ensures var v := GetResult(ResultsRow(t, RowOf(Columns(functions, modules, functionFailures, moduleFailures), t)), Named(functions[i]));
            v.Success? && v.value == (t !in functionFailures(functions[i]))
  {
    RowOfValue(Columns(functions, modules, functionFailures, moduleFailures), t, i);
  }

  /** The cell for test `t` and module `m`: true iff `t` is not among `m`'s failures. */
  lemma GetByModule(functions: seq<Callable>, modules: seq<string>, functionFailures: Callable -> set<string>,
                    moduleFailures: string -> set<string>, t: string, i: nat)
    requires i < |modules|
    requires DistinctKeys(Columns(functions, modules, functionFailures, moduleFailures))
    ensures var v := GetResult(ResultsRow(t, RowOf(Columns(functions, modules, functionFailures, moduleFailures), t)), Plain(modules[i]));
            v.Success? && v.value == (t !in moduleFailures(modules[i]))
  {
    RowOfValue(Columns(functions, modules, functionFailures, moduleFailures), t, |functions| + i);
  }

  class ResultsGrid {
    var mockNames: seq<string>
    /** The test names in insertion order, the keys of `results`. */
    var order: seq<string>
    var results: map<string, ResultsRow>

    ghost predicate Valid()
      reads this
    {
      Distinct(order) &&
      (forall t :: t in results <==> t in order) &&
      forall t :: t in results ==> results[t].testName == t && WellFormed(results[t].row)
    }

    /** `ResultsGrid.__init__`, with each version's failure set given. */
    constructor(testcases: seq<string>, functions: seq<Callable>, modules: seq<string>,
                functionFailures: Callable -> set<string>, moduleFailures: string -> set<string>)
      requires Distinct(testcases)
      ensures Valid()
      ensures order == testcases
      ensures var columns := Columns(functions, modules, functionFailures, moduleFailures);
                (forall t :: t in results ==> results[t] == ResultsRow(t, RowOf(columns, t))) &&
                mockNames == MockNames(columns, |testcases|)
    {
      var columns := Columns(functions, modules, functionFailures, moduleFailures);
      var rows, names := BuildRows(testcases, columns);
      mockNames := names;
      order := testcases;
      results := map t | t in rows.Keys :: ResultsRow(t, rows[t]);
    }

    /** `get_mock_names` */
    function GetMockNames(): (r: set<string>)
      reads this
      ensures forall x :: x in r <==> x in mockNames
    {
      set x | x in mockNames
    }

    /** `__len__`: the number of test cases. */
    function Length(): (n: nat)
      reads this
      requires Valid()
      ensures n == |order|
    {
      assert results.Keys == set t | t in order;
      DistinctCard(order);
      |results|
    }

    /** `__iter__`: the rows in insertion order. */
    function Rows(): (rs: seq<ResultsRow>)
      reads this
      requires Valid()
      ensures |rs| == |order| && forall i :: 0 <= i < |order| ==> rs[i] == results[order[i]]
    {
      seq(|order|, i requires 0 <= i < |order| && order[i] in results reads this => results[order[i]])
    }

    /** `__getitem__`: a missing test name raises `KeyError`. */
    function Get(name: string): (r: Result<ResultsRow, string>)
      reads this
      ensures r.Success? <==> name in results
    {
      if name in results then Success(results[name]) else Failure(name)
    }

    /** `filter` */
    function Filter(mustPass: seq<string>, mustFail: seq<string>, exclusions: set<string>): (r: Result<set<string>, string>)
      reads this
      requires Valid()
      ensures r.Success? ==> r.value <= results.Keys
    {
      FilterRows(Rows(), mustPass, mustFail, exclusions)
    }
  }

  /** The keys of `cases` that are not in `ex`, in their order. */
  function Without(cases: seq<string>, ex: seq<string>): (r: seq<string>)
    ensures forall x :: x in r <==> x in cases && x !in ex
  {
    if cases == [] then []
    else
      var rest := Without(cases[1..], ex);
      assert forall x :: x in cases <==> x == cases[0] || x in cases[1..];
      if cases[0] in ex then rest else [cases[0]] + rest
  }

  /** Removing keys keeps distinct keys distinct. */
  lemma {:induction false} WithoutDistinct(cases: seq<string>, ex: seq<string>)
    requires Distinct(cases)
    ensures Distinct(Without(cases, ex))
  {
    if cases != [] {
      WithoutDistinct(cases[1..], ex);
      var rest := Without(cases[1..], ex);
      assert cases[0] !in cases[1..];
      if cases[0] !in ex {
        var r := [cases[0]] + rest;
        forall i, j | 0 <= i < j < |r| ensures r[i] != r[j] {
          assert r[j] == rest[j - 1] && r[j] in cases[1..];
          if i > 0 {
            assert r[i] == rest[i - 1];
          }
        }
      }
    }
  }

  lemma {:induction false} WithoutMore(cases: seq<string>, ex: seq<string>, e: string)
    ensures Without(Without(cases, ex), [e]) == Without(cases, ex + [e])
  {
    if cases != [] {
      WithoutMore(cases[1..], ex, e);
      assert cases[0] in ex + [e] <==> cases[0] in ex || cases[0] == e;
    }
  }

  /**
    The fixture's `test_cases.pop(exclusion)` for each exclusion in turn: the
    first exclusion that is not a test case raises `KeyError`.
  */
  method PopExclusions(cases: seq<string>, exclusions: seq<string>) returns (r: Result<seq<string>, string>)
    requires Distinct(exclusions)
    ensures r.Success? <==> forall e :: e in exclusions ==> e in cases
    ensures r.Success? ==> r.value == Without(cases, exclusions)
    ensures r.Failure? ==> exists i :: 0 <= i < |exclusions| && exclusions[i] == r.error && r.error !in cases &&
                             forall j :: 0 <= j < i ==> exclusions[j] in cases
  {
    var remaining := cases;
    WithoutNone(cases);
    for i := 0 to |exclusions|
      invariant remaining == Without(cases, exclusions[..i])
      invariant forall j :: 0 <= j < i ==> exclusions[j] in cases
    {
      var e := exclusions[i];
      if e !in remaining {
        PopMissing(cases, exclusions, i);
        return Failure(e);
      }
      PopStep(cases, exclusions, i);
      remaining := Without(remaining, [e]);
    }
    assert exclusions[..|exclusions|] == exclusions;
    return Success(remaining);
  }

  /** With distinct exclusions, one that is no longer among the remaining cases never was a case. */
  lemma PopMissing(cases: seq<string>, exclusions: seq<string>, i: nat)
    requires Distinct(exclusions) && i < |exclusions| && exclusions[i] !in Without(cases, exclusions[..i])
    ensures exclusions[i] !in cases
  {
    assert exclusions[i] !in exclusions[..i];
  }

  /** Popping exclusion `i` after the ones before it removes the first `i + 1` exclusions. */
  lemma PopStep(cases: seq<string>, exclusions: seq<string>, i: nat)
    requires i < |exclusions|
    ensures Without(Without(cases, exclusions[..i]), [exclusions[i]]) == Without(cases, exclusions[..i + 1])
  {
    assert exclusions[..i + 1] == exclusions[..i] + [exclusions[i]];
    WithoutMore(cases, exclusions[..i], exclusions[i]);
  }

  lemma {:induction false} WithoutNone(cases: seq<string>)
    ensures Without(cases, []) == cases
  {
    if cases != [] {
      WithoutNone(cases[1..]);
    }
  }

  /** The fixture body: pop the exclusions, then build the grid from the remaining test cases. */
  method MakeResults(cases: seq<string>, exclusions: seq<string>, functions: seq<Callable>, modules: seq<string>,
                     functionFailures: Callable -> set<string>, moduleFailures: string -> set<string>)
    returns (r: Result<ResultsGrid, string>)
    requires Distinct(cases) && Distinct(exclusions)
    ensures r.Success? <==> forall e :: e in exclusions ==> e in cases
    ensures r.Success? ==> r.value.Valid() && r.value.order == Without(cases, exclusions)
    ensures r.Success? ==>
              var columns := Columns(functions, modules, functionFailures, moduleFailures);
              (forall t :: t in r.value.results ==> r.value.results[t] == ResultsRow(t, RowOf(columns, t))) &&
              r.value.mockNames == MockNames(columns, |Without(cases, exclusions)|)
  {
    var remaining := PopExclusions(cases, exclusions);
    if remaining.Failure? {
      return Failure(remaining.error);
    }
    WithoutDistinct(cases, exclusions);
    var grid := new ResultsGrid(remaining.value, functions, modules, functionFailures, moduleFailures);
    return Success(grid);
  }
}
