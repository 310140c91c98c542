# autotest-helpers, modelled in Dafny

This project models the deterministic core of the autotest-helpers
repository, a set of helpers used to write automated tests for student
code, and proves properties of that model. It covers seven pieces.

- **c_helper** (`ltrace.dfy`, `harness.dfy`):
  - the ltrace log classifier `run_through_regexes` and its ordered table `regex_dict`;
  - the parse loop of `Trace.__init__`, which builds `lines` and the per-pid `process_log`;
  - the queries `get_status` and `lines_for_pid`;
  - the pass/fail verdicts of the tests made by `simple_test` and `substr_test`, and the `TypeError` those tests raise as written (see "Findings");
  - the argument vectors of `_check_trace` and `_compile`;
  - the executable name `setUpClass` falls back to.
- **code_properties** (`dep_graph.dfy`, `code_properties.dfy`):
  - the `ASTParser` that records each function's and method's direct dependencies, including inherited methods whose dependencies are renamed to the subclass;
  - the fixpoint closure `get_dependencies`;
  - the queries `get_recursive`, `get_unimplemented`, `get_functions_using`, `get_functions_that_call` and `is_unimplemented`.
- **Notebook merger** (`merger.dfy`): `merge`, `check`, and the format assertions of `_load_notebook`.
- **pytest notebook collector** (`collector.dfy`):
  - the `PYTEST_VERSION` parse;
  - `IpynbFile.collect`, which groups test cells with the setup cells before them;
  - the skip rule of `IpynbItem.runtest`;
  - the line marking and header choice of `repr_failure`.
- **Test-results fixture** (`fixture.dfy`):
  - `ResultsGrid` and `ResultsRow` with `filter`, `matches`, `__getitem__`, `__iter__`, `__len__` and `get_mock_names`;
  - the removal of exclusions in `make_test_results_fixture`.
- **Test-case validation** (`validation.dfy`):
  - `remove_module_from_name`;
  - the naming and de-duplication in `get_test_cases`;
  - `get_failures`;
  - the message extraction of `_CaseWrapper._run`;
  - `_read_tests_as_dict`.
- **Notebook importer** (`importer.dfy`):
  - `find_notebook`;
  - the loader cache of `NotebookFinder`;
  - the `%matplotlib`/`%pylab` rewrite of `_transform_source`;
  - the cell list of `exec_module`;
  - the module name of `import_from_path`.

`util.dfy` holds shared pieces:
- `Wrappers`: Option and Result.
- `Dicts`: an insertion-ordered dictionary.
- `PyStr`: Python string and path operations with their Python semantics, including slicing with negative bounds, `find`, `replace`, `split`, `splitlines`, `strip`, `os.path.join`, `basename`, `dirname` and `splitext`. It also holds `int()` restricted to an optional sign and ASCII digits (see "Left out").

Code that works step by step is modelled by methods with loops. Each such method is proved equal to a specification function, and the properties are proved about that function. Objects whose fields the source updates are classes. These are:
- `Trace`;
- `AstParser`;
- `IpynbItem`;
- `ResultsGrid`;
- `NotebookFinder`, `NotebookLoader` and `NotebookModule`.

Everything the source takes from outside is a parameter. This covers:
- regular-expression matchers, except the ones modelled exactly;
- parsed ASTs;
- the cells of a notebook;
- the set of existing files;
- the outcome of running a test or a cell;
- IPython's cell transformer.

Paths use `/` as the separator.

Some source behaviours are modelled as written, even where they may surprise a reader:
- `remove_module_from_name` drops the first character of a name without `::`, because `find` returns -1.
- `ResultsGrid` appends each mock name once per test case, so `get_mock_names` is empty when there are no test cases.
- A pytest line whose key is already a unittest name is skipped, even when unittest cases are not allowed.
- A second notebook's cells with an already-seen id are all appended by the final pass of `merge`, because that loop does not add to `seen_ids`.

## Model

| member | source | states |
|---|---|---|
| Ltrace.StripArrow | c_helper/c_helper/__init__.py:333-336 | Without `->` the field is unchanged. Otherwise it is exactly the text after the first `->`. |
| Ltrace.Pad | c_helper/c_helper/__init__.py:341-342 | The groups are kept in order and padded with `None` up to four fields. |
| Ltrace.Normalize | c_helper/c_helper/__init__.py:325-344 | Fewer than three groups is the `ValueError`. Otherwise the record has the pid, the arrow-stripped name, the other groups and `None` padding, and it is tagged with the pattern's kind. |
| Ltrace.ClassifyFirstMatch | c_helper/c_helper/__init__.py:319-345 | The earliest matching pattern in table order decides the result. |
| Ltrace.ClassifyNoMatch | c_helper/c_helper/__init__.py:319-323 | A line is unmatched exactly when no pattern of the table matches it. |
| Ltrace.RegexDictClassify | c_helper/c_helper/__init__.py:18-24 | With the five patterns of `regex_dict`, no line raises. Every match returns five entries: the record's four fields, with an all-digit pid, a name and arguments, and then its kind tag. |
| Ltrace.ClassifyingPattern | c_helper/c_helper/__init__.py:319-345 | Every matched or raising line names the pattern that decided it. |
| Ltrace.RunThroughRegexes | c_helper/c_helper/__init__.py:317-347 | The loop with early return computes the classification: first match wins, or no match. |
| Ltrace.FirstPid | c_helper/c_helper/__init__.py:277 | `([0-9]+)\s*.` yields an all-digit prefix shorter than the line. |
| Ltrace.DigitPrefix | c_helper/c_helper/__init__.py:277 | This is the greedy `[0-9]+`: the longest prefix of digits. |
| Ltrace.FirstPidWithoutNewline | c_helper/c_helper/__init__.py:276-281 | On a line without a newline, the first-line check passes iff the line starts with a digit and has at least two characters. |
| Ltrace.CallOf | c_helper/c_helper/__init__.py:289 | The `process_log` entry is the record without its pid, with its kind kept. |
| Ltrace.ParseLines | c_helper/c_helper/__init__.py:283-289 | The only failure is the arity error. The kept records are at most one per line, well formed, and each has a pid. |
| Ltrace.UnmatchedLineAddsNothing | c_helper/c_helper/__init__.py:285-286 | A line that matches no pattern adds nothing to `lines`. |
| Ltrace.RegexDictParses | c_helper/c_helper/__init__.py:283-289 | With `regex_dict`, parsing any log succeeds. |
| Ltrace.GroupByPidBuckets | c_helper/c_helper/__init__.py:287-289 | A pid has a bucket iff some kept record has that pid. The bucket holds exactly that pid's calls, in input order. |
| Ltrace.GroupByPidTotal | c_helper/c_helper/__init__.py:283-289 | The bucket sizes sum to the number of kept records. |
| Ltrace.GroupByPidCallsWellFormed | c_helper/c_helper/__init__.py:289 | Every call in every bucket has a name, arguments and a return slot. |
| Ltrace.ParseLinesSnoc | c_helper/c_helper/__init__.py:283-289 | One more line extends the parse: an error stays, a kept record is appended, and anything else is skipped. |
| Ltrace.GroupByPidSnoc | c_helper/c_helper/__init__.py:289 | A new record appends its call to its own pid's bucket and leaves the other buckets unchanged. |
| Ltrace.ParseLinesFailureSticks | c_helper/c_helper/__init__.py:283-289 | Once a prefix of the log fails, the whole log fails. |
| Ltrace.CallsNamed | c_helper/c_helper/__init__.py:314 | The result keeps the original order and holds exactly the calls with that name, with their multiplicities. |
| Ltrace.FirstExited | c_helper/c_helper/__init__.py:296-297 | The result is the index of the first call whose name contains `exited`, or none if no call's name does. |
| Ltrace.StatusOf | c_helper/c_helper/__init__.py:298 | The result is the integer value of the last whitespace-separated token. No token, or a token that is not an integer, is an error. |
| Ltrace.Trace.constructor | c_helper/c_helper/__init__.py:271-275 | The trace starts with no records and an empty `process_log`. |
| Ltrace.Trace.Append | c_helper/c_helper/__init__.py:287-289 | One kept record is appended to `lines`, and its call is appended to its pid's bucket. |
| Ltrace.Trace.Parse | c_helper/c_helper/__init__.py:283-289 | The loop fails iff the parse of the log fails. Otherwise `lines` is exactly the parse and `process_log` stays its grouping by pid. |
| Ltrace.Trace.GetStatus | c_helper/c_helper/__init__.py:291-298 | The result is `None` for an unknown pid or when no call contains `exited`. Otherwise it is the status of the first such call. |
| Ltrace.Trace.LinesForPid | c_helper/c_helper/__init__.py:300-314 | The result is `[]` for an unknown pid and the whole history for an empty match. Otherwise it is exactly the calls with that name, in order. |
| Ltrace.NewTrace | c_helper/c_helper/__init__.py:260-289 | Construction fails iff a log of more than one line has a bad first line, or a line raises. On success, `lines` is the parse of the log and `process_log` is its grouping by pid. |
| CHarness.SimpleTestVerdict | c_helper/c_helper/__init__.py:129-156 | The test passes iff the stderr check, the stdout check and the status check all hold. Each check holds when nothing is expected for it. A failure names the first check that fails, in the order stderr, stdout, status. With `rstrip` both sides are right-stripped. With `stderr_relax` the expected stderr may instead occur in stdout. |
| CHarness.SubstrTestVerdict | c_helper/c_helper/__init__.py:184-197 | The test passes iff the right-stripped expected stderr and stdout occur in the actual ones and the status is equal. A failure names the first check that fails, in the order stderr, stdout, status. |
| CHarness.ExecCall | c_helper/c_helper/__init__.py:84-86 | Forwarding keywords to `_exec` succeeds iff every keyword is one `_exec` declares, and then the run's result is returned. Otherwise it fails with a keyword `_exec` does not declare. |
| CHarness.GeneratedTestsRaise | c_helper/c_helper/__init__.py:130 | As written, every generated `simple_test` and `substr_test` test raises `TypeError` for `check`, whatever the expectations and the run. |
| CHarness.IntendedTestsComplete | c_helper/c_helper/__init__.py:129-156 | Without `check`, a generated test completes with exactly the verdict of its assertions. |
| CHarness.NothingExpectedPasses | c_helper/c_helper/__init__.py:143-156 | With nothing expected, both kinds of test pass. |
| CHarness.ExactRunPasses | c_helper/c_helper/__init__.py:129-156 | Expecting exactly what the run produced passes both kinds of test, with any `rstrip` and `stderr_relax` setting. |
| CHarness.RelaxOnlyRelaxes | c_helper/c_helper/__init__.py:143-150 | `stderr_relax` never turns a pass into a failure. |
| CHarness.RStripOnlyRelaxes | c_helper/c_helper/__init__.py:135-153 | `rstrip` never turns a pass into a failure. |
| CHarness.SimplePassImpliesSubstrPass | c_helper/c_helper/__init__.py:184-197 | A `simple_test` pass is also a `substr_test` pass. |
| CHarness.LtraceFlags | c_helper/c_helper/__init__.py:219-227 | The defaults come first. `-e` is added exactly when call types are given, and then the flags are the defaults, the extra flags, `-e` and the filter, in that order. |
| CHarness.CallTypesFilterRoundTrip | c_helper/c_helper/__init__.py:223-227 | The `-e` argument splits on `+` back into `__libc_start_main` followed by the call types. |
| CHarness.CheckTraceArgv | c_helper/c_helper/__init__.py:218-229 | The argv is `ltrace`, then exactly the flags of `LtraceFlags` (extra flags and `-e` included), then `./name`, then the arguments. |
| CHarness.RelativeExecutableRunsFromHere | c_helper/c_helper/__init__.py:229 | A relative executable name is run as `./name`. |
| CHarness.CompileArgv | c_helper/c_helper/__init__.py:456-465 | The argv is `gcc`, then the flags (the defaults when none are given), then `-o name` only for a non-empty name, then the files. |
| CHarness.ExecutableName | c_helper/c_helper/__init__.py:49-61 | Without `make` and without sources the result is the `ValueError`. An explicit name is kept. Otherwise the name is `splitext` of the first source's base name, with no slash. |
| CHarness.DefaultExecutableName | c_helper/c_helper/__init__.py:56-61 | The default name is the whole base name when it has no extension. Otherwise it is the base name cut at the dot that starts its extension. |
| PyStr.StripExtOfName | c_helper/c_helper/__init__.py:61 | On a name without `/`, `splitext` keeps the name iff it has no extension. An extension starts at the last dot, provided the characters before that dot are not all dots. Otherwise it removes exactly the extension. |
| CHarness.DefaultNameOfCSource | c_helper/c_helper/__init__.py:56-61 | `dir/prog.c` yields `prog`. |
| DepGraph.Step | python_helper/python_helper/code_properties.py:223-229 | One sweep only adds names and keeps the keys. |
| DepGraph.Close | python_helper/python_helper/code_properties.py:214-234 | The closure keeps every direct dependency and is transitively closed. |
| DepGraph.StepMissing | python_helper/python_helper/code_properties.py:231-234 | A sweep that changes the map strictly shrinks the set of missing pairs. This makes the recursion terminate. |
| DepGraph.ClosedIsFixpoint | python_helper/python_helper/code_properties.py:231-232 | A closed map is returned unchanged. |
| DepGraph.FixpointIsClosed | python_helper/python_helper/code_properties.py:231-232 | A map the sweep does not change is closed. |
| DepGraph.CloseNames | python_helper/python_helper/code_properties.py:214-234 | Closing introduces no new names. |
| DepGraph.CloseLeast | python_helper/python_helper/code_properties.py:214-234 | The closure lies below every closed map above the input. |
| DepGraph.CloseIdempotent | python_helper/python_helper/code_properties.py:214-234 | Closing twice is closing once. |
| DepGraph.CloseSandwich | python_helper/python_helper/code_properties.py:233-234 | A map between the input and its closure has the same closure. |
| DepGraph.MutualCallsAreRecursive | python_helper/python_helper/code_properties.py:236-257 | Two functions that call each other each depend on themselves after closing. |
| CodeProperties.IsImplemented | python_helper/python_helper/code_properties.py:51-56 | A function is unimplemented iff every body statement is a constant expression or `pass`. |
| CodeProperties.UsesAst | python_helper/python_helper/code_properties.py:44-49 | The result is true iff some body statement is an instance of a listed node type. |
| CodeProperties.UsesAstMonotone | python_helper/python_helper/code_properties.py:44-49 | No check set gives false, and more checks never lose a use. |
| CodeProperties.KeyJoin | python_helper/python_helper/code_properties.py:173 | The key of method `m` of class `C` is `C.m`. |
| CodeProperties.SplitKey | python_helper/python_helper/code_properties.py:281-282 | Splitting a method key gives back the class and the method. |
| CodeProperties.KeyInjective | python_helper/python_helper/code_properties.py:173 | Different classes or methods give different keys. |
| CodeProperties.ClassUnimplemented | python_helper/python_helper/code_properties.py:91-97 | `C.m` is listed exactly for the unimplemented methods of `C`. |
| CodeProperties.MethodDepsQualified | python_helper/python_helper/code_properties.py:182-190 | A method's call to `x` is recorded as `C.x`. |
| CodeProperties.AfterMethodsAt | python_helper/python_helper/code_properties.py:169-190 | After the method pass, `C.m` holds its prior set plus the called functions plus `C.x` for each called method. |
| CodeProperties.AfterMethodsElsewhere | python_helper/python_helper/code_properties.py:169-190 | The method pass leaves other keys unchanged. |
| CodeProperties.AstParser.constructor | python_helper/python_helper/code_properties.py:116-120 | The parser starts with no functions, classes or dependencies. |
| CodeProperties.AstParser.VisitFunctionDef | python_helper/python_helper/code_properties.py:148-150 | A function is recorded under its name, replacing an earlier one. |
| CodeProperties.AstParser.VisitClassDef | python_helper/python_helper/code_properties.py:143-146 | A class is recorded under its name. Its first insertion fixes its position in the class order. |
| CodeProperties.AstParser.AddFunctionDependencies | python_helper/python_helper/code_properties.py:159-167 | The function pass gives each function its called functions and method names. |
| CodeProperties.AstParser.AddMethodDependencies | python_helper/python_helper/code_properties.py:169-190 | The method pass gives each `C.m` its calls, with method calls prefixed by `C.`. |
| CodeProperties.AstParser.UpdateDependencies | python_helper/python_helper/code_properties.py:152-212 | The function, method and inheritance passes run. Every new key resolves to a function or method. The result is a `KeyError` iff some base class was not parsed. |
| CodeProperties.AstParser.Parse | python_helper/python_helper/code_properties.py:122-141 | Parsing visits the definitions in order and then updates the dependencies, with the same error condition. |
| CodeProperties.AstParser.GetDependencies | python_helper/python_helper/code_properties.py:214-234 | Without `indirect` the result is the direct map. Otherwise it is the closure of the given map, or of the direct one. |
| CodeProperties.AstParser.GetRecursive | python_helper/python_helper/code_properties.py:236-257 | The result is the self-dependent keys, plus, with `indirect`, every key that depends on one of them in the closed map. |
| CodeProperties.AstParser.GetUnimplemented | python_helper/python_helper/code_properties.py:259-271 | The result is the unimplemented functions and `C.m` for each unimplemented method. |
| CodeProperties.AstParser.GetFunctionsUsing | python_helper/python_helper/code_properties.py:273-297 | The result is a `KeyError` or unpack error iff some key does not resolve. Otherwise it is the direct users, plus, with `indirect`, the keys whose closed dependencies meet them. |
| CodeProperties.UnimplementedFunctionsOf | python_helper/python_helper/code_properties.py:262-265 | The loop collects exactly the unimplemented functions. |
| CodeProperties.UnimplementedMethodsOf | python_helper/python_helper/code_properties.py:267-269 | The loop collects exactly the unimplemented methods of all classes. |
| CodeProperties.InitiallyUsing | python_helper/python_helper/code_properties.py:279-287 | The first loop collects exactly the keys whose own body uses a listed node, and fails on the first key that does not resolve. |
| CodeProperties.FunctionPass | python_helper/python_helper/code_properties.py:160-167 | The loop computes the function pass. |
| CodeProperties.MethodPass | python_helper/python_helper/code_properties.py:170-190 | The nested loops compute the method pass. |
| CodeProperties.ClassMethodPass | python_helper/python_helper/code_properties.py:171-190 | The inner loop adds exactly the keys of one class's methods. |
| CodeProperties.FunctionsOneMore | python_helper/python_helper/code_properties.py:161-167 | One function's update is the pass with one more function done. |
| CodeProperties.MethodsOneMore | python_helper/python_helper/code_properties.py:174-190 | One method's update is the pass with one more method done. |
| CodeProperties.InheritOne | python_helper/python_helper/code_properties.py:198-212 | Copying a missing base method renames its dependencies from `P.` to `C.` and keeps the parser consistent. |
| CodeProperties.InheritMethod | python_helper/python_helper/code_properties.py:199-212 | A method that `C` lacks is copied from `P`. One that `C` already has is left untouched. |
| CodeProperties.InheritFrom | python_helper/python_helper/code_properties.py:195-212 | Afterwards every method of base `P` has a key under `C`. |
| CodeProperties.InheritFromBases | python_helper/python_helper/code_properties.py:194-212 | The loop over one class's bases raises `KeyError` naming a base iff some base was not parsed. Otherwise every base method is present under the class. |
| CodeProperties.InheritPass | python_helper/python_helper/code_properties.py:193-212 | The inheritance pass raises iff some base of some class was not parsed. Otherwise every inherited method is present. |
| CodeProperties.LookupKey | python_helper/python_helper/code_properties.py:281-283 | A method key finds its method. |
| CodeProperties.LookupFunction | python_helper/python_helper/code_properties.py:285-286 | A function name finds its function. |
| CodeProperties.NewKeysResolve | python_helper/python_helper/code_properties.py:152-212 | Every key the passes add resolves to a function or a method. |
| CodeProperties.CloseKeys | python_helper/python_helper/code_properties.py:214-234 | The closure has the same keys as the input. |
| CodeProperties.Sweep | python_helper/python_helper/code_properties.py:221-229 | One round of the nested loops lands between the input and its closure. An unchanged round means the input was closed. |
| CodeProperties.SweepKey | python_helper/python_helper/code_properties.py:225-229 | After the inner loops for key `f`, every dependency's original set is included in `f`'s set. |
| CodeProperties.Closure | python_helper/python_helper/code_properties.py:214-234 | Recursing until nothing changes yields the closure. |
| CodeProperties.SelfCallers | python_helper/python_helper/code_properties.py:242-245 | The loop collects exactly the keys `f` with `f` in `deps[f]`. |
| CodeProperties.Callers | python_helper/python_helper/code_properties.py:252-255 | The loop collects exactly the keys whose set meets the targets. |
| CodeProperties.RecursiveAreCallers | python_helper/python_helper/code_properties.py:250-257 | With `indirect`, the recursive names are the keys that depend on a self-dependent key. |
| CodeProperties.DirectRecursionKept | python_helper/python_helper/code_properties.py:236-257 | Every directly recursive name is also recursive with `indirect`. |
| CodeProperties.CallersGrowWithClosure | python_helper/python_helper/code_properties.py:403-407 | Closing never removes a caller. |
| CodeProperties.CallersOfClosed | python_helper/python_helper/code_properties.py:403-407 | In a closed map, a caller of a caller is a caller. |
| CodeProperties.UnimplementedFunctionExact | python_helper/python_helper/code_properties.py:259-271 | A function is listed iff it is unimplemented. |
| CodeProperties.UnimplementedMethodExact | python_helper/python_helper/code_properties.py:259-271 | `C.m` is listed iff method `m` of `C` is unimplemented. |
| CodeProperties.IsUnimplementedName | python_helper/python_helper/code_properties.py:338-348 | For a name, the result is membership in the unimplemented set. Without one, and not given a function, it is non-emptiness of that set. |
| CodeProperties.FunctionsUsing | python_helper/python_helper/code_properties.py:273-297 | The result is always a subset of the keys. |
| CodeProperties.UsingReachesCallers | python_helper/python_helper/code_properties.py:292-297 | With `indirect`, a key that depends on a direct user is included. |
| CodeProperties.NothingUsesNoChecks | python_helper/python_helper/code_properties.py:273-297 | An empty set of node types is used by nothing. |
| CodeProperties.FunctionsThatCall | python_helper/python_helper/code_properties.py:387-409 | `f` is listed iff its dependencies, closed when `indirect`, contain a given name. |
| CodeProperties.RenamedMethodDeps | python_helper/python_helper/code_properties.py:203-207 | Renaming `P.` to `C.` in `P.m`'s own dependencies gives what `m` would have had if defined in `C`. |
| CodeProperties.RenameKeepsName | python_helper/python_helper/code_properties.py:205 | Renaming leaves a plain function name unchanged. |
| CodeProperties.RenameQualified | python_helper/python_helper/code_properties.py:205 | Renaming turns `P.x` into `C.x`. |
| Merger.LoadNotebook | notebook_helper/notebook_helper/merger/__init__.py:6-14 | Loading succeeds iff `nbformat >= 4` and `nbformat_minor >= 4`, and the notebook is returned unchanged. |
| Merger.PositionMap | notebook_helper/notebook_helper/merger/__init__.py:35 | The map has exactly the second notebook's ids as keys. |
| Merger.PositionMapLast | notebook_helper/notebook_helper/merger/__init__.py:35 | Each id maps to the 1-based position of its last occurrence. |
| Merger.ToAdd | notebook_helper/notebook_helper/merger/__init__.py:42 | For a shared id, the result is the prefix of the second notebook up to the id's last occurrence. Otherwise it is the cell itself. |
| Merger.AddNew | notebook_helper/notebook_helper/merger/__init__.py:43-46 | The output only grows at the end. |
| Merger.AddNewIds | notebook_helper/notebook_helper/merger/__init__.py:43-46 | Afterwards the ids are exactly the old ones plus those of the added cells. |
| Merger.AddNewFrom | notebook_helper/notebook_helper/merger/__init__.py:43-46 | Every output cell comes from the old output or from the cells added. |
| Merger.AddNewDistinct | notebook_helper/notebook_helper/merger/__init__.py:39-46 | Appending only unseen ids keeps the ids distinct. |
| Merger.FirstPass | notebook_helper/notebook_helper/merger/__init__.py:39-46 | The cells appended during the first notebook's pass have distinct ids. |
| Merger.Rest | notebook_helper/notebook_helper/merger/__init__.py:47-49 | The last loop appends exactly the second notebook's cells whose id is unseen. |
| Merger.AppendNew | notebook_helper/notebook_helper/merger/__init__.py:43-46 | The inner loop computes the append and keeps `seen_ids` equal to the output's ids. |
| Merger.FirstPassLoop | notebook_helper/notebook_helper/merger/__init__.py:39-46 | The first loop yields the first-pass cells, and `seen_ids` is exactly their ids. |
| Merger.AppendRest | notebook_helper/notebook_helper/merger/__init__.py:47-49 | The second loop appends exactly the second notebook's cells with unseen ids, duplicates included. |
| Merger.Merge | notebook_helper/notebook_helper/merger/__init__.py:17-50 | The merge fails iff a notebook fails to load. The result has the first notebook's metadata, format 4, and the merged cells. |
| Merger.SecondIdsKept | notebook_helper/notebook_helper/merger/__init__.py:41-49 | Every id of the second notebook is in the output. |
| Merger.ToAddIds | notebook_helper/notebook_helper/merger/__init__.py:42 | The cells to add include the cell's id and come from the second notebook or the cell itself. |
| Merger.FirstOnlyKept | notebook_helper/notebook_helper/merger/__init__.py:42-46 | A first-notebook cell whose id is not shared is in the output. |
| Merger.SharedPrefixTaken | notebook_helper/notebook_helper/merger/__init__.py:41-46 | For a shared id, every second-notebook cell up to its last match is in the output before the next first-notebook cell is handled. |
| Merger.DisjointFirstPass | notebook_helper/notebook_helper/merger/__init__.py:41-46 | With no shared id, the first pass keeps the first occurrence of each first-notebook id. |
| Merger.DisjointMerge | notebook_helper/notebook_helper/merger/__init__.py:41-49 | With no shared id, the output is the first notebook's first occurrences followed by all of the second notebook. |
| Merger.RestAll | notebook_helper/notebook_helper/merger/__init__.py:47-49 | With nothing seen, the last loop appends everything. |
| Merger.SharedInOrder | notebook_helper/notebook_helper/merger/__init__.py:71 | The sort yields exactly the shared ids, ordered by first position. |
| Merger.FirstIndex | notebook_helper/notebook_helper/merger/__init__.py:71 | `list.index` is the first position. |
| Merger.CellIds | notebook_helper/notebook_helper/merger/__init__.py:64-65 | The result is the ids of the cells, in order. |
| Merger.IdsAsSet | notebook_helper/notebook_helper/merger/__init__.py:67 | The set of the id list is the set of cell ids. |
| Merger.Check | notebook_helper/notebook_helper/merger/__init__.py:53-72 | A load failure is reported as the format error. When both notebooks load, the result is the no-shared-ids error iff the two notebooks have no cell id in common. |
| Merger.SortedUnique | notebook_helper/notebook_helper/merger/__init__.py:71 | Two orderings of the same ids, both increasing by position, are equal. |
| Merger.OrderFromEqual | notebook_helper/notebook_helper/merger/__init__.py:71 | Equal sorted lists mean every pair of shared ids is in the same relative order in both notebooks. |
| Merger.EqualFromOrder | notebook_helper/notebook_helper/merger/__init__.py:71 | The same relative order gives equal sorted lists. |
| Merger.CheckIff | notebook_helper/notebook_helper/merger/__init__.py:53-72 | The check passes iff both notebooks load, they share an id, and the shared ids appear in the same relative order in both. |
| Collector.PytestVersion | notebook_helper/notebook_helper/pytest/notebook_collector_plugin.py:15-18 | The version tuple is never empty. |
| Collector.VersionRoundTrip | notebook_helper/notebook_helper/pytest/notebook_collector_plugin.py:16 | Dotted numbers parse back to the numbers. |
| Collector.NonNumericIsOld | notebook_helper/notebook_helper/pytest/notebook_collector_plugin.py:15-21 | A non-integer component gives `(0, 0, 0)`, so the pre-7 hook is used. |
| Collector.LeadingHashes | notebook_helper/notebook_helper/pytest/notebook_collector_plugin.py:44 | `#+` consumes exactly the leading run of `#`. |
| Collector.TestName | notebook_helper/notebook_helper/pytest/notebook_collector_plugin.py:44 | A captured name starts with `test` (case-insensitive) and does not end in whitespace. |
| Collector.TestNameOfComment | notebook_helper/notebook_helper/pytest/notebook_collector_plugin.py:44 | Whitespace, hashes, whitespace, a test name and trailing whitespace capture exactly that name. |
| Collector.Pending | notebook_helper/notebook_helper/pytest/notebook_collector_plugin.py:48-56 | Pending setup cells are never test cells. |
| Collector.TestCells | notebook_helper/notebook_helper/pytest/notebook_collector_plugin.py:50-53 | The test cells are the cells with a name. |
| Collector.Collect | notebook_helper/notebook_helper/pytest/notebook_collector_plugin.py:46-56 | The loop yields one item per test cell. The items' setup and test cells, followed by the trailing setup cells, are exactly the cells. |
| Collector.ItemsCount | notebook_helper/notebook_helper/pytest/notebook_collector_plugin.py:50-56 | The items equal the test cells in number, and each carries its own test cell, in order. |
| Collector.ItemsPartition | notebook_helper/notebook_helper/pytest/notebook_collector_plugin.py:48-56 | Setup cells and test cells partition the cell list, and cells after the last test cell belong to no item. |
| Collector.ItemCellsClassified | notebook_helper/notebook_helper/pytest/notebook_collector_plugin.py:50-56 | An item's setup cells are non-test cells, and its name is its test cell's name. |
| Collector.Runnable | notebook_helper/notebook_helper/pytest/notebook_collector_plugin.py:68-72 | The runnable cells are exactly the setup cells not skipped by `markus` metadata. A missing `skip` means skip. |
| Collector.RunCells | notebook_helper/notebook_helper/pytest/notebook_collector_plugin.py:67-76 | The cells run are a prefix of the runnable cells followed by the test cell, stopping at the first that raises. `_last_cell` is the test cell iff no runnable setup cell raises. |
| Collector.RunSetup | notebook_helper/notebook_helper/pytest/notebook_collector_plugin.py:68-74 | The setup loop runs the unskipped cells in order. It either runs them all without a raise, or stops at the first one that raises, which is a setup cell. |
| Collector.IpynbItem.constructor | notebook_helper/notebook_helper/pytest/notebook_collector_plugin.py:60-65 | An item starts with no last cell. |
| Collector.IpynbItem.Runtest | notebook_helper/notebook_helper/pytest/notebook_collector_plugin.py:67-76 | `_last_cell` is set. The cells run are a non-empty prefix of the runnable setup cells followed by the test cell. Only the last of them may raise, and it raised iff the run raised. Without a raise all of them ran. `_last_cell` is the test cell iff no runnable setup cell raised. Otherwise it is the setup cell that raised, and that cell ran last. |
| Collector.ReportFrame | notebook_helper/notebook_helper/pytest/notebook_collector_plugin.py:84-86 | The frame reported is the innermost notebook frame, or the innermost frame for a `SyntaxError`. |
| Collector.MarkLinesExact | notebook_helper/notebook_helper/pytest/notebook_collector_plugin.py:87-90 | The line count is kept, and exactly the line at 0-based `err_line` gets `-> `. |
| Collector.FailureReport | notebook_helper/notebook_helper/pytest/notebook_collector_plugin.py:82-102 | With no notebook frame (and no `SyntaxError`) the report is `None`. With a frame but no last cell, the report is the "error when reporting" text. Otherwise the text starts with the header for the last cell and the exception type, and ends with `exconly()`. |
| Collector.IpynbItem.ReprFailure | notebook_helper/notebook_helper/pytest/notebook_collector_plugin.py:82-102 | The same three cases as `FailureReport`, for the item's own `_last_cell`. |
| Collector.HeaderAfterRun | notebook_helper/notebook_helper/pytest/notebook_collector_plugin.py:92-98 | After a run the header says "not executed" iff a runnable setup cell raised, and "Failure" iff none did and the error is an `AssertionError`. |
| Fixture.Columns | python_helper/python_helper/test_case_validation_fixture.py:31-49 | The columns are the functions by `__name__`, then the modules, each with its failure set. |
| Fixture.Keys | python_helper/python_helper/test_case_validation_fixture.py:31-49 | A row's keys are distinct and are exactly the columns' names. |
| Fixture.RowOf | python_helper/python_helper/test_case_validation_fixture.py:28-49 | A row is a well-formed ordered dictionary. |
| Fixture.RowOfNames | python_helper/python_helper/test_case_validation_fixture.py:37-49 | A row's keys are the column names in first-insertion order. |
| Fixture.RowOfValue | python_helper/python_helper/test_case_validation_fixture.py:38 | `grid[t][v]` is true iff `t` is not in `v`'s failures. A later column with the same name wins. |
| Fixture.MockNamesSet | python_helper/python_helper/test_case_validation_fixture.py:39 | A name is a mock name iff it is a supplied function or module name and there is at least one test case. |
| Fixture.BuildRows | python_helper/python_helper/test_case_validation_fixture.py:28-49 | The nested loops give one row per test case with the row's values, and the mock-name list as appended. |
| Fixture.FillColumn | python_helper/python_helper/test_case_validation_fixture.py:37-39 | The inner loop sets one column in every row and appends the name once per test. |
| Fixture.AllAre | python_helper/python_helper/test_case_validation_fixture.py:117-118 | `all(...)` scans the names in order. It raises `KeyError` iff a missing name comes before any name with another value. It is false iff such a name comes before any missing name. It is true iff every name is present with the wanted value. |
| Fixture.Matches | python_helper/python_helper/test_case_validation_fixture.py:110-118 | A `KeyError` arises iff the must-pass scan reaches a missing name before a false entry, or every must-pass entry is true and the must-fail scan reaches a missing name before a true entry. It then names a missing queried name. With all names present, the row matches iff every must-pass entry is true and every must-fail entry is false. |
| Fixture.GetResult | python_helper/python_helper/test_case_validation_fixture.py:120-125 | Lookup uses `__name__` when the item has one. The result is the stored value, or a `KeyError` for a missing key. |
| Fixture.Pairs | python_helper/python_helper/test_case_validation_fixture.py:127-130 | Iteration yields each key once with its value. |
| Fixture.FilterRows | python_helper/python_helper/test_case_validation_fixture.py:60-71 | The result holds exactly the non-excluded names whose row matches. It is a `KeyError` only for a queried name missing from some row. |
| Fixture.GridRows | python_helper/python_helper/test_case_validation_fixture.py:51-52 | There is one row per test case, in order. |
| Fixture.MatchesBuiltRow | python_helper/python_helper/test_case_validation_fixture.py:110-118 | On a built row, querying supplied names never raises and gives the expected pass/fail answer. |
| Fixture.FilterBuiltGrid | python_helper/python_helper/test_case_validation_fixture.py:60-71 | On a built grid, `filter` holds exactly the test cases not excluded whose results agree with the must-pass and must-fail names. |
| Fixture.GetByFunction | python_helper/python_helper/test_case_validation_fixture.py:120-125 | Looking up a row by a function object is looking it up by `__name__`, and gives whether the test passed with it. |
| Fixture.GetByModule | python_helper/python_helper/test_case_validation_fixture.py:120-125 | Looking up a row by a module name gives whether the test passed with it. |
| Fixture.ResultsGrid.constructor | python_helper/python_helper/test_case_validation_fixture.py:21-52 | There is one row per test case, in order, each the built row. The mock names are those appended. |
| Fixture.ResultsGrid.GetMockNames | python_helper/python_helper/test_case_validation_fixture.py:54-58 | The result is the set of the appended names. |
| Fixture.ResultsGrid.Length | python_helper/python_helper/test_case_validation_fixture.py:85-88 | The length is the number of test cases. |
| Fixture.ResultsGrid.Rows | python_helper/python_helper/test_case_validation_fixture.py:78-83 | Iteration yields the rows in insertion order. |
| Fixture.ResultsGrid.Get | python_helper/python_helper/test_case_validation_fixture.py:73-76 | The lookup succeeds iff the name is a test case. |
| Fixture.ResultsGrid.Filter | python_helper/python_helper/test_case_validation_fixture.py:60-71 | The result is a subset of the grid's names. |
| Fixture.Without | python_helper/python_helper/test_case_validation_fixture.py:152-154 | The result is the cases not excluded, in order and still distinct. |
| Fixture.WithoutMore | python_helper/python_helper/test_case_validation_fixture.py:153-154 | Popping one more exclusion is removing the longer list. |
| Fixture.WithoutNone | python_helper/python_helper/test_case_validation_fixture.py:152 | No exclusions leave the cases unchanged. |
| Fixture.PopExclusions | python_helper/python_helper/test_case_validation_fixture.py:152-154 | Popping succeeds iff every exclusion is a case, and the result is the remaining cases. Otherwise it is a `KeyError` for the first absent exclusion. |
| Fixture.MakeResults | python_helper/python_helper/test_case_validation_fixture.py:146-161 | The fixture fails iff an exclusion is absent. Otherwise the grid's test names are the remaining cases, in order. Each row holds every version's result for its test. The mock names are each column's name repeated once per remaining case. |
| Validation.RemoveModuleFromName | python_helper/python_helper/test_case_validation.py:122-129 | The result is the suffix after the first `::`. Without `::` it is the input minus its first character. |
| Validation.RemoveModuleRoundTrip | python_helper/python_helper/test_case_validation.py:125-129 | `path::name`, for a path without `:`, gives back `name`. |
| Validation.UnittestName | python_helper/python_helper/test_case_validation.py:152-154 | The name never grows, and an id that does not start with the module name is kept. |
| Validation.UnittestNameOfQualified | python_helper/python_helper/test_case_validation.py:153-154 | `module.rest` gives `rest`. |
| Validation.ModulePath | python_helper/python_helper/test_case_validation.py:163 | The dots become separators and `.py` is added. |
| Validation.UnitCases | python_helper/python_helper/test_case_validation.py:150-157 | The unittest dictionary is well formed. |
| Validation.AddPytest | python_helper/python_helper/test_case_validation.py:175-184 | The pytest loop keeps the dictionary well formed. |
| Validation.TestCases | python_helper/python_helper/test_case_validation.py:143-186 | The result is well formed. |
| Validation.GetTestCases | python_helper/python_helper/test_case_validation.py:132-186 | The loops compute the dictionary of cases. |
| Validation.UnitCasesKeys | python_helper/python_helper/test_case_validation.py:150-157 | The unittest keys are exactly the shortened ids. |
| Validation.UnitCasesShape | python_helper/python_helper/test_case_validation.py:155-157 | Each unittest entry is a unittest wrapper named by its key. |
| Validation.UnitCasesLast | python_helper/python_helper/test_case_validation.py:150-157 | The last id with a given short name wins. |
| Validation.AddPytestEntries | python_helper/python_helper/test_case_validation.py:171-184 | A key is added iff some collected line has `::`, has that key, and the key is not a unittest name. Entries under unittest names are untouched. |
| Validation.TestCasesKeys | python_helper/python_helper/test_case_validation.py:158-184 | Unittest keys appear iff allowed. Pytest keys appear iff allowed and not a discovered unittest name. |
| Validation.UnittestsWin | python_helper/python_helper/test_case_validation.py:179-184 | A pytest case never replaces a unittest case. |
| Validation.PytestEntry | python_helper/python_helper/test_case_validation.py:175-184 | A pytest entry wraps its line, with node id `module_path::short_name`. |
| Validation.GetFailures | python_helper/python_helper/test_case_validation.py:189-210 | The failures are exactly the keys whose run result is non-empty, a subset of the keys. |
| Validation.ExtractMessage | python_helper/python_helper/test_case_validation.py:64-75 | The message is a contiguous slice of the output, and empty only for empty output. |
| Validation.MessageBetween | python_helper/python_helper/test_case_validation.py:64-71 | The message runs from just after the newline following the identifier up to the summary separator. |
| Validation.RunMessage | python_helper/python_helper/test_case_validation.py:37-78 | A passing pytest run gives `''`. A failing one with output gives a non-empty message. A unittest result gives `''` iff its first failure, or else its first error, is empty or absent. |
| Validation.Flatten | python_helper/python_helper/test_case_validation.py:223-224 | The examples are those of all tests. |
| Validation.StrippedPairs | python_helper/python_helper/test_case_validation.py:223 | Each example gives its stripped source and want. |
| Validation.DictOfKeys | python_helper/python_helper/test_case_validation.py:223-224 | The dictionary's keys are the pairs' keys. |
| Validation.DictOfLast | python_helper/python_helper/test_case_validation.py:223-224 | The last pair with a key wins. |
| Validation.ReadTestsKeys | python_helper/python_helper/test_case_validation.py:213-224 | The keys are exactly the stripped sources of all examples. |
| Validation.ReadTestsLast | python_helper/python_helper/test_case_validation.py:223-224 | A key maps to the stripped want of its last example. |
| Importer.NotebookName | notebook_helper/notebook_helper/importer/__init__.py:42 | The notebook name has no dot and is a suffix of `fullname`. |
| Importer.NotebookNameOfDotted | notebook_helper/notebook_helper/importer/__init__.py:42 | `pkg.name` gives `name`. |
| Importer.SearchDirs | notebook_helper/notebook_helper/importer/__init__.py:43-44 | A `None` or empty path becomes `['']`. Otherwise the path is kept. |
| Importer.Candidates | notebook_helper/notebook_helper/importer/__init__.py:45-52 | For each directory in order, the candidates are `dir/name.ipynb` and then that path with `_` made spaces. |
| Importer.FirstExisting | notebook_helper/notebook_helper/importer/__init__.py:45-52 | The result is the first existing candidate, or none iff no candidate exists. |
| Importer.FirstExistingAt | notebook_helper/notebook_helper/importer/__init__.py:47-52 | The first existing candidate is the one returned. |
| Importer.FindNotebook | notebook_helper/notebook_helper/importer/__init__.py:35-52 | The loop with early return computes that search. |
| Importer.SpacedNameFound | notebook_helper/notebook_helper/importer/__init__.py:43-52 | With no path given, a dot-free name containing `_` finds the file spelled with spaces when only that file exists. |
| Importer.SubInline | notebook_helper/notebook_helper/importer/__init__.py:160 | The substitution never lengthens a line. |
| Importer.SubInlinePrefix | notebook_helper/notebook_helper/importer/__init__.py:160 | Text without whitespace passes through unchanged. |
| Importer.RewriteMagicLines | notebook_helper/notebook_helper/importer/__init__.py:157-160 | The line count is kept. Lines that are not magic are unchanged, and magic lines are rewritten. |
| Importer.MagicPrefixKept | notebook_helper/notebook_helper/importer/__init__.py:159-160 | A rewritten line keeps its `%matplotlib`/`%pylab` prefix. |
| Importer.MagicStaysMagic | notebook_helper/notebook_helper/importer/__init__.py:159-160 | A magic line stays a magic line. |
| Importer.InlineDropped | notebook_helper/notebook_helper/importer/__init__.py:159-160 | A magic word without white space followed by ` inline`, such as `%matplotlib inline`, is rewritten to the word alone. |
| Importer.TransformSource | notebook_helper/notebook_helper/importer/__init__.py:156-161 | The rewritten lines are joined and handed to the transformer. |
| Importer.LoadedCells | notebook_helper/notebook_helper/importer/__init__.py:180-187 | There is one entry per notebook cell in order, and exactly the code cells become `CodeCell`. |
| Importer.CodeCellsTransformed | notebook_helper/notebook_helper/importer/__init__.py:183-185 | A code cell carries its transformed source. |
| Importer.NotebookModule.constructor | notebook_helper/notebook_helper/importer/__init__.py:148-152 | A fresh module has its name, its file and no cells. |
| Importer.NotebookLoader.constructor | notebook_helper/notebook_helper/importer/__init__.py:142 | A loader keeps its search path. |
| Importer.NotebookLoader.CreateModule | notebook_helper/notebook_helper/importer/__init__.py:147-154 | The module's file is the notebook found for its name. |
| Importer.NotebookLoader.ExecModule | notebook_helper/notebook_helper/importer/__init__.py:176-187 | Execution fails, with the cells untouched, iff no notebook is found. Otherwise the cells are the loaded cells of the notebook read. |
| Importer.NotebookFinder.constructor | notebook_helper/notebook_helper/importer/__init__.py:194-195 | The cache starts empty. |
| Importer.NotebookFinder.FindModule | notebook_helper/notebook_helper/importer/__init__.py:197-209 | `None`, with nothing cached, iff no notebook is found. Otherwise the cached loader for that path, created on first use, so repeated calls return the same loader. |
| Importer.NotebookFinder.FindSpec | notebook_helper/notebook_helper/importer/__init__.py:211-215 | The result is `None` iff `find_module` returns `None`. Otherwise it is a spec with the name and the cached loader. A loader already cached for the path is reused and the cache is unchanged. Otherwise a fresh loader is cached for the path and nothing else changes. |
| Importer.NotebookFinder.InvalidateCaches | notebook_helper/notebook_helper/importer/__init__.py:217-218 | The cache is cleared. |
| Importer.ImportName | notebook_helper/notebook_helper/importer/__init__.py:26-27 | The module name contains no space. |
| Importer.ImportNameOfNotebook | notebook_helper/notebook_helper/importer/__init__.py:26-27 | `dir/My Book.ipynb` is imported as `My_Book`. |
| Importer.ImportFromPath | notebook_helper/notebook_helper/importer/__init__.py:25-32 | The result is no module iff the notebook is not found in its own directory. Otherwise it is a module with the mangled name, that notebook as its file, and its loaded cells. |

## Left out

- Running processes and reading files are not modelled: `ltrace`, `gcc`, `make`, `_exec`, `_exec_shell`, `ongoing_process`, the log file, `TestGenerator`, `pytest.main`, unittest loading and test execution. Their results are inputs: the decoded log lines, the run result of a test, the collected test ids and lines, the run result of a case, and whether a cell raises.
- The five ltrace patterns are matchers given as parameters. The `regex_dict` facts used are their order and their group shape: three or four groups, and a non-empty all-digit pid. Python's regex engine is not modelled. The first-line pattern `([0-9]+)\s*.`, `TEST_PATTERN` and the `re.sub` of `_transform_source` are specified by hand. `parse_arbitrary` is modelled only for that first-line pattern.
- Python's `ast` parsing, `NodeVisitor` traversal, `inspect` and `_get_path` are not modelled. Parsed functions and classes are records of names, called names and statement kinds. `deepcopy` of an inherited method becomes a copy of its record with the class set.
- The IPython shell, `compile`/`exec` of cells, `nbformat.read`, `sys.modules` registration, `_user_ns` and `get_ipython` are not modelled. Reading a notebook is a function from path to cells, and the shell's `transform_cell` is a function on text.
- Python set and dict iteration orders are sequences where the order matters: class insertion order, collected pytest lines, and the order in which `matches` meets a missing name.
- Collector.TestName: the case-insensitive `test` prefix follows Python's `(?i)` for these four letters only, including the long s `ſ`. Other Unicode case folding is not modelled.
- Importer.SubInline: `\s` is read as `str.isspace`.
- Fixture.Matches: when several queried names are missing, the name raised is the first in the given order. Python would use the set's iteration order.
- Collector.RunCells, Collector.RunSetup and Collector.IpynbItem.Runtest: whether a cell raises is a function of the cell's value, so two equal setup cells are taken to behave alike. In the notebook a cell's outcome can also depend on the state that earlier cells left behind.
- Validation.UnittestName: the contract states only that the name does not grow and that an unrelated id is kept. The shortened form is stated by `Validation.UnittestNameOfQualified` for ids of the form `module.rest`.
- PyStr.ParseInt: `int()` is modelled for an optional sign and ASCII digits only. Underscores between digits (`1_0`) and non-ASCII decimal digits, which Python accepts, are rejected here. This affects Ltrace.StatusOf, Ltrace.Trace.GetStatus and Collector.PytestVersion on such inputs only.
- Ltrace.Trace.GetStatus: the status of a process whose `exited` record has no integer last token is an error value, where the source raises `ValueError` or `IndexError`.
- `pytest_collect_file`, `simple_run`, `reportinfo`, `obj`, `run_cells`, `get_cells`, `get_doctest_dict`'s `DocTestFinder`, `_CaseWrapper.run`'s mocking and module swapping, `coverage_analysis`, `timeout`, `sql_helper` and `import_helpers` are not part of this model. They are thin wrappers over pytest, unittest, importlib or the operating system.

## Findings

| source | as written | input that shows it | evidently intended | confidence | as-written member | corrected member |
|---|---|---|---|---|---|---|
| c_helper/c_helper/__init__.py:130 | The `_t` made by `simple_test` (and the one made by `substr_test` at line 185) passes `check=check` to `_run_exec`, which forwards it to `_exec`. `_exec` (line 475) declares only `input_`, `timeout` and `shell`, so the call raises `TypeError`. | Any test made by `simple_test` or `substr_test`, on any run | The executable runs and the test's assertions decide the verdict | not executed | CHarness.GeneratedTestsRaise | CHarness.IntendedTestsComplete |
