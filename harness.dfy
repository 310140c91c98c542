/**
  The pure parts of `c_helper`'s test harness: the pass/fail verdicts of the
  tests made by `simple_test` and `substr_test`, the argument vectors handed to
  `ltrace` and `gcc`, and the executable name `setUpClass` falls back to.
*/
module CHarness {
  import opened Wrappers
  import opened PyStr

  const DefaultLtraceLogFile: string := "ltrace_log.txt"
  const DefaultGccFlags: seq<string> := ["-std=gnu99", "-Wall", "-g"]
  const DefaultLtraceFlags: seq<string> := ["-f", "-n", "2", "-o", DefaultLtraceLogFile]

  /** What one run of the executable produced. */
  datatype RunResult = RunResult(stdout: string, stderr: string, status: int)

  /** The expectations of a generated test; `None` means "do not test". */
  datatype Expected = Expected(stdout: Option<string>, stderr: Option<string>, status: Option<int>)

  /** The outcome of a generated test: it passes, or the first assertion that fails. */
  datatype Verdict = Pass | StderrMismatch | StdoutMismatch | StatusMismatch

  function RStripIf(on: bool, s: string): string {
    if on then RStrip(s) else s
  }

  /** The `stderr` assertion of `simple_test`, after the optional right-strip. */
  predicate SimpleStderrOk(expected: string, stdout: string, stderr: string, stderrRelax: bool) {
    if stderrRelax then Contains(stdout, expected) || stderr == expected else stderr == expected
  }

  /**
    The verdict of a `simple_test` test on one run: stderr, then stdout, then
    the exit status, each compared exactly (after right-stripping both sides
    when `rstrip` is set); with `stderr_relax` the expected stderr may instead
    occur anywhere in stdout.
  */
  function SimpleTestVerdict(exp: Expected, run: RunResult, rstrip: bool, stderrRelax: bool): (r: Verdict)
    ensures var stdout := RStripIf(rstrip, run.stdout);
            var stderr := RStripIf(rstrip, run.stderr);
            var stderrOk := exp.stderr.None? || SimpleStderrOk(RStripIf(rstrip, exp.stderr.value), stdout, stderr, stderrRelax);
            var stdoutOk := exp.stdout.None? || stdout == RStripIf(rstrip, exp.stdout.value);
            var statusOk := exp.status.None? || run.status == exp.status.value;
            && (r == Pass <==> stderrOk && stdoutOk && statusOk)
            && (r == StderrMismatch <==> !stderrOk)
            && (r == StdoutMismatch <==> stderrOk && !stdoutOk)
            && (r == StatusMismatch <==> stderrOk && stdoutOk && !statusOk)
  {
    var stdout := RStripIf(rstrip, run.stdout);
    var stderr := RStripIf(rstrip, run.stderr);
    if exp.stderr.Some? && !SimpleStderrOk(RStripIf(rstrip, exp.stderr.value), stdout, stderr, stderrRelax) then
      StderrMismatch
    else if exp.stdout.Some? && stdout != RStripIf(rstrip, exp.stdout.value) then StdoutMismatch
    else if exp.status.Some? && run.status != exp.status.value then StatusMismatch
    else Pass
  }

  /**
    The verdict of a `substr_test` test on one run: the right-stripped
    expected stderr and stdout must occur in the actual ones, and the exit
    status must be equal.
  */
  function SubstrTestVerdict(exp: Expected, run: RunResult): (r: Verdict)
    ensures var stderrOk := exp.stderr.None? || Contains(run.stderr, RStrip(exp.stderr.value));
            var stdoutOk := exp.stdout.None? || Contains(run.stdout, RStrip(exp.stdout.value));
            var statusOk := exp.status.None? || run.status == exp.status.value;
            && (r == Pass <==> stderrOk && stdoutOk && statusOk)
            && (r == StderrMismatch <==> !stderrOk)
            && (r == StdoutMismatch <==> stderrOk && !stdoutOk)
            && (r == StatusMismatch <==> stderrOk && stdoutOk && !statusOk)
  {
    if exp.stderr.Some? && !Contains(run.stderr, RStrip(exp.stderr.value)) then StderrMismatch
    else if exp.stdout.Some? && !Contains(run.stdout, RStrip(exp.stdout.value)) then StdoutMismatch
    else if exp.status.Some? && run.status != exp.status.value then StatusMismatch
    else Pass
  }

  /** The keyword parameters `_exec` declares. */
  const ExecKeywords: set<string> := {"input_", "timeout", "shell"}

  /** The keywords the `_t` of `simple_test` and `substr_test` hands to `_exec` through `_run_exec`. */
  const TestRunKeywords: seq<string> := ["input_", "timeout", "check"]

  /** The keywords `_exec` can take from a generated test: `check` dropped. */
  const IntendedRunKeywords: seq<string> := ["input_", "timeout"]

  /** What running a generated test does: it completes with a verdict, or the call raises `TypeError` for a keyword. */
  datatype Outcome = Completed(verdict: Verdict) | UnexpectedKeyword(keyword: string)

  /**
    Calling `_exec(args, **kwargs)`: Python raises `TypeError` for the first
    keyword `_exec` does not declare; otherwise the executable runs.
  */
  function ExecCall(keywords: seq<string>, run: RunResult): (r: Result<RunResult, string>)
    ensures r.Success? <==> forall k :: k in keywords ==> k in ExecKeywords
    ensures r.Failure? ==> r.error in keywords && r.error !in ExecKeywords
    ensures r.Success? ==> r.value == run
  {
    if keywords == [] then Success(run)
    else if keywords[0] !in ExecKeywords then Failure(keywords[0])
    else
      var r := ExecCall(keywords[1..], run);
      assert forall k :: k in keywords ==> k == keywords[0] || k in keywords[1..];
      r
  }

  /** A generated `simple_test` test, run with the keywords given. */
  function SimpleTest(keywords: seq<string>, exp: Expected, run: RunResult, rstrip: bool, stderrRelax: bool): Outcome {
    match ExecCall(keywords, run)
    case Failure(k) => UnexpectedKeyword(k)
    case Success(out) => Completed(SimpleTestVerdict(exp, out, rstrip, stderrRelax))
  }

  /** A generated `substr_test` test, run with the keywords given. */
  function SubstrTest(keywords: seq<string>, exp: Expected, run: RunResult): Outcome {
    match ExecCall(keywords, run)
    case Failure(k) => UnexpectedKeyword(k)
    case Success(out) => Completed(SubstrTestVerdict(exp, out))
  }

  /**
    As written, every test made by `simple_test` or `substr_test` raises
    `TypeError` for `check` before comparing anything, whatever the run.
  */
  lemma GeneratedTestsRaise(exp: Expected, run: RunResult, rstrip: bool, stderrRelax: bool)
    ensures SimpleTest(TestRunKeywords, exp, run, rstrip, stderrRelax) == UnexpectedKeyword("check")
    ensures SubstrTest(TestRunKeywords, exp, run) == UnexpectedKeyword("check")
  {
    assert ExecCall(TestRunKeywords[2..], run) == Failure("check");
    assert ExecCall(TestRunKeywords[1..], run) == Failure("check");
  }

  /** Without `check`, the generated tests run and give the verdicts of their assertions. */
  lemma IntendedTestsComplete(exp: Expected, run: RunResult, rstrip: bool, stderrRelax: bool)
    ensures SimpleTest(IntendedRunKeywords, exp, run, rstrip, stderrRelax) == Completed(SimpleTestVerdict(exp, run, rstrip, stderrRelax))
    ensures SubstrTest(IntendedRunKeywords, exp, run) == Completed(SubstrTestVerdict(exp, run))
  {
    assert ExecCall(IntendedRunKeywords[2..], run) == Success(run);
    assert ExecCall(IntendedRunKeywords[1..], run) == Success(run);
  }

  /** A test that expects nothing passes on every run. */
  lemma NothingExpectedPasses(run: RunResult, rstrip: bool, stderrRelax: bool)
    ensures SimpleTestVerdict(Expected(None, None, None), run, rstrip, stderrRelax) == Pass
    ensures SubstrTestVerdict(Expected(None, None, None), run) == Pass
  {
  }

  /** A run that produces exactly what is expected passes both kinds of test, whatever the options. */
  lemma ExactRunPasses(run: RunResult, rstrip: bool, stderrRelax: bool)
    ensures SimpleTestVerdict(Expected(Some(run.stdout), Some(run.stderr), Some(run.status)), run, rstrip, stderrRelax) == Pass
    ensures SubstrTestVerdict(Expected(Some(run.stdout), Some(run.stderr), Some(run.status)), run) == Pass
  {
    PrefixContained(run.stdout, RStrip(run.stdout));
    PrefixContained(run.stderr, RStrip(run.stderr));
  }

  lemma PrefixContained(s: string, p: string)
    requires p <= s
    ensures Contains(s, p)
  {
    assert s[0..|p|] == p;
    ContainsAt(s, p, 0);
  }

  /** Setting `stderr_relax` never turns a passing `simple_test` into a failing one. */
  lemma RelaxOnlyRelaxes(exp: Expected, run: RunResult, rstrip: bool)
    requires SimpleTestVerdict(exp, run, rstrip, false) == Pass
    ensures SimpleTestVerdict(exp, run, rstrip, true) == Pass
  {
  }

  /** Right-stripping keeps every character up to the last non-whitespace one. */
  lemma NonSpaceKept(s: string, k: nat)
    requires k < |s| && !IsSpace(s[k])
    ensures k < |RStrip(s)|
  {
  }

  /** A prefix of an occurrence, lying within a prefix of the text, occurs there too. */
  lemma OccursInPrefix(s: string, x: string, i: nat, t: string, y: string)
    requires OccursAt(s, x, i) && y <= x && t <= s && i + |y| <= |t|
    ensures OccursAt(t, y, i)
  {
    forall k | 0 <= k < |y| ensures t[i..i + |y|][k] == y[k] {
      assert t[i + k] == s[i + k] == s[i..i + |x|][k];
    }
  }

  /** An occurrence of `x` in `s` leaves an occurrence of the right-stripped `x` in the right-stripped `s`. */
  lemma {:induction false} ContainsRStrip(s: string, x: string)
    requires Contains(s, x)
    ensures Contains(RStrip(s), RStrip(x))
  {
    var i := FindFrom(s, x, 0).value;
    var y := RStrip(x);
    var t := RStrip(s);
    if y == [] {
      assert OccursAt(t, y, 0);
      ContainsAt(t, y, 0);
    } else {
      assert s[i..i + |x|][|y| - 1] == x[|y| - 1] == y[|y| - 1];
      NonSpaceKept(s, i + |y| - 1);
      OccursInPrefix(s, x, i, t, y);
      ContainsAt(t, y, i);
    }
  }

  /** Setting `rstrip` never turns a passing `simple_test` into a failing one. */
  lemma RStripOnlyRelaxes(exp: Expected, run: RunResult, stderrRelax: bool)
    requires SimpleTestVerdict(exp, run, false, stderrRelax) == Pass
    ensures SimpleTestVerdict(exp, run, true, stderrRelax) == Pass
  {
    if exp.stderr.Some? && stderrRelax && Contains(run.stdout, exp.stderr.value) {
      ContainsRStrip(run.stdout, exp.stderr.value);
    }
  }

  /**
    `substr_test` is the more lenient test: a run that passes `simple_test`
    without `stderr_relax` passes `substr_test` with the same expectations.
  */
  lemma SimplePassImpliesSubstrPass(exp: Expected, run: RunResult, rstrip: bool)
    requires SimpleTestVerdict(exp, run, rstrip, false) == Pass
    ensures SubstrTestVerdict(exp, run) == Pass
  {
    if exp.stderr.Some? {
      PrefixContained(run.stderr, RStrip(exp.stderr.value));
    }
    if exp.stdout.Some? {
      PrefixContained(run.stdout, RStrip(exp.stdout.value));
    }
  }

  /** The ltrace flags `_check_trace` passes: the defaults, any extra flags, and an `-e` filter when call types are set. */
  function LtraceFlags(extraFlags: Option<seq<string>>, callTypes: seq<string>): (r: seq<string>)
    ensures |r| >= |DefaultLtraceFlags| && r[..|DefaultLtraceFlags|] == DefaultLtraceFlags
    ensures callTypes == [] <==> r == DefaultLtraceFlags + extraFlags.GetOr([])
    ensures callTypes != [] ==>
      |r| == |DefaultLtraceFlags| + |extraFlags.GetOr([])| + 2 &&
      r[..|r| - 2] == DefaultLtraceFlags + extraFlags.GetOr([]) && r[|r| - 2] == "-e"
  {
    var flags := DefaultLtraceFlags + extraFlags.GetOr([]);
    if callTypes == [] then flags
    else flags + ["-e", Join(["__libc_start_main"] + callTypes, '+')]
  }

  /** The command line of the ltrace run that `_check_trace` starts. */
  function CheckTraceArgv(executableName: string, args: Option<seq<string>>, extraFlags: Option<seq<string>>,
                          callTypes: seq<string>): (r: seq<string>)
    ensures |r| == 2 + |LtraceFlags(extraFlags, callTypes)| + |args.GetOr([])|
    ensures r[0] == "ltrace" && r[1..1 + |DefaultLtraceFlags|] == DefaultLtraceFlags
    ensures r[1..1 + |LtraceFlags(extraFlags, callTypes)|] == LtraceFlags(extraFlags, callTypes)
    ensures r[|r| - |args.GetOr([])|..] == args.GetOr([])
    ensures r[|r| - |args.GetOr([])| - 1] == PathJoin(".", executableName)
  {
    ["ltrace"] + LtraceFlags(extraFlags, callTypes) + [PathJoin(".", executableName)] + args.GetOr([])
  }

  /**
    The `-e` filter is a faithful encoding of the watched call types: split on
    `+` it gives back `__libc_start_main` followed by the call types, as long
    as no call type itself contains a `+`.
  */
  lemma CallTypesFilterRoundTrip(extraFlags: Option<seq<string>>, callTypes: seq<string>)
    requires callTypes != []
    requires forall k :: 0 <= k < |callTypes| ==> '+' !in callTypes[k]
    ensures var flags := LtraceFlags(extraFlags, callTypes);
      flags[|flags| - 2] == "-e" &&
      Split(flags[|flags| - 1], '+') == ["__libc_start_main"] + callTypes
  {
    var xs := ["__libc_start_main"] + callTypes;
    assert forall k :: 1 <= k < |xs| ==> xs[k] == callTypes[k - 1];
    SplitJoin(xs, '+');
  }

  /** A relative executable name is run from the current directory. */
  lemma RelativeExecutableRunsFromHere(executableName: string)
    requires executableName != [] && executableName[0] != '/'
    ensures PathJoin(".", executableName) == "./" + executableName
  {
  }

  /** The source files of a test class: a list, or a single file name. */
  datatype SourceFiles = FileList(files: seq<string>) | SingleFile(file: string) {
    /** `files = [files]` for a single name. */
    function AsList(): seq<string> {
      if FileList? then files else [file]
    }

    /** Python truthiness of `cls.source_files`. */
    predicate IsEmpty() {
      if FileList? then files == [] else file == ""
    }
  }

  /** The command line of the `gcc` run that `_compile` starts. */
  function CompileArgv(files: SourceFiles, execName: Option<string>, gccFlags: Option<seq<string>>): (r: seq<string>)
    ensures var flags := gccFlags.GetOr(DefaultGccFlags);
      && |r| >= 1 + |flags| + |files.AsList()|
      && r[..1 + |flags|] == ["gcc"] + flags
      && r[|r| - |files.AsList()|..] == files.AsList()
      && (execName.Some? && execName.value != "" ==>
            |r| == 3 + |flags| + |files.AsList()| && r[1 + |flags|] == "-o" && r[2 + |flags|] == execName.value)
      && (execName.None? || execName.value == "" ==> |r| == 1 + |flags| + |files.AsList()|)
  {
    var flags := gccFlags.GetOr(DefaultGccFlags);
    var args := ["gcc"] + flags;
    var args := if execName.Some? && execName.value != "" then args + ["-o", execName.value] else args;
    args + files.AsList()
  }

  /** `setUpClass` raises `ValueError` when a class neither uses make nor names a source file. */
  datatype SetupError = NoSourceFiles

  /**
    The executable name after `setUpClass`: without make and without an
    explicit name it is the first source file's base name without its
    extension; otherwise it is left alone.
  */
  function ExecutableName(make: bool, sources: SourceFiles, executableName: string): (r: Result<string, SetupError>)
    ensures r.Failure? <==> !make && sources.IsEmpty()
    ensures r.Success? && (make || executableName != "") ==> r.value == executableName
    ensures r.Success? && !make && executableName == "" ==>
      r.value == StripExt(Basename(sources.AsList()[0])) && '/' !in r.value
  {
    if !make && sources.IsEmpty() then Failure(NoSourceFiles)
    else if !make && executableName == "" then
      var first := if sources.FileList? then sources.files[0] else sources.file;
      var name := StripExt(Basename(first));
      assert forall j :: 0 <= j < |name| ==> name[j] == Basename(first)[j];
      Success(name)
    else Success(executableName)
  }

  /**
    The default executable name is the first source's base name cut at its
    extension's dot, or the whole base name when it has no extension.
  */
  lemma DefaultExecutableName(sources: SourceFiles)
    requires !sources.IsEmpty()
    ensures var base := Basename(sources.AsList()[0]);
            var name := ExecutableName(false, sources, "").value;
            && ((forall d :: !ExtStartsAt(base, d)) ==> name == base)
            && ((exists d :: ExtStartsAt(base, d)) ==> name == base[..|name|] && ExtStartsAt(base, |name|))
  {
    StripExtOfName(Basename(sources.AsList()[0]));
  }

  /** The base name of `dir/file` (or of `file` alone) is `file` when `file` has no `/`. */
  lemma BasenameOfJoined(dir: string, file: string)
    requires '/' !in file
    ensures Basename((if dir == "" then "" else dir + "/") + file) == file
  {
    if dir != "" {
      var path := dir + "/" + file;
      LastIndexOfAppend(dir + "/", file, '/');
      assert path[|dir| + 1..] == file;
    }
  }

  /** Removing the extension of `stem.c` gives `stem` when the stem is plain. */
  lemma StripExtOfC(stem: string)
    requires stem != [] && '/' !in stem && '.' !in stem
    ensures StripExt(stem + ".c") == stem
  {
    var file := stem + ".c";
    assert file == (stem + ".") + "c";
    LastIndexOfAppend(stem + ".", "c", '.');
    assert (stem + ".")[|stem|] == '.';
    LastIndexOfAppend(stem, ".c", '/');
    assert file[0..|stem|] == stem;
    assert file[0..|stem|][0] == stem[0];
  }

  /** For `dir/stem.c` (or `stem.c`) with a plain stem, the default executable is `stem`. */
  lemma DefaultNameOfCSource(dir: string, stem: string)
    requires stem != [] && '/' !in stem && '.' !in stem
    ensures var path := (if dir == "" then "" else dir + "/") + stem + ".c";
      ExecutableName(false, FileList([path]), "") == Success(stem)
  {
    var file := stem + ".c";
    assert '/' !in file by {
      forall j | 0 <= j < |file| ensures file[j] != '/' {
        if j < |stem| { assert file[j] == stem[j]; }
      }
    }
    assert (if dir == "" then "" else dir + "/") + stem + ".c" == (if dir == "" then "" else dir + "/") + file;
    BasenameOfJoined(dir, file);
    StripExtOfC(stem);
  }
}
