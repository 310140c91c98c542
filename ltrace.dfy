/**
  The ltrace log classifier and parser of `c_helper`: an ordered table of five
  line patterns, the normalisation of a match into a padded field list, the
  parse loop of `Trace.__init__` that builds the flat record list and the
  per-pid call history, and the two read-only queries on a parsed trace.
*/
module Ltrace {
  import opened Wrappers
  import opened PyStr

  /** The kinds of trace line, one per pattern of `regex_dict`. */
  datatype Kind = Resumed | Unfinished | NoReturn | Special | FunctionCall {
    /** The key of the pattern in `regex_dict`, appended to each record as its kind tag. */
    function Tag(): (t: string)
      ensures t != ""
    {
      match this
      case Resumed => "resumed"
      case Unfinished => "unfinished"
      case NoReturn => "no_return"
      case Special => "special"
      case FunctionCall => "function_call"
    }
  }

  /**
    A compiled pattern, applied with `re.match` at the start of a line: the
    captured groups of a match, or `None`.
  */
  type Matcher = string -> Option<seq<string>>

  datatype Pattern = Pattern(kind: Kind, matcher: Matcher)

  /** The order of the keys of `regex_dict`. */
  const RegexDictOrder: seq<Kind> := [Resumed, Unfinished, NoReturn, Special, FunctionCall]

  /** How many groups each pattern of `regex_dict` captures. */
  function GroupCount(k: Kind): nat {
    match k
    case Resumed => 4
    case FunctionCall => 4
    case _ => 3
  }

  /**
    What the five regular expressions of `regex_dict` guarantee: they come in
    table order, each captures a fixed number of groups (three or four), and
    the first group, `([0-9]+)`, is a non-empty run of digits.
  */
  ghost predicate IsRegexDict(table: seq<Pattern>) {
    && |table| == 5
    && (forall i :: 0 <= i < 5 ==> table[i].kind == RegexDictOrder[i])
    && (forall i, line :: 0 <= i < 5 && table[i].matcher(line).Some? ==>
          |table[i].matcher(line).value| == GroupCount(table[i].kind) &&
          AllDigits(table[i].matcher(line).value[0]))
  }

  /**
    One classified line, the Python list `final_result`: the captured groups
    padded with `None` to four fields, then the kind tag.
  */
  datatype Record = Record(fields: seq<Option<string>>, kind: Kind) {
    /** The record as the Python list: the fields followed by the kind tag. */
    function AsList(): seq<Option<string>> {
      fields + [Some(kind.Tag())]
    }
  }

  /** The outcome of classifying one line. `ArityMismatch` is the `ValueError`. */
  datatype Classification = Matched(record: Record) | NoMatch | ArityMismatch {
    /** What `run_through_regexes` returns (when it does not raise). */
    function AsTuple(): seq<Option<string>>
      requires !ArityMismatch?
    {
      if Matched? then record.AsList() else [Some(""), Some(""), Some(""), Some("")]
    }
  }

  /** `text.split("->", 1)` keeping the part after the separator when there is one. */
  function StripArrow(s: string): (r: string)
    ensures !Contains(s, "->") ==> r == s
    ensures Contains(s, "->") ==>
      |r| + 2 <= |s| && r == s[|s| - |r|..] && OccursAt(s, "->", |s| - |r| - 2) &&
      forall j :: 0 <= j < |s| - |r| - 2 ==> !OccursAt(s, "->", j)
  {
    match FindFrom(s, "->", 0)
    case None => s
    case Some(i) => s[i + 2..]
  }

  /** The captured groups as list entries, padded with `None` up to four. */
  function Pad(groups: seq<string>): (fields: seq<Option<string>>)
    ensures |fields| == if |groups| < 4 then 4 else |groups|
    ensures forall k :: 0 <= k < |groups| ==> fields[k] == Some(groups[k])
    ensures forall k :: |groups| <= k < |fields| ==> fields[k] == None
  {
    seq(if |groups| < 4 then 4 else |groups|, k requires 0 <= k => if k < |groups| then Some(groups[k]) else None)
  }

  /** The normalisation `run_through_regexes` applies to the groups of a match. */
  function Normalize(groups: seq<string>, kind: Kind): (c: Classification)
    ensures c.ArityMismatch? <==> |groups| < 3
    ensures c.Matched? ==> c.record.kind == kind && |c.record.fields| == (if |groups| < 4 then 4 else |groups|)
    ensures c.Matched? ==> c.record.fields[0] == Some(groups[0]) && c.record.fields[1] == Some(StripArrow(groups[1]))
    ensures c.Matched? ==> forall k :: 2 <= k < |groups| ==> c.record.fields[k] == Some(groups[k])
    ensures c.Matched? ==> forall k :: |groups| <= k < |c.record.fields| ==> c.record.fields[k] == None
  {
    if |groups| < 3 then ArityMismatch
    else Matched(Record(Pad(groups[1 := StripArrow(groups[1])]), kind))
  }

  /** The classification of `line`: the normalised groups of the first pattern, in table order, that matches. */
  function Classify(table: seq<Pattern>, line: string): Classification
  {
    if table == [] then NoMatch
    else
      match table[0].matcher(line)
      case None => Classify(table[1..], line)
      case Some(groups) => Normalize(groups, table[0].kind)
  }

  /** First match wins: the result is decided by the earliest pattern that matches, and only by it. */
  lemma {:induction false} ClassifyFirstMatch(table: seq<Pattern>, line: string, i: nat)
    requires i < |table| && table[i].matcher(line).Some?
    requires forall j :: 0 <= j < i ==> table[j].matcher(line).None?
    ensures Classify(table, line) == Normalize(table[i].matcher(line).value, table[i].kind)
  {
    if i > 0 {
      ClassifyFirstMatch(table[1..], line, i - 1);
    }
  }

  /** A line is `NoMatch` exactly when no pattern of the table matches it. */
  lemma {:induction false} ClassifyNoMatch(table: seq<Pattern>, line: string)
    ensures Classify(table, line).NoMatch? <==> forall j :: 0 <= j < |table| ==> table[j].matcher(line).None?
  {
    if table != [] {
      ClassifyNoMatch(table[1..], line);
      if table[0].matcher(line).None? {
        assert forall j :: 1 <= j < |table| ==> table[j] == table[1..][j - 1];
      }
    }
  }

  /** A well-formed record: at least four fields, of which pid, name and arguments are present. */
  predicate WellFormed(r: Record) {
    |r.fields| >= 4 && r.fields[0].Some? && r.fields[1].Some? && r.fields[2].Some?
  }

  /**
    With the patterns of `regex_dict` the classifier never raises, and a match
    is a list of exactly five entries whose first is a non-empty digit pid and
    whose last is the kind tag.
  */
  lemma {:induction false} RegexDictClassify(table: seq<Pattern>, line: string)
    requires IsRegexDict(table)
    ensures !Classify(table, line).ArityMismatch?
    ensures Classify(table, line).Matched? ==>
      var r := Classify(table, line).record;
      var t := Classify(table, line).AsTuple();
      WellFormed(r) && |t| == 5 && AllDigits(r.fields[0].value) &&
      t[..4] == r.fields && t[4] == Some(r.kind.Tag())
  {
    if !Classify(table, line).NoMatch? {
      var i := ClassifyingPattern(table, line);
    }
  }

  /** The index of the pattern whose match decided a classification other than `NoMatch`. */
  lemma {:induction false} ClassifyingPattern(table: seq<Pattern>, line: string) returns (i: nat)
    requires !Classify(table, line).NoMatch?
    ensures i < |table| && table[i].matcher(line).Some?
    ensures Classify(table, line) == Normalize(table[i].matcher(line).value, table[i].kind)
  {
    if table[0].matcher(line).Some? {
      i := 0;
    } else {
      var j := ClassifyingPattern(table[1..], line);
      i := j + 1;
    }
  }

  /** `run_through_regexes(regexes, trace_line)`: tries the patterns in order and normalises the first match. */
  method RunThroughRegexes(table: seq<Pattern>, line: string) returns (c: Classification)
    ensures c == Classify(table, line)
  {
    var i := 0;
    while i < |table|
      invariant 0 <= i <= |table|
      invariant Classify(table, line) == Classify(table[i..], line)
    {
      assert table[i..][1..] == table[i + 1..];
      var result := table[i].matcher(line);
      if result.None? {
        i := i + 1;
        continue;
      }
      var groups := result.value;
      if |groups| < 3 {
        return ArityMismatch;
      }
      var finalResult: seq<Option<string>> := [];
      var k := 0;
      while k < |groups|
        invariant 0 <= k <= |groups|
        invariant |finalResult| == k
        invariant forall j :: 0 <= j < k ==> finalResult[j] == Some(groups[j])
      {
        finalResult := finalResult + [Some(groups[k])];
        k := k + 1;
      }
      finalResult := finalResult[1 := Some(StripArrow(groups[1]))];
      while |finalResult| < 4
        invariant |groups| <= |finalResult| <= (if |groups| < 4 then 4 else |groups|)
        invariant finalResult[1] == Some(StripArrow(groups[1]))
        invariant forall j :: 0 <= j < |groups| && j != 1 ==> finalResult[j] == Some(groups[j])
        invariant forall j :: |groups| <= j < |finalResult| ==> finalResult[j] == None
      {
        finalResult := finalResult + [None];
      }
      c := Matched(Record(finalResult, table[i].kind));
      assert finalResult == Pad(groups[1 := StripArrow(groups[1])]);
      return;
    }
    c := NoMatch;
  }

  /**
    `parse_arbitrary(line, r"([0-9]+)\s*.")`: the pid group of the first-line
    pattern. The digit run gives back its last digit when nothing but line
    feeds would be left for the final `.`.
  */
  function FirstPid(line: string): (r: Option<string>)
    ensures r.Some? ==> AllDigits(r.value) && r.value <= line && |r.value| < |line|
  {
    var d := |DigitPrefix(line)|;
    if d == 0 then None
    else if !AllChar(line[d..], '\n') then Some(line[..d])
    else if d >= 2 then Some(line[..d - 1])
    else None
  }

  /** The longest prefix of ASCII digits. */
  function DigitPrefix(s: string): (r: string)
    ensures r <= s && forall j :: 0 <= j < |r| ==> IsDigit(r[j])
    ensures |r| < |s| ==> !IsDigit(s[|r|])
  {
    if s == [] || !IsDigit(s[0]) then [] else [s[0]] + DigitPrefix(s[1..])
  }

  /** On a line without line feeds the first-line pattern matches iff the line starts with a digit and has a second character. */
  lemma FirstPidWithoutNewline(line: string)
    requires '\n' !in line
    ensures FirstPid(line).Some? <==> |line| >= 2 && IsDigit(line[0])
  {
    var d := |DigitPrefix(line)|;
    if 0 < d < |line| {
      assert line[d..][0] == line[d];
    }
  }

  /** Why building a `Trace` fails. */
  datatype TraceError =
    | FirstCallNotPid      // "First call of ltrace is not pid!"
    | GroupsMismatchArity  // the `ValueError` of `run_through_regexes`

  /** The pid of a well-formed record. */
  function Pid(r: Record): string
    requires WellFormed(r)
  {
    r.fields[0].value
  }

  /** An entry of `process_log[pid]`: the record without its pid, `parsed_line[1:]`. */
  function CallOf(r: Record): (c: Record)
    requires WellFormed(r)
    ensures |c.fields| == |r.fields| - 1 && c.kind == r.kind
    ensures forall k :: 0 <= k < |c.fields| ==> c.fields[k] == r.fields[k + 1]
  {
    Record(r.fields[1..], r.kind)
  }

  /** A well-formed call: name and argument text present, return value slot present. */
  predicate WellFormedCall(c: Record) {
    |c.fields| >= 3 && c.fields[0].Some? && c.fields[1].Some?
  }

  /** The function name of a call, `call[0]`. */
  function CallName(c: Record): string
    requires WellFormedCall(c)
  {
    c.fields[0].value
  }

  /** The argument text of a call, `call[1]`. */
  function CallArgs(c: Record): string
    requires WellFormedCall(c)
  {
    c.fields[1].value
  }

  /** Whether `Trace.__init__` keeps the classification of a line (`len >= 4 and parsed_line[0]`). */
  predicate Kept(c: Classification) {
    c.Matched? && WellFormed(c.record) && Pid(c.record) != ""
  }

  /** The records the parse loop appends to `lines`, in input order, or the error that stops it. */
  function ParseLines(table: seq<Pattern>, lines: seq<string>): (r: Result<seq<Record>, TraceError>)
    ensures r.Failure? ==> r.error == GroupsMismatchArity
    ensures r.Success? ==> |r.value| <= |lines|
    ensures r.Success? ==> forall k :: 0 <= k < |r.value| ==> WellFormed(r.value[k]) && Pid(r.value[k]) != ""
  {
    if lines == [] then Success([])
    else
      match ParseLines(table, lines[..|lines| - 1])
      case Failure(e) => Failure(e)
      case Success(rs) =>
        var c := Classify(table, lines[|lines| - 1]);
        if c.ArityMismatch? then Failure(GroupsMismatchArity)
        else if Kept(c) then Success(rs + [c.record])
        else Success(rs)
  }

  /** A line that no pattern matches contributes nothing. */
  lemma UnmatchedLineAddsNothing(table: seq<Pattern>, lines: seq<string>, line: string)
    requires forall j :: 0 <= j < |table| ==> table[j].matcher(line).None?
    ensures ParseLines(table, lines + [line]) == ParseLines(table, lines)
  {
    ClassifyNoMatch(table, line);
    assert (lines + [line])[..|lines|] == lines;
  }

  /** With the patterns of `regex_dict` the parse never fails with `GroupsMismatchArity`. */
  lemma {:induction false} RegexDictParses(table: seq<Pattern>, lines: seq<string>)
    requires IsRegexDict(table)
    ensures ParseLines(table, lines).Success?
  {
    if lines != [] {
      RegexDictParses(table, lines[..|lines| - 1]);
      RegexDictClassify(table, lines[|lines| - 1]);
    }
  }

  /** `process_log` as built from `lines`: each pid mapped to its calls, in order. */
  function GroupByPid(rs: seq<Record>): map<string, seq<Record>>
    requires forall k :: 0 <= k < |rs| ==> WellFormed(rs[k])
  {
    if rs == [] then map[]
    else
      var m := GroupByPid(rs[..|rs| - 1]);
      var r := rs[|rs| - 1];
      m[Pid(r) := (if Pid(r) in m then m[Pid(r)] else []) + [CallOf(r)]]
  }

  /** The calls of the records whose pid is `pid`, in order: a reference definition of one bucket. */
  function CallsOf(rs: seq<Record>, pid: string): seq<Record>
    requires forall k :: 0 <= k < |rs| ==> WellFormed(rs[k])
  {
    if rs == [] then []
    else CallsOf(rs[..|rs| - 1], pid) + (if Pid(rs[|rs| - 1]) == pid then [CallOf(rs[|rs| - 1])] else [])
  }

  /**
    `process_log` has a key exactly for the pids that occur, and the bucket of
    each pid is exactly the calls of that pid's records, in input order.
  */
  lemma {:induction false} GroupByPidBuckets(rs: seq<Record>, pid: string)
    requires forall k :: 0 <= k < |rs| ==> WellFormed(rs[k])
    ensures pid in GroupByPid(rs) <==> exists k :: 0 <= k < |rs| && Pid(rs[k]) == pid
    ensures pid in GroupByPid(rs) ==> GroupByPid(rs)[pid] == CallsOf(rs, pid)
    ensures pid !in GroupByPid(rs) ==> CallsOf(rs, pid) == []
  {
    if rs != [] {
      var init := rs[..|rs| - 1];
      GroupByPidBuckets(init, pid);
      assert forall k :: 0 <= k < |init| ==> init[k] == rs[k];
      if pid !in GroupByPid(rs) {
        assert Pid(rs[|rs| - 1]) != pid;
      }
    }
  }

  /** The total number of calls over all buckets of a log. */
  ghost function TotalCalls(m: map<string, seq<Record>>): nat
    decreases |m|
  {
    if m == map[] then 0
    else
      var k :| k in m;
      assert |m - {k}| < |m| by { assert (m - {k}).Keys == m.Keys - {k}; }
      |m[k]| + TotalCalls(m - {k})
  }

  lemma {:induction false} TotalCallsRemove(m: map<string, seq<Record>>, k: string)
    requires k in m
    ensures TotalCalls(m) == |m[k]| + TotalCalls(m - {k})
    decreases |m|
  {
    var k' :| k' in m && TotalCalls(m) == |m[k']| + TotalCalls(m - {k'});
    if k' != k {
      assert (m - {k'}).Keys == m.Keys - {k'};
      assert (m - {k}).Keys == m.Keys - {k};
      TotalCallsRemove(m - {k'}, k);
      TotalCallsRemove(m - {k}, k');
      assert m - {k'} - {k} == m - {k} - {k'};
    }
  }

  /** The bucket sizes of `process_log` sum to the number of kept records. */
  lemma {:induction false} GroupByPidTotal(rs: seq<Record>)
    requires forall k :: 0 <= k < |rs| ==> WellFormed(rs[k])
    ensures TotalCalls(GroupByPid(rs)) == |rs|
  {
    if rs != [] {
      var init := rs[..|rs| - 1];
      var m := GroupByPid(init);
      var r := rs[|rs| - 1];
      var v := (if Pid(r) in m then m[Pid(r)] else []) + [CallOf(r)];
      GroupByPidTotal(init);
      var m' := m[Pid(r) := v];
      TotalCallsRemove(m', Pid(r));
      assert m' - {Pid(r)} == m - {Pid(r)};
      if Pid(r) in m {
        TotalCallsRemove(m, Pid(r));
      } else {
        assert m - {Pid(r)} == m;
      }
    }
  }

  /** The name field of a call, `call[0]`. */
  function Name(c: Record): Option<string> {
    if |c.fields| > 0 then c.fields[0] else None
  }

  /** `s` is `t` with some entries left out, order kept. */
  predicate IsSubsequence<T(==)>(s: seq<T>, t: seq<T>)
    decreases |t|
  {
    if s == [] then true
    else if t == [] then false
    else if s[0] == t[0] then IsSubsequence(s[1..], t[1..])
    else IsSubsequence(s, t[1..])
  }

  /** The calls whose name equals `m`, in their original order. */
  function CallsNamed(calls: seq<Record>, m: string): (r: seq<Record>)
    ensures IsSubsequence(r, calls)
    ensures forall c :: multiset(r)[c] == if Name(c) == Some(m) then multiset(calls)[c] else 0
  {
    if calls == [] then []
    else
      var rest := CallsNamed(calls[1..], m);
      assert calls == [calls[0]] + calls[1..];
      if Name(calls[0]) == Some(m) then [calls[0]] + rest else rest
  }

  /** The index of the first call whose name contains `exited`. */
  function FirstExited(calls: seq<Record>): (r: Option<nat>)
    requires forall k :: 0 <= k < |calls| ==> WellFormedCall(calls[k])
    ensures r.Some? ==> r.value < |calls| && Contains(CallName(calls[r.value]), "exited")
    ensures r.Some? ==> forall k :: 0 <= k < r.value ==> !Contains(CallName(calls[k]), "exited")
    ensures r.None? ==> forall k :: 0 <= k < |calls| ==> !Contains(CallName(calls[k]), "exited")
  {
    if calls == [] then None
    else if Contains(CallName(calls[0]), "exited") then Some(0)
    else
      match FirstExited(calls[1..])
      case None => None
      case Some(i) => Some(i + 1)
  }

  /** Why `get_status` raises. */
  datatype StatusError =
    | NoToken      // `IndexError`: the argument text has no token
    | NotAnInteger // `ValueError` from `int()`

  /** `args.split()[-1]`, or `None` for the `IndexError` when there is no token. */
  function LastToken(args: string): (r: Option<string>)
    ensures r.None? <==> SplitWs(args) == []
    ensures r.Some? ==> r.value == SplitWs(args)[|SplitWs(args)| - 1]
  {
    var tokens := SplitWs(args);
    if tokens == [] then None else Some(tokens[|tokens| - 1])
  }

  /** `int(args.split()[-1])` */
  function StatusOf(args: string): (r: Result<int, StatusError>)
    ensures r.Failure? && r.error == NoToken <==> LastToken(args).None?
    ensures LastToken(args).Some? ==> (r.Success? <==> ParseInt(LastToken(args).value).Some?)
    ensures r.Success? ==> LastToken(args).Some? && Some(r.value) == ParseInt(LastToken(args).value)
  {
    match LastToken(args)
    case None => Failure(NoToken)
    case Some(t) =>
      var v := ParseInt(t);
      if v.Some? then Success(v.value) else Failure(NotAnInteger)
  }

  /** The parsed result of one run of ltrace. */
  class Trace {
    var splitLines: seq<string>
    var firstProcess: Option<string>
    var lines: seq<Record>
    var processLog: map<string, seq<Record>>

    /** `lines` holds well-formed records with a pid, and `process_log` is exactly their grouping by pid. */
    ghost predicate Valid()
      reads this
    {
      && (forall k :: 0 <= k < |lines| ==> WellFormed(lines[k]) && Pid(lines[k]) != "")
      && processLog == GroupByPid(lines)
      && (forall pid, k :: pid in processLog && 0 <= k < |processLog[pid]| ==> WellFormedCall(processLog[pid][k]))
    }

    /** The state before the parse loop: no records yet. */
    constructor (splitLines: seq<string>, firstProcess: Option<string>)
      ensures Valid()
      ensures this.splitLines == splitLines && this.firstProcess == firstProcess
      ensures lines == [] && processLog == map[]
    {
      this.splitLines := splitLines;
      this.firstProcess := firstProcess;
      lines := [];
      processLog := map[];
    }

    /** The loop of `__init__` over the log lines: stops at the first line whose groups do not fit. */
    method Parse(table: seq<Pattern>) returns (ok: bool)
      requires Valid() && lines == []
      modifies this
      ensures Valid() && splitLines == old(splitLines) && firstProcess == old(firstProcess)
      ensures ok <==> ParseLines(table, splitLines).Success?
      ensures ok ==> ParseLines(table, splitLines) == Success(lines)
    {
      var i := 0;
      while i < |splitLines|
        invariant 0 <= i <= |splitLines|
        invariant Valid() && splitLines == old(splitLines) && firstProcess == old(firstProcess)
        invariant ParseLines(table, splitLines[..i]) == Success(lines)
      {
        ParseLinesSnoc(table, splitLines, i);
        var c := RunThroughRegexes(table, splitLines[i]);
        if c.ArityMismatch? {
          ParseLinesFailureSticks(table, splitLines, i + 1);
          return false;
        }
        if Kept(c) {
          Append(c.record);
        }
        i := i + 1;
      }
      assert splitLines[..i] == splitLines;
      return true;
    }

    /** One kept record: appended to `lines` and, without its pid, to the bucket of its pid. */
    method Append(rec: Record)
      requires Valid() && WellFormed(rec) && Pid(rec) != ""
      modifies this
      ensures Valid()
      ensures lines == old(lines) + [rec]
      ensures processLog == old(processLog)[Pid(rec) := (if Pid(rec) in old(processLog) then old(processLog)[Pid(rec)] else []) + [CallOf(rec)]]
      ensures splitLines == old(splitLines) && firstProcess == old(firstProcess)
    {
      var pid := Pid(rec);
      GroupByPidSnoc(lines, rec);
      GroupByPidCallsWellFormed(lines + [rec]);
      processLog := processLog[pid := (if pid in processLog then processLog[pid] else []) + [CallOf(rec)]];
      lines := lines + [rec];
    }

    /**
      `get_status(pid)`: `None` for an unknown pid or when no call's name
      contains `exited`; otherwise the integer of the last token of the first
      such call's argument text.
    */
    function GetStatus(pid: string): (r: Result<Option<int>, StatusError>)
      reads this
      requires Valid()
      ensures pid !in processLog ==> r == Success(None)
      ensures pid in processLog ==> (r == Success(None) <==>
        forall k :: 0 <= k < |processLog[pid]| ==> !Contains(CallName(processLog[pid][k]), "exited"))
      ensures pid in processLog && FirstExited(processLog[pid]).Some? ==>
        var c := processLog[pid][FirstExited(processLog[pid]).value];
        r == (match StatusOf(CallArgs(c))
              case Success(v) => Success(Some(v))
              case Failure(e) => Failure(e))
    {
      if pid !in processLog then Success(None)
      else
        var calls := processLog[pid];
        match FirstExited(calls)
        case None => Success(None)
        case Some(i) =>
          match StatusOf(CallArgs(calls[i]))
          case Success(v) => Success(Some(v))
          case Failure(e) => Failure(e)
    }

    /**
      `lines_for_pid(pid, match)`: nothing for an unknown pid, the whole
      history for an empty `match`, and otherwise exactly the calls named
      `match`, in their original order.
    */
    function LinesForPid(pid: string, match_: string): (r: seq<Record>)
      reads this
      ensures pid !in processLog ==> r == []
      ensures pid in processLog && match_ == "" ==> r == processLog[pid]
      ensures pid in processLog && match_ != "" ==>
        IsSubsequence(r, processLog[pid]) &&
        forall c :: multiset(r)[c] == if Name(c) == Some(match_) then multiset(processLog[pid])[c] else 0
    {
      if pid !in processLog then []
      else if match_ == "" then processLog[pid]
      else CallsNamed(processLog[pid], match_)
    }
  }

  /** Every bucket of a grouped log holds well-formed calls. */
  lemma {:induction false} GroupByPidCallsWellFormed(rs: seq<Record>)
    requires forall k :: 0 <= k < |rs| ==> WellFormed(rs[k])
    ensures forall pid, k :: pid in GroupByPid(rs) && 0 <= k < |GroupByPid(rs)[pid]| ==> WellFormedCall(GroupByPid(rs)[pid][k])
  {
    if rs != [] {
      GroupByPidCallsWellFormed(rs[..|rs| - 1]);
    }
  }

  /** One more line: the parse of a longer prefix extends the parse of the shorter one. */
  lemma ParseLinesSnoc(table: seq<Pattern>, lines: seq<string>, i: nat)
    requires i < |lines|
    ensures ParseLines(table, lines[..i + 1]) ==
      match ParseLines(table, lines[..i])
      case Failure(e) => Failure(e)
      case Success(rs) =>
        var c := Classify(table, lines[i]);
        if c.ArityMismatch? then Failure(GroupsMismatchArity)
        else if Kept(c) then Success(rs + [c.record])
        else Success(rs)
  {
    assert lines[..i + 1][..i] == lines[..i];
  }

  /** Appending a record appends its call to its pid's bucket and leaves the other buckets alone. */
  lemma GroupByPidSnoc(rs: seq<Record>, r: Record)
    requires forall k :: 0 <= k < |rs| ==> WellFormed(rs[k])
    requires WellFormed(r)
    ensures forall k :: 0 <= k < |rs + [r]| ==> WellFormed((rs + [r])[k])
    ensures GroupByPid(rs + [r]) ==
      GroupByPid(rs)[Pid(r) := (if Pid(r) in GroupByPid(rs) then GroupByPid(rs)[Pid(r)] else []) + [CallOf(r)]]
  {
    assert (rs + [r])[..|rs|] == rs;
  }

  /**
    `Trace.__init__` after the ltrace run: when there is more than one line the
    first must carry a pid; then every line is classified and each kept record
    is appended to `lines` and to its pid's bucket of `process_log`.
  */
  method NewTrace(table: seq<Pattern>, splitLines: seq<string>) returns (r: Result<Trace, TraceError>)
    ensures r.Failure? <==>
      (|splitLines| > 1 && FirstPid(splitLines[0]).None?) || ParseLines(table, splitLines).Failure?
    ensures r.Failure? && |splitLines| > 1 && FirstPid(splitLines[0]).None? ==> r.error == FirstCallNotPid
    ensures r.Success? ==> fresh(r.value) && r.value.Valid()
    ensures r.Success? ==> r.value.splitLines == splitLines
    ensures r.Success? ==> r.value.firstProcess == (if |splitLines| > 1 then FirstPid(splitLines[0]) else None)
    ensures r.Success? ==> ParseLines(table, splitLines) == Success(r.value.lines)
  {
    var first: Option<string> := None;
    if |splitLines| > 1 {
      first := FirstPid(splitLines[0]);
      if first.None? {
        return Failure(FirstCallNotPid);
      }
    }
    var t := new Trace(splitLines, first);
    var ok := t.Parse(table);
    if !ok {
      return Failure(GroupsMismatchArity);
    }
    r := Success(t);
  }

  /** Once a prefix of the lines fails to parse, every longer prefix fails too. */
  lemma {:induction false} ParseLinesFailureSticks(table: seq<Pattern>, lines: seq<string>, n: nat)
    requires n <= |lines| && ParseLines(table, lines[..n]).Failure?
    ensures ParseLines(table, lines).Failure?
    decreases |lines| - n
  {
    if n < |lines| {
      assert lines[..n + 1][..n] == lines[..n];
      ParseLinesFailureSticks(table, lines, n + 1);
    } else {
      assert lines[..n] == lines;
    }
  }
}
