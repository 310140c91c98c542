/** Failure-compatible wrapper types shared by every module. */
module Wrappers {
  datatype Option<+T> = None | Some(value: T) {
    function GetOr(default: T): T {
      match this
      case Some(v) => v
      case None => default
    }
  }

  datatype Result<+T, +E> = Success(value: T) | Failure(error: E)
}


/** Python's insertion-ordered `dict` with string keys. */
module Dicts {
  predicate Distinct<T(==)>(s: seq<T>) {
    forall i, j :: 0 <= i < j < |s| ==> s[i] != s[j]
  }

  /** A dictionary: its keys in insertion order, and the value of each. */
  datatype ODict<V> = ODict(keys: seq<string>, values: map<string, V>)

  ghost predicate WellFormed<V>(d: ODict<V>) {
    Distinct(d.keys) && forall k :: k in d.values <==> k in d.keys
  }

  /** `d[k] = v`: a new key goes to the end, a key already present keeps its place. */
  function Put<V>(d: ODict<V>, k: string, v: V): (d': ODict<V>)
    requires WellFormed(d)
    ensures WellFormed(d')
    ensures d'.values == d.values[k := v]
    ensures k in d.values ==> d'.keys == d.keys
    ensures k !in d.values ==> d'.keys == d.keys + [k]
  {
    if k in d.values then ODict(d.keys, d.values[k := v])
    else ODict(d.keys + [k], d.values[k := v])
  }

  /** A distinct sequence has as many elements as its set. */
  lemma {:induction false} DistinctCard<T>(s: seq<T>)
    requires Distinct(s)
    ensures |set x | x in s| == |s|
  {
    if s != [] {
      var init := s[..|s| - 1];
      assert Distinct(init);
      DistinctCard(init);
      assert (set x | x in s) == (set x | x in init) + {s[|s| - 1]};
    }
  }
}

/**
  The few pieces of Python's `str`, `int()` and `os.path` behaviour that the
  helpers rely on, written out over `seq<char>`.
*/
module PyStr {
  import opened Wrappers

  /** `str.isspace()` on one character. */
  predicate IsSpace(c: char) {
    c == ' ' || ('\t' <= c <= '\r') || ('\U{1c}' <= c <= '\U{1f}') ||
    c == '\U{85}' || c == '\U{a0}' || c == '\U{1680}' || ('\U{2000}' <= c <= '\U{200a}') ||
    c == '\U{2028}' || c == '\U{2029}' || c == '\U{202f}' || c == '\U{205f}' || c == '\U{3000}'
  }

  /** The characters at which `str.splitlines()` ends a line. */
  predicate IsLineBreak(c: char) {
    c == '\n' || c == '\r' || c == '\U{0b}' || c == '\U{0c}' || ('\U{1c}' <= c <= '\U{1e}') ||
    c == '\U{85}' || c == '\U{2028}' || c == '\U{2029}'
  }

  predicate IsDigit(c: char) {
    '0' <= c <= '9'
  }

  predicate AllSpace(s: string) {
    forall i :: 0 <= i < |s| ==> IsSpace(s[i])
  }

  /** `s.rstrip()` */
  function RStrip(s: string): (r: string)
    ensures r <= s && AllSpace(s[|r|..])
    ensures r == [] || !IsSpace(r[|r| - 1])
  {
    if s == [] || !IsSpace(s[|s| - 1]) then s
    else
      var r := RStrip(s[..|s| - 1]);
      assert s[|r|..] == s[..|s| - 1][|r|..] + [s[|s| - 1]];
      r
  }

  /** The number of whitespace characters `s` starts with. */
  function LeadingSpaces(s: string): (n: nat)
    ensures n <= |s| && (forall i :: 0 <= i < n ==> IsSpace(s[i]))
    ensures n == |s| || !IsSpace(s[n])
  {
    if s == [] || !IsSpace(s[0]) then 0
    else
      var n := LeadingSpaces(s[1..]);
      assert forall i :: 0 < i < n + 1 ==> s[i] == s[1..][i - 1];
      n + 1
  }

  /** `s.lstrip()` */
  function LStrip(s: string): (r: string)
    ensures |r| <= |s| && r == s[|s| - |r|..] && AllSpace(s[..|s| - |r|])
    ensures r == [] || !IsSpace(r[0])
  {
    var n := LeadingSpaces(s);
    assert forall i :: 0 <= i < n ==> s[..n][i] == s[i];
    s[n..]
  }

  /** `s.strip()` */
  function Strip(s: string): (r: string)
    ensures |r| <= |s|
    ensures r == [] || (!IsSpace(r[0]) && !IsSpace(r[|r| - 1]))
    ensures r == [] <==> AllSpace(s)
  {
    var a := RStrip(s);
    var r := LStrip(a);
    assert r == [] ==> AllSpace(s) by {
      if r == [] {
        assert s == a + s[|a|..];
      }
    }
    r
  }

  /** `sub` occurs in `s` at index `i`. */
  predicate OccursAt(s: string, sub: string, i: int) {
    0 <= i && i + |sub| <= |s| && s[i..i + |sub|] == sub
  }

  /** The first index at or after `from` where `sub` occurs in `s`. */
  function FindFrom(s: string, sub: string, from: nat): (r: Option<nat>)
    decreases |s| - from
    ensures r.Some? ==> from <= r.value && OccursAt(s, sub, r.value)
    ensures r.Some? ==> forall j :: from <= j < r.value ==> !OccursAt(s, sub, j)
    ensures r.None? ==> forall j :: from <= j ==> !OccursAt(s, sub, j)
  {
    if from + |sub| > |s| then None
    else if s[from..from + |sub|] == sub then Some(from)
    else FindFrom(s, sub, from + 1)
  }

  /** `sub in s` */
  predicate Contains(s: string, sub: string) {
    FindFrom(s, sub, 0).Some?
  }

  lemma ContainsAt(s: string, sub: string, i: int)
    requires OccursAt(s, sub, i)
    ensures Contains(s, sub)
  {
  }

  /** Python's normalisation of one slice bound against a length `n`. */
  function SliceBound(i: int, n: nat): (r: nat)
    ensures r <= n
    ensures 0 <= i <= n ==> r == i
  {
    if i < 0 then (if i + n < 0 then 0 else i + n) else if i > n then n else i
  }

  /** `s[a:b]` with Python's handling of negative and out-of-range bounds. */
  function Slice(s: string, a: int, b: int): (r: string)
    ensures |r| <= |s|
    ensures 0 <= a <= b <= |s| ==> r == s[a..b]
  {
    var lo := SliceBound(a, |s|);
    var hi := SliceBound(b, |s|);
    if lo < hi then s[lo..hi] else ""
  }

  /** `s.find(sub, start)`: -1 when there is no occurrence. */
  function Find(s: string, sub: string, start: int): (r: int)
    ensures r == -1 || (SliceBound(start, |s|) <= r && OccursAt(s, sub, r))
    ensures r != -1 ==> forall j :: SliceBound(start, |s|) <= j < r ==> !OccursAt(s, sub, j)
    ensures r == -1 && start <= |s| ==> forall j :: SliceBound(start, |s|) <= j ==> !OccursAt(s, sub, j)
  {
    if start > |s| then -1
    else
      match FindFrom(s, sub, SliceBound(start, |s|))
      case Some(i) => i
      case None => -1
  }

  /** `s.replace(pat, rep)` for a non-empty `pat`: left to right, non-overlapping. */
  function ReplaceAll(s: string, pat: string, rep: string): (r: string)
    requires pat != []
    ensures !Contains(s, pat) ==> r == s
  {
    if |s| < |pat| then s
    else if s[..|pat|] == pat then rep + ReplaceAll(s[|pat|..], pat, rep)
    else
      assert !Contains(s, pat) ==> !Contains(s[1..], pat) by {
        if Contains(s[1..], pat) {
          var i := FindFrom(s[1..], pat, 0).value;
          assert s[i + 1..i + 1 + |pat|] == s[1..][i..i + |pat|];
          ContainsAt(s, pat, i + 1);
        }
      }
      [s[0]] + ReplaceAll(s[1..], pat, rep)
  }

  /** `s.replace(a, b)` for one-character `a` and `b`. */
  function ReplaceChar(s: string, a: char, b: char): (r: string)
    ensures |r| == |s|
    ensures forall i :: 0 <= i < |s| ==> r[i] == (if s[i] == a then b else s[i])
  {
    seq(|s|, i requires 0 <= i < |s| => if s[i] == a then b else s[i])
  }

  /** `sep.join(xs)` */
  function Join(xs: seq<string>, sep: char): (r: string)
  {
    if xs == [] then ""
    else if |xs| == 1 then xs[0]
    else xs[0] + [sep] + Join(xs[1..], sep)
  }

  /** `s.split(sep)` for a one-character separator: always at least one field. */
  function Split(s: string, sep: char): (r: seq<string>)
    decreases |s|
    ensures |r| >= 1
    ensures forall k :: 0 <= k < |r| ==> sep !in r[k]
  {
    match FindFrom(s, [sep], 0)
    case None =>
      assert forall j :: 0 <= j < |s| ==> !OccursAt(s, [sep], j);
      assert forall j :: 0 <= j < |s| ==> s[j] != sep by {
        forall j | 0 <= j < |s| ensures s[j] != sep {
          assert !OccursAt(s, [sep], j);
          assert s[j..j + 1] == [s[j]];
        }
      }
      [s]
    case Some(i) =>
      assert forall j :: 0 <= j < i ==> s[j] != sep by {
        forall j | 0 <= j < i ensures s[j] != sep {
          assert !OccursAt(s, [sep], j);
          assert s[j..j + 1] == [s[j]];
        }
      }
      [s[..i]] + Split(s[i + 1..], sep)
  }

  lemma {:induction false} SplitJoin(xs: seq<string>, sep: char)
    requires |xs| >= 1
    requires forall k :: 0 <= k < |xs| ==> sep !in xs[k]
    ensures Split(Join(xs, sep), sep) == xs
  {
    var s := Join(xs, sep);
    var x := xs[0];
    forall j | 0 <= j < |x| ensures !OccursAt(s, [sep], j) {
      assert s[j] == x[j];
      assert x[j] != sep;
    }
    if |xs| == 1 {
      assert s == x;
    } else {
      assert s == x + [sep] + Join(xs[1..], sep);
      assert OccursAt(s, [sep], |x|) by {
        assert s[|x|..|x| + 1] == [sep];
      }
      assert FindFrom(s, [sep], 0) == Some(|x|);
      assert s[..|x|] == x;
      assert s[|x| + 1..] == Join(xs[1..], sep);
      SplitJoin(xs[1..], sep);
    }
  }

  /** Joining the fields of a split with the separator gives back the text. */
  lemma {:induction false} JoinSplit(s: string, sep: char)
    ensures Join(Split(s, sep), sep) == s
    decreases |s|
  {
    match FindFrom(s, [sep], 0)
    case None =>
    case Some(i) =>
      assert s[i..i + 1] == [sep];
      var rest := Split(s[i + 1..], sep);
      JoinSplit(s[i + 1..], sep);
      assert ([s[..i]] + rest)[1..] == rest;
      assert s == s[..i] + [sep] + s[i + 1..];
  }

  /** `s.split()` with no argument: the maximal runs of non-space characters. */
  function SplitWs(s: string): (r: seq<string>)
    decreases |s|
    ensures forall k :: 0 <= k < |r| ==> r[k] != [] && NoSpace(r[k])
  {
    if s == [] then []
    else if IsSpace(s[0]) then SplitWs(s[1..])
    else
      var w := Word(s);
      var rest := SplitWs(s[|w|..]);
      assert forall k :: 1 <= k < |[w] + rest| ==> ([w] + rest)[k] == rest[k - 1];
      [w] + rest
  }

  predicate NoSpace(w: string) {
    forall j :: 0 <= j < |w| ==> !IsSpace(w[j])
  }

  /** The leading run of non-space characters of `s`. */
  function Word(s: string): (r: string)
    ensures r <= s
    ensures NoSpace(r)
    ensures |r| < |s| ==> IsSpace(s[|r|])
    ensures s != [] && !IsSpace(s[0]) ==> r != []
  {
    if s == [] || IsSpace(s[0]) then [] else [s[0]] + Word(s[1..])
  }

  /** `s.splitlines()` (a `\r\n` pair ends one line). */
  function SplitLines(s: string): (r: seq<string>)
    decreases |s|
    ensures s == [] <==> r == []
    ensures forall k :: 0 <= k < |r| ==> forall j :: 0 <= j < |r[k]| ==> !IsLineBreak(r[k][j])
  {
    if s == [] then []
    else
      var line := Line(s);
      if |line| == |s| then [line]
      else
        var skip := if s[|line|] == '\r' && |line| + 1 < |s| && s[|line| + 1] == '\n' then 2 else 1;
        [line] + SplitLines(s[|line| + skip..])
  }

  /** The text of `s` before its first line break. */
  function Line(s: string): (r: string)
    ensures r <= s
    ensures forall j :: 0 <= j < |r| ==> !IsLineBreak(r[j])
    ensures |r| < |s| ==> IsLineBreak(s[|r|])
  {
    if s == [] || IsLineBreak(s[0]) then [] else [s[0]] + Line(s[1..])
  }

  /** The decimal value of a non-empty run of ASCII digits. */
  function DigitsValue(s: string): (n: nat)
    requires forall j :: 0 <= j < |s| ==> IsDigit(s[j])
  {
    if s == [] then 0
    else
      assert IsDigit(s[|s| - 1]);
      10 * DigitsValue(s[..|s| - 1]) + (s[|s| - 1] as int - '0' as int)
  }

  predicate AllDigits(s: string) {
    s != [] && forall j :: 0 <= j < |s| ==> IsDigit(s[j])
  }

  /**
    `int(s)` on a string: surrounding white space is ignored, then an optional sign
    and at least one ASCII digit. `None` stands for the `ValueError`.
  */
  function ParseInt(s: string): (r: Option<int>)
    ensures AllDigits(Strip(s)) ==> r == Some(DigitsValue(Strip(s)))
    ensures Strip(s) == [] ==> r.None?
  {
    var t := Strip(s);
    if t != [] && (t[0] == '+' || t[0] == '-') then
      var v: int := if AllDigits(t[1..]) then DigitsValue(t[1..]) else 0;
      if AllDigits(t[1..]) then Some(if t[0] == '-' then -v else v)
      else None
    else if AllDigits(t) then Some(DigitsValue(t))
    else None
  }

  /** `str(n)` for a natural number. */
  function NatToString(n: nat): (r: string)
    ensures AllDigits(r) && DigitsValue(r) == n
    ensures r[0] != '+' && r[0] != '-'
  {
    var d := [('0' as int + n % 10) as char];
    if n < 10 then
      assert DigitsValue(d) == n by { assert d[..0] == []; }
      d
    else
      var p := NatToString(n / 10);
      var r := p + d;
      assert r[..|r| - 1] == p;
      r
  }

  lemma ParseIntOfNat(n: nat)
    ensures ParseInt(NatToString(n)) == Some(n)
  {
    var r := NatToString(n);
    assert !IsSpace(r[0]) && !IsSpace(r[|r| - 1]);
    assert RStrip(r) == r;
    assert LStrip(r) == r;
  }

  /** The index of the last `c` in `s`. */
  function LastIndexOf(s: string, c: char): (r: Option<nat>)
    ensures r.Some? ==> r.value < |s| && s[r.value] == c && forall j :: r.value < j < |s| ==> s[j] != c
    ensures r.None? ==> c !in s
  {
    if s == [] then None
    else if s[|s| - 1] == c then Some(|s| - 1)
    else LastIndexOf(s[..|s| - 1], c)
  }

  /** Characters without any `c` appended after `s` do not move the last `c`. */
  lemma {:induction false} LastIndexOfAppend(s: string, t: string, c: char)
    requires c !in t
    ensures LastIndexOf(s + t, c) == LastIndexOf(s, c)
  {
    if t == [] {
      assert s + t == s;
    } else {
      assert (s + t)[..|s + t| - 1] == s + t[..|t| - 1];
      LastIndexOfAppend(s, t[..|t| - 1], c);
    }
  }

  /** The text after the last `c`, or all of `s` when it has none. */
  function AfterLast(s: string, c: char): (r: string)
    ensures c !in r
    ensures |r| <= |s| && r == s[|s| - |r|..]
  {
    match LastIndexOf(s, c)
    case None => s
    case Some(i) =>
      var r := s[i + 1..];
      forall j | 0 <= j < |r| ensures r[j] != c {
        assert r[j] == s[i + 1 + j];
      }
      r
  }

  /** `os.path.basename(p)`: the text after the last `/`. */
  function Basename(p: string): (r: string)
    ensures '/' !in r
    ensures |r| <= |p| && r == p[|p| - |r|..]
  {
    AfterLast(p, '/')
  }

  /** `os.path.dirname(p)`: the text before the last `/`, trailing slashes removed unless it is all slashes. */
  function Dirname(p: string): (r: string)
    ensures r <= p
  {
    match LastIndexOf(p, '/')
    case None => ""
    case Some(i) =>
      var head := p[..i + 1];
      if AllChar(head, '/') then head else StripTrailing(head, '/')
  }

  predicate AllChar(s: string, c: char) {
    forall j :: 0 <= j < |s| ==> s[j] == c
  }

  function StripTrailing(s: string, c: char): (r: string)
    ensures r <= s
    ensures r == [] || r[|r| - 1] != c
  {
    if s == [] || s[|s| - 1] != c then s else StripTrailing(s[..|s| - 1], c)
  }

  /** `os.path.join(a, b)` for two components. */
  function PathJoin(a: string, b: string): (r: string)
    ensures b != [] && b[0] == '/' ==> r == b
    ensures (b == [] || b[0] != '/') ==> r == a + (if a == [] || a[|a| - 1] == '/' then "" else "/") + b
  {
    if b != [] && b[0] == '/' then b
    else if a == [] || a[|a| - 1] == '/' then a + b
    else a + "/" + b
  }

  /**
    `os.path.splitext(p)[0]`: `p` without its extension. The extension starts at the last
    `.` after the last `/`, and only if some character before that dot in the final
    component is not a dot (so `.bashrc` has no extension).
  */
  function StripExt(p: string): (r: string)
    ensures r <= p
    ensures r != p ==> |r| < |p| && p[|r|] == '.' && '.' !in p[|r| + 1..] && '/' !in p[|r| + 1..]
  {
    match LastIndexOf(p, '.')
    case None => p
    case Some(d) =>
      var start := match LastIndexOf(p, '/') case None => 0 case Some(s) => s + 1;
      if start <= d && !AllChar(p[start..d], '.') then
        var ext := p[d + 1..];
        forall j | 0 <= j < |ext| ensures ext[j] != '/' && ext[j] != '.' {
          assert ext[j] == p[d + 1 + j];
        }
        p[..d]
      else p
  }

  /**
    `d` is where `splitext` cuts a file name without `/`: the last `.`, with
    some character other than a dot before it.
  */
  predicate ExtStartsAt(p: string, d: int) {
    0 <= d < |p| && p[d] == '.' && '.' !in p[d + 1..] && !AllChar(p[..d], '.')
  }

  /** `splitext` on a name without `/`: it cuts at the extension's dot when there is one, and keeps the name otherwise. */
  lemma StripExtOfName(p: string)
    requires '/' !in p
    ensures StripExt(p) == p <==> forall d :: !ExtStartsAt(p, d)
    ensures StripExt(p) != p ==> ExtStartsAt(p, |StripExt(p)|) && StripExt(p) == p[..|StripExt(p)|]
  {
    match LastIndexOf(p, '.')
    case None =>
    case Some(d) =>
      assert p[..d] == p[0..d];
      if !AllChar(p[..d], '.') {
        var ext := p[d + 1..];
        assert forall j :: 0 <= j < |ext| ==> ext[j] == p[d + 1 + j];
        assert ExtStartsAt(p, d);
      }
  }
}
