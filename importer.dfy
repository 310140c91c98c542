/**
  The notebook importer: locating a notebook for a module name, the finder's
  loader cache, the rewrite of `%matplotlib`/`%pylab` lines, and building a
  notebook module's cell list. The file system is a set of existing file
  paths, reading a notebook is a function from path to cells, and IPython's
  own cell transformation is a function on source text.
*/
module Importer {
  import opened Wrappers
  import opened PyStr

  /** `fullname.rsplit('.', 1)[-1]`: the text after the last dot. */
  function NotebookName(fullname: string): (r: string)
    ensures '.' !in r
    ensures |r| <= |fullname| && r == fullname[|fullname| - |r|..]
  {
    AfterLast(fullname, '.')
  }

  lemma NotebookNameOfDotted(package: string, name: string)
    requires '.' !in name
    ensures NotebookName(package + "." + name) == name
  {
    LastIndexOfAppend(package + ".", name, '.');
    assert (package + ".")[|package|] == '.';
    assert package + "." + name == (package + ".") + name;
    assert (package + "." + name)[|package| + 1..] == name;
  }

  /** The directories searched: the given list, or `['']` when it is `None` or empty. */
  function SearchDirs(path: Option<seq<string>>): (r: seq<string>)
    ensures |r| >= 1
    ensures path.Some? && path.value != [] ==> r == path.value
  {
    if path.None? || path.value == [] then [""] else path.value
  }

  /** The paths tried, in order: for each directory, `dir/name.ipynb`, then that path with every `_` made a space. */
  function Candidates(dirs: seq<string>, name: string): (r: seq<string>)
    ensures |r| == 2 * |dirs|
    ensures forall i :: 0 <= i < |dirs| ==>
              r[2 * i] == PathJoin(dirs[i], name + ".ipynb") && r[2 * i + 1] == ReplaceChar(r[2 * i], '_', ' ')
  {
    if dirs == [] then []
    else
      var nbPath := PathJoin(dirs[0], name + ".ipynb");
      var rest := Candidates(dirs[1..], name);
      var r := [nbPath, ReplaceChar(nbPath, '_', ' ')] + rest;
      forall i | 1 <= i < |dirs|
        ensures r[2 * i] == PathJoin(dirs[i], name + ".ipynb") && r[2 * i + 1] == ReplaceChar(r[2 * i], '_', ' ')
      {
        assert dirs[1..][i - 1] == dirs[i];
        assert r[2 * i] == rest[2 * (i - 1)] && r[2 * i + 1] == rest[2 * (i - 1) + 1];
      }
      r
  }

  /** The first candidate that is an existing file. */
  function FirstExisting(candidates: seq<string>, files: set<string>): (r: Option<string>)
    ensures r.Some? ==> exists i :: 0 <= i < |candidates| && candidates[i] == r.value && r.value in files &&
                                    forall j :: 0 <= j < i ==> candidates[j] !in files
    ensures r.None? <==> forall i :: 0 <= i < |candidates| ==> candidates[i] !in files
  {
    if candidates == [] then None
    else if candidates[0] in files then Some(candidates[0])
    else
      var r := FirstExisting(candidates[1..], files);
      assert forall i :: 1 <= i < |candidates| ==> candidates[1..][i - 1] == candidates[i];
      r
  }

  /** `find_notebook` as its specification: the first existing candidate for the name's last component. */
  function Locate(fullname: string, path: Option<seq<string>>, files: set<string>): Option<string> {
    FirstExisting(Candidates(SearchDirs(path), NotebookName(fullname)), files)
  }

  /** `find_notebook`: try each directory in order and return the first candidate that exists. */
  method FindNotebook(fullname: string, path: Option<seq<string>>, files: set<string>) returns (r: Option<string>)
    ensures r == Locate(fullname, path, files)
  {
    var name := NotebookName(fullname);
    var dirs := SearchDirs(path);
    ghost var cands := Candidates(dirs, name);
    for i := 0 to |dirs|
      invariant forall j :: 0 <= j < 2 * i ==> cands[j] !in files
    {
      var nbPath := PathJoin(dirs[i], name + ".ipynb");
      if nbPath in files {
        FirstExistingAt(cands, files, 2 * i);
        return Some(nbPath);
      }
      nbPath := ReplaceChar(nbPath, '_', ' ');
      if nbPath in files {
        FirstExistingAt(cands, files, 2 * i + 1);
        return Some(nbPath);
      }
    }
    return None;
  }

  /** The first candidate that exists is the one returned. */
  lemma FirstExistingAt(candidates: seq<string>, files: set<string>, i: nat)
    requires i < |candidates| && candidates[i] in files
    requires forall j :: 0 <= j < i ==> candidates[j] !in files
    ensures FirstExisting(candidates, files) == Some(candidates[i])
  {
    var r := FirstExisting(candidates, files);
    var k :| 0 <= k < |candidates| && candidates[k] == r.value && r.value in files &&
             forall j :: 0 <= j < k ==> candidates[j] !in files;
    assert !(k < i);
    assert !(i < k);
  }

  /**
    With no directory given, a top-level name with an underscore, such as `Notebook_Name`, finds
    the notebook whose file name has spaces instead (`Notebook Name.ipynb`) when only that one exists.
  */
  lemma SpacedNameFound(name: string)
    requires '.' !in name && '_' in name
    ensures var spaced := ReplaceChar(name + ".ipynb", '_', ' ');
            Locate(name, None, {spaced}) == Some(spaced)
  {
    var file := name + ".ipynb";
    var spaced := ReplaceChar(file, '_', ' ');
    UnderscoreReplaced(name, ".ipynb");
    SpacedCandidates(name);
    var c := Candidates(SearchDirs(None), NotebookName(name));
    assert c[0] !in {spaced};
    FirstExistingAt(c, {spaced}, 1);
  }

  /** Replacing `_` changes any text that holds one. */
  lemma UnderscoreReplaced(s: string, suffix: string)
    requires '_' in s
    ensures ReplaceChar(s + suffix, '_', ' ') != s + suffix
  {
    var k :| 0 <= k < |s| && s[k] == '_';
    assert (s + suffix)[k] == '_';
  }

  /** A dot-free name searched with no path gives its file name and that name with spaces. */
  lemma SpacedCandidates(name: string)
    requires '.' !in name
    ensures var file := name + ".ipynb";
            Candidates(SearchDirs(None), NotebookName(name)) == [file, ReplaceChar(file, '_', ' ')]
  {
    assert NotebookName(name) == name;
    var c := Candidates([""], name);
    assert c[0] == name + ".ipynb";
  }

  /** `re.match(r'%(matplotlib|pylab)', line)` */
  predicate IsMagic(line: string) {
    "%matplotlib" <= line || "%pylab" <= line
  }

  /** `re.sub(r'\sinline\s*', ' ', s)`: each whitespace character followed by `inline`, with the whitespace after it, becomes one space. */
  function SubInline(s: string): (r: string)
    ensures |r| <= |s|
  {
    if InlineAt(s) then " " + SubInline(LStrip(s[7..]))
    else if s == [] then []
    else [s[0]] + SubInline(s[1..])
  }

  /** `s` starts with a whitespace character followed by `inline`. */
  predicate InlineAt(s: string) {
    |s| >= 7 && IsSpace(s[0]) && s[1..7] == "inline"
  }

  /** A non-whitespace character passes through the substitution unchanged. */
  lemma SubInlineCons(c: char, t: string)
    requires !IsSpace(c)
    ensures SubInline([c] + t) == [c] + SubInline(t)
  {
    assert ([c] + t)[1..] == t;
  }

  /** Concatenation regroups freely. */
  lemma ConcatAssoc(a: string, b: string, c: string)
    ensures a + (b + c) == (a + b) + c
  {
  }

  /** A prefix without whitespace passes through the substitution unchanged. */
  lemma {:induction false} SubInlinePrefix(p: string, rest: string)
    requires forall k :: 0 <= k < |p| ==> !IsSpace(p[k])
    ensures SubInline(p + rest) == p + SubInline(rest)
  {
    if p == [] {
      assert p + rest == rest;
    } else {
      var q := p[1..];
      var t := q + rest;
      assert forall k :: 0 <= k < |q| ==> q[k] == p[k + 1];
      calc {
        SubInline(p + rest);
        { assert p + rest == [p[0]] + t; }
        SubInline([p[0]] + t);
        { SubInlineCons(p[0], t); }
        [p[0]] + SubInline(t);
        { SubInlinePrefix(q, rest); }
        [p[0]] + (q + SubInline(rest));
        { ConcatAssoc([p[0]], q, SubInline(rest)); assert [p[0]] + q == p; }
        p + SubInline(rest);
      }
    }
  }

  /** The line a magic line is rewritten to. */
  function RewriteLine(line: string): string {
    if IsMagic(line) then Strip(SubInline(line)) else line
  }

  /** The loop of `_transform_source`: each magic line is replaced, every other line kept. */
  method RewriteMagicLines(lines: seq<string>) returns (sourceList: seq<string>)
    ensures |sourceList| == |lines|
    ensures forall k :: 0 <= k < |lines| && !IsMagic(lines[k]) ==> sourceList[k] == lines[k]
    ensures forall k :: 0 <= k < |lines| ==> sourceList[k] == RewriteLine(lines[k])
  {
    sourceList := lines;
    for i := 0 to |lines|
      invariant |sourceList| == |lines|
      invariant forall k :: 0 <= k < i ==> sourceList[k] == RewriteLine(lines[k])
      invariant forall k :: i <= k < |lines| ==> sourceList[k] == lines[k]
    {
      if IsMagic(lines[i]) {
        sourceList := sourceList[i := Strip(SubInline(lines[i]))];
      }
    }
  }

  /** Stripping keeps a prefix that starts and ends with non-whitespace. */
  lemma StripKeepsPrefix(p: string, y: string)
    requires p != [] && !IsSpace(p[0]) && !IsSpace(p[|p| - 1])
    ensures p <= Strip(p + y)
  {
    var s := p + y;
    var a := RStrip(s);
    assert s[|p| - 1] == p[|p| - 1];
    assert |a| >= |p|;
    assert a[0] == p[0];
    assert LStrip(a) == a;
    assert a[..|p|] == s[..|p|] == p;
  }

  lemma MagicPrefixKept(prefix: string, rest: string)
    requires prefix == "%matplotlib" || prefix == "%pylab"
    ensures prefix <= RewriteLine(prefix + rest)
  {
    var line := prefix + rest;
    assert line[..|prefix|] == prefix;
    assert IsMagic(line);
    assert forall k :: 0 <= k < |prefix| ==> !IsSpace(prefix[k]);
    SubInlinePrefix(prefix, rest);
    StripKeepsPrefix(prefix, SubInline(rest));
  }

  /** A magic line stays a magic line. */
  lemma MagicStaysMagic(line: string)
    requires IsMagic(line)
    ensures IsMagic(RewriteLine(line))
  {
    if "%matplotlib" <= line {
      assert line == "%matplotlib" + line[11..];
      MagicPrefixKept("%matplotlib", line[11..]);
    } else {
      assert line == "%pylab" + line[6..];
      MagicPrefixKept("%pylab", line[6..]);
    }
  }

  /**
    A magic word without white space followed by ` inline`, as in
    `%matplotlib inline` or `%pylab inline`, is rewritten to the word alone.
  */
  lemma InlineDropped(p: string)
    requires IsMagic(p) && forall k :: 0 <= k < |p| ==> !IsSpace(p[k])
    ensures RewriteLine(p + " inline") == p
  {
    var line := p + " inline";
    assert " inline"[1..7] == "inline";
    InlineWordDropped(" inline");
    SubInlinePrefix(p, " inline");
    assert line[..|p|] == p;
    assert IsMagic(line);
    StripSpaceAfter(p);
  }

  /** The substitution turns a whitespace character followed by `inline` into one space. */
  lemma InlineWordDropped(t: string)
    requires |t| == 7 && InlineAt(t)
    ensures SubInline(t) == " "
  {
    var empty: string := [];
    assert t[7..] == empty;
    calc {
      SubInline(t);
      " " + SubInline(LStrip(t[7..]));
      { assert LStrip(empty) == empty; }
      " " + SubInline(empty);
      " ";
    }
  }

  /** Stripping a word without whitespace followed by one space gives the word. */
  lemma StripSpaceAfter(p: string)
    requires forall k :: 0 <= k < |p| ==> !IsSpace(p[k])
    ensures Strip(p + " ") == p
  {
    var spaced := p + " ";
    assert spaced[..|spaced| - 1] == p;
    assert RStrip(spaced) == RStrip(p) == p;
    assert LStrip(p) == p;
  }

  /** `_transform_source`: rewrite the magic lines, join them, and hand the text to the shell's transformer. */
  method TransformSource(source: string, transformCell: string -> string) returns (r: string)
    ensures r == Transformed(source, transformCell)
  {
    var lines := SplitLines(source);
    var sourceList := RewriteMagicLines(lines);
    assert sourceList == RewriteAll(lines);
    r := transformCell(Join(sourceList, '\n'));
  }

  /** Every line rewritten. */
  function RewriteAll(lines: seq<string>): seq<string> {
    seq(|lines|, k requires 0 <= k < |lines| => RewriteLine(lines[k]))
  }

  /** The text a code cell runs. */
  function Transformed(source: string, transformCell: string -> string): string {
    transformCell(Join(RewriteAll(SplitLines(source)), '\n'))
  }

  /** A notebook cell as read: its type and source. */
  datatype NbCell = NbCell(cellType: string, source: string)

  /** An entry of `__cells__`: a plain `Cell`, or a `CodeCell` with its transformed source. */
  datatype LoadedCell = PlainCell(cell: NbCell) | CodeCell(cell: NbCell, code: string)

  /** The cell list `exec_module` builds. */
  function LoadedCells(nb: seq<NbCell>, transformCell: string -> string): (r: seq<LoadedCell>)
    ensures |r| == |nb|
    ensures forall i :: 0 <= i < |nb| ==> r[i].cell == nb[i] && (r[i].CodeCell? <==> nb[i].cellType == "code")
  {
    if nb == [] then []
    else
      var last := nb[|nb| - 1];
      var c := if last.cellType == "code" then CodeCell(last, Transformed(last.source, transformCell)) else PlainCell(last);
      LoadedCells(nb[..|nb| - 1], transformCell) + [c]
  }

  /** One more notebook cell appends its loaded form. */
  lemma LoadedCellsSnoc(nb: seq<NbCell>, transformCell: string -> string, i: nat)
    requires i < |nb|
    ensures LoadedCells(nb[..i + 1], transformCell) ==
            LoadedCells(nb[..i], transformCell) +
            [if nb[i].cellType == "code" then CodeCell(nb[i], Transformed(nb[i].source, transformCell)) else PlainCell(nb[i])]
  {
    assert nb[..i + 1][..i] == nb[..i];
  }

  /** A code cell runs the transformed source of its notebook cell. */
  lemma {:induction false} CodeCellsTransformed(nb: seq<NbCell>, transformCell: string -> string, i: nat)
    requires i < |nb| && nb[i].cellType == "code"
    ensures LoadedCells(nb, transformCell)[i] == CodeCell(nb[i], Transformed(nb[i].source, transformCell))
  {
    if i < |nb| - 1 {
      assert nb[..|nb| - 1][i] == nb[i];
      CodeCellsTransformed(nb[..|nb| - 1], transformCell, i);
    }
  }

  /** `NotebookModule`: a module with its file and its `__cells__`. */
  class NotebookModule {
    const name: string
    var file: Option<string>
    var cells: seq<LoadedCell>

    constructor(name: string, file: Option<string>)
      ensures this.name == name && this.file == file && cells == []
    {
      this.name := name;
      this.file := file;
      cells := [];
    }
  }

  class NotebookLoader {
    const path: Option<seq<string>>

    constructor(path: Option<seq<string>>)
      ensures this.path == path
    {
      this.path := path;
    }

    /** `_create_fresh_module`: a module named `fullname` whose file is the notebook found for it. */
    method CreateModule(fullname: string, files: set<string>) returns (m: NotebookModule)
      ensures fresh(m) && m.name == fullname && m.file == Locate(fullname, path, files) && m.cells == []
    {
      var file := FindNotebook(fullname, path, files);
      m := new NotebookModule(fullname, file);
    }

    /**
      `exec_module`: find and read the notebook, then append one entry per
      cell. Opening a notebook that was not found raises before the cell
      list is touched.
    */
    method ExecModule(nbModule: NotebookModule, files: set<string>, read: string -> seq<NbCell>,
                      transformCell: string -> string) returns (ok: bool)
      modifies nbModule
      ensures ok <==> Locate(nbModule.name, path, files).Some?
      ensures ok ==> nbModule.cells == LoadedCells(read(Locate(nbModule.name, path, files).value), transformCell)
      ensures !ok ==> nbModule.cells == old(nbModule.cells)
      ensures nbModule.file == old(nbModule.file)
    {
      var found := FindNotebook(nbModule.name, path, files);
      if found.None? {
        return false;
      }
      var nb := read(found.value);
      nbModule.cells := [];
      for i := 0 to |nb|
        invariant nbModule.cells == LoadedCells(nb[..i], transformCell)
        invariant nbModule.file == old(nbModule.file)
      {
        LoadedCellsSnoc(nb, transformCell, i);
        if nb[i].cellType == "code" {
          var code := TransformSource(nb[i].source, transformCell);
          nbModule.cells := nbModule.cells + [CodeCell(nb[i], code)];
        } else {
          nbModule.cells := nbModule.cells + [PlainCell(nb[i])];
        }
      }
      assert nb[..|nb|] == nb;
      return true;
    }
  }

  /** `ModuleSpec(fullname, loader)` */
  datatype ModuleSpec = ModuleSpec(name: string, loader: NotebookLoader)

  class NotebookFinder {
    /** The loader cache, keyed by the search path (`None` when none was given). */
    var loaders: map<Option<seq<string>>, NotebookLoader>

    /** Each cached loader searches the path it is cached under. */
    predicate Valid()
      reads this
    {
      forall key :: key in loaders ==> loaders[key].path == key
    }

    constructor()
      ensures Valid() && loaders == map[]
    {
      loaders := map[];
    }

    /**
      `find_module`: `None`, caching nothing, when no notebook is found;
      otherwise the cached loader for this path, created on first use.
    */
    method FindModule(fullname: string, path: Option<seq<string>>, files: set<string>) returns (r: Option<NotebookLoader>)
      requires Valid()
      modifies this
      ensures Valid()
      ensures r.None? <==> Locate(fullname, path, files).None?
      ensures r.None? ==> loaders == old(loaders)
      ensures r.Some? ==> path in loaders && r.value == loaders[path] && r.value.path == path
      ensures r.Some? && path in old(loaders) ==> r.value == old(loaders)[path] && loaders == old(loaders)
      ensures r.Some? && path !in old(loaders) ==> fresh(r.value) && loaders == old(loaders)[path := r.value]
    {
      var found := FindNotebook(fullname, path, files);
      if found.None? {
        return None;
      }
      if path !in loaders {
        var loader := new NotebookLoader(path);
        loaders := loaders[path := loader];
      }
      return Some(loaders[path]);
    }

    /** `find_spec`: `None` exactly when `find_module` is. */
    method FindSpec(fullname: string, path: Option<seq<string>>, files: set<string>) returns (r: Option<ModuleSpec>)
      requires Valid()
      modifies this
      ensures Valid()
      ensures r.None? <==> Locate(fullname, path, files).None?
      ensures r.Some? ==> r.value.name == fullname && path in loaders && r.value.loader == loaders[path] &&
                          r.value.loader.path == path
      ensures r.None? ==> loaders == old(loaders)
      ensures r.Some? && path in old(loaders) ==> r.value.loader == old(loaders)[path] && loaders == old(loaders)
      ensures r.Some? && path !in old(loaders) ==> fresh(r.value.loader) && loaders == old(loaders)[path := r.value.loader]
    {
      var loader := FindModule(fullname, path, files);
      if loader.None? {
        return None;
      }
      return Some(ModuleSpec(fullname, loader.value));
    }

    /** `invalidate_caches` */
    method InvalidateCaches()
      modifies this
      ensures Valid() && loaders == map[]
    {
      loaders := map[];
    }
  }

  /** The module name `import_from_path` uses: the file's base name without extension, spaces made underscores. */
  function ImportName(path: string): (r: string)
    ensures ' ' !in r
  {
    var r := ReplaceChar(StripExt(Basename(path)), ' ', '_');
    assert forall k :: 0 <= k < |r| ==> r[k] != ' ';
    r
  }

  lemma BasenameOf(dir: string, file: string)
    requires '/' !in file
    ensures Basename(dir + "/" + file) == file
  {
    var p := dir + "/" + file;
    assert p == (dir + "/") + file;
    LastIndexOfAppend(dir + "/", file, '/');
    assert (dir + "/")[|dir|] == '/';
    assert p[|dir| + 1..] == file;
  }

  lemma StripExtOf(name: string, ext: string)
    requires name != [] && name[0] != '.' && '.' !in name && '/' !in name
    requires '.' !in ext && '/' !in ext
    ensures StripExt(name + "." + ext) == name
  {
    var p := name + "." + ext;
    assert p == (name + ".") + ext;
    LastIndexOfAppend(name + ".", ext, '.');
    assert (name + ".")[|name|] == '.';
    assert LastIndexOf(p, '.') == Some(|name|);
    assert '/' !in p by {
      assert forall j :: 0 <= j < |p| ==> p[j] in name || p[j] == '.' || p[j] in ext;
    }
    assert p[0..|name|] == name && p[0] != '.';
    assert p[..|name|] == name;
  }

  lemma ImportNameOfNotebook(dir: string, name: string)
    requires name != [] && name[0] != '.' && '.' !in name && '/' !in name
    ensures ImportName(dir + "/" + name + ".ipynb") == ReplaceChar(name, ' ', '_')
  {
    assert name + ".ipynb" == name + "." + "ipynb";
    assert '/' !in name + ".ipynb" by {
      assert forall j :: 0 <= j < |name + ".ipynb"| ==> (name + ".ipynb")[j] in name || (name + ".ipynb")[j] in ".ipynb";
    }
    assert dir + "/" + name + ".ipynb" == dir + "/" + (name + ".ipynb");
    BasenameOf(dir, name + ".ipynb");
    StripExtOf(name, "ipynb");
  }

  /**
    `import_from_path`: look the notebook up under its import name in its
    own directory, create the module and execute it. A path whose notebook
    is not found gives no module (the source fails on the missing spec).
  */
  method ImportFromPath(path: string, files: set<string>, read: string -> seq<NbCell>, transformCell: string -> string)
    returns (r: Option<NotebookModule>)
    ensures r.None? <==> Locate(ImportName(path), Some([Dirname(path)]), files).None?
    ensures r.Some? ==> r.value.name == ImportName(path) &&
                        r.value.file == Locate(ImportName(path), Some([Dirname(path)]), files) &&
                        r.value.cells == LoadedCells(read(r.value.file.value), transformCell)
  {
    var base := ReplaceChar(StripExt(Basename(path)), ' ', '_');
    var finder := new NotebookFinder();
    var spec := finder.FindSpec(base, Some([Dirname(path)]), files);
    if spec.None? {
      return None;
    }
    var loader := spec.value.loader;
    var m := loader.CreateModule(spec.value.name, files);
    var ok := loader.ExecModule(m, files, read, transformCell);
    return Some(m);
  }
}
