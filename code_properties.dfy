/**
  The call-dependency analysis of `python_helper.code_properties`: parsed
  functions and classes (taken as given records, the `ast` traversal is not
  modelled), the parser that records each function's and method's direct
  dependencies including inherited methods, and the queries built on the
  dependency map and its transitive closure.
*/
module CodeProperties {
  import opened Wrappers
  import opened PyStr
  import opened DepGraph

  /**
    A top-level statement of a body as `isinstance` sees it: the AST classes
    the statement is an instance of, and those of its `value` attribute
    (empty when it has none).
  */
  datatype Stmt = Stmt(classes: set<string>, valueClasses: set<string>)

  /** A constant expression statement (a docstring) or `pass`. */
  predicate IsPlaceholder(s: Stmt) {
    ("Expr" in s.classes && "Constant" in s.valueClasses) || "Pass" in s.classes
  }

  /** A parsed function or method: its name, the names it calls, and its top-level body. */
  datatype ParsedFunction = ParsedFunction(
    name: string,
    calledFunctions: set<string>,  // `f(...)`
    calledMethods: set<string>,    // `x.f(...)`, the attribute name only
    body: seq<Stmt>,
    containingClass: Option<string>)

  /** Whether some statement of `body` is not a placeholder. */
  function SomeRealStatement(body: seq<Stmt>): (r: bool)
    ensures r <==> exists k :: 0 <= k < |body| && !IsPlaceholder(body[k])
  {
    if body == [] then false
    else if !IsPlaceholder(body[0]) then true
    else
      var r := SomeRealStatement(body[1..]);
      assert forall k :: 1 <= k < |body| ==> body[k] == body[1..][k - 1];
      r
  }

  /** `ParsedFunction.is_implemented`: false exactly when every top-level statement is a docstring or `pass`. */
  function IsImplemented(f: ParsedFunction): (r: bool)
    ensures !r <==> forall k :: 0 <= k < |f.body| ==> IsPlaceholder(f.body[k])
  {
    SomeRealStatement(f.body)
  }

  /** Whether some statement of `body` is an instance of one of the `checks` classes. */
  function SomeStatementOf(body: seq<Stmt>, checks: set<string>): (r: bool)
    ensures r <==> exists k :: 0 <= k < |body| && body[k].classes * checks != {}
  {
    if body == [] then false
    else if body[0].classes * checks != {} then true
    else
      var r := SomeStatementOf(body[1..], checks);
      assert forall k :: 1 <= k < |body| ==> body[k] == body[1..][k - 1];
      r
  }

  /** `ParsedFunction.uses_ast`: some top-level statement is an instance of a listed AST class. */
  function UsesAst(f: ParsedFunction, checks: set<string>): (r: bool)
    ensures r <==> exists k :: 0 <= k < |f.body| && f.body[k].classes * checks != {}
  {
    SomeStatementOf(f.body, checks)
  }

  /** An empty check list is never used; using some checks implies using any larger list. */
  lemma UsesAstMonotone(f: ParsedFunction, checks: set<string>, more: set<string>)
    requires checks <= more
    ensures !UsesAst(f, {})
    ensures UsesAst(f, checks) ==> UsesAst(f, more)
  {
    if UsesAst(f, checks) {
      var k :| 0 <= k < |f.body| && f.body[k].classes * checks != {};
      var t :| t in f.body[k].classes * checks;
      assert t in f.body[k].classes * more;
    }
  }

  /** A parsed class: its name, the names of its bases, and its methods by name. */
  datatype ParsedClass = ParsedClass(name: string, bases: set<string>, methods: map<string, ParsedFunction>)

  /** A Python identifier as far as this model needs: non-empty and without a dot. */
  predicate Identifier(s: string) {
    s != [] && '.' !in s
  }

  /** The dependency key of method `m` of class `c`, `f"{cls}.{method}"`. */
  function Key(c: string, m: string): string {
    c + "." + m
  }

  /** A method key is the class and method names joined by a dot. */
  lemma KeyJoin(c: string, m: string)
    ensures Key(c, m) == Join([c, m], '.')
  {
    assert Join([c, m], '.') == c + ['.'] + Join([m], '.');
  }

  /** A method key splits back into its class and method name. */
  lemma SplitKey(c: string, m: string)
    requires Identifier(c) && Identifier(m)
    ensures Split(Key(c, m), '.') == [c, m]
  {
    KeyJoin(c, m);
    SplitJoin([c, m], '.');
  }

  /** Method keys of identifiers determine class and method. */
  lemma KeyInjective(c: string, m: string, c': string, m': string)
    requires Identifier(c) && Identifier(m) && Identifier(c') && Identifier(m')
    requires Key(c, m) == Key(c', m')
    ensures c == c' && m == m'
  {
    SplitKey(c, m);
    SplitKey(c', m');
  }

  /** A method key is never the name of a top-level function. */
  lemma KeyIsNotIdentifier(c: string, m: string)
    ensures !Identifier(Key(c, m))
  {
    assert Key(c, m)[|c|] == '.';
  }

  /** `ParsedClass.get_unimplemented`: the keys of exactly the unimplemented methods. */
  function ClassUnimplemented(cls: ParsedClass): (r: set<string>)
    ensures forall m :: m in cls.methods ==> (Key(cls.name, m) in r <==> !IsImplemented(cls.methods[m]))
    ensures |r| <= |cls.methods|
  {
    var unimplemented := set m | m in cls.methods && !IsImplemented(cls.methods[m]);
    assert unimplemented <= cls.methods.Keys;
    SetSizeBound(unimplemented, cls.methods.Keys);
    ImageSize(unimplemented, cls.name);
    var r := set m | m in unimplemented :: Key(cls.name, m);
    forall m | m in cls.methods ensures Key(cls.name, m) in r <==> m in unimplemented {
      forall m' | m' in unimplemented && Key(cls.name, m') == Key(cls.name, m) ensures m' == m {
        KeySameClass(cls.name, m', m);
      }
    }
    r
  }

  lemma KeySameClass(c: string, m: string, m': string)
    requires Key(c, m) == Key(c, m')
    ensures m == m'
  {
    assert m == Key(c, m)[|c| + 1..];
    assert m' == Key(c, m')[|c| + 1..];
  }

  lemma SetSizeBound<T>(a: set<T>, b: set<T>)
    requires a <= b
    ensures |a| <= |b|
  {
    assert b == a + (b - a);
  }

  lemma {:induction false} ImageSize(ms: set<string>, c: string)
    ensures |set m | m in ms :: Key(c, m)| <= |ms|
    decreases |ms|
  {
    if ms != {} {
      var m :| m in ms;
      var rest := ms - {m};
      ImageSize(rest, c);
      assert (set x | x in ms :: Key(c, x)) == (set x | x in rest :: Key(c, x)) + {Key(c, m)};
    }
  }

  /** `self._dependencies[fn]` contribution of a top-level function: its called functions and method names. */
  function FunctionDeps(f: ParsedFunction): set<string> {
    f.calledFunctions + f.calledMethods
  }

  /** The contribution of method `f` of class `c`: its called functions and `c.x` for each called method `x`. */
  function MethodDeps(c: string, f: ParsedFunction): set<string> {
    f.calledFunctions + (set x | x in f.calledMethods :: Key(c, x))
  }

  /** A method's contribution names its class for every method it calls. */
  lemma MethodDepsQualified(c: string, f: ParsedFunction, x: string)
    requires x in f.calledMethods
    ensures Key(c, x) in MethodDeps(c, f)
  {
  }

  /** The set at `k`, or the fresh empty set the source inserts for a missing key. */
  function Prior(d: Deps, k: string): set<string> {
    if k in d then d[k] else {}
  }

  /** The dependency map after the function pass of `_update_dependencies`. */
  function AfterFunctions(d: Deps, fs: map<string, ParsedFunction>): Deps {
    FunctionsDone(d, fs, fs.Keys)
  }

  /** The dependency map once the functions named in `done` have been added. */
  function FunctionsDone(d: Deps, fs: map<string, ParsedFunction>, done: set<string>): Deps {
    map k | k in d.Keys + done :: Prior(d, k) + (if k in done && k in fs then FunctionDeps(fs[k]) else {})
  }

  /** The keys of all methods of all classes. */
  function MethodKeys(cs: map<string, ParsedClass>): set<string> {
    set c, m | c in cs && m in cs[c].methods :: Key(c, m)
  }

  /** `k` is `c.m` for a method `m` of a class `c` of `cs`. */
  predicate IsMethodKeyOf(cs: map<string, ParsedClass>, k: string) {
    var p := Split(k, '.');
    |p| == 2 && p[0] in cs && p[1] in cs[p[0]].methods
  }

  /** The contribution of the method named by key `k`, if `k` is a method key of `cs`. */
  function MethodContribution(cs: map<string, ParsedClass>, k: string): set<string> {
    if IsMethodKeyOf(cs, k) then
      var p := Split(k, '.');
      MethodDeps(p[0], cs[p[0]].methods[p[1]])
    else {}
  }

  /** The dependency map after the method pass of `_update_dependencies`. */
  function AfterMethods(d: Deps, cs: map<string, ParsedClass>): Deps {
    MethodsDone(d, cs, MethodKeys(cs))
  }

  /** The dependency map once the method keys in `done` have been added. */
  function MethodsDone(d: Deps, cs: map<string, ParsedClass>, done: set<string>): Deps {
    map k | k in d.Keys + done :: Prior(d, k) + (if k in done then MethodContribution(cs, k) else {})
  }

  /** The names of classes and methods are identifiers. */
  predicate WellNamed(cs: map<string, ParsedClass>) {
    forall c :: c in cs ==> Identifier(c) && forall m :: m in cs[c].methods ==> Identifier(m)
  }

  /**
    After the method pass, each method `c.m` depends on what the key held
    before plus the method's own contribution, and every other key is as it
    was.
  */
  lemma AfterMethodsAt(d: Deps, cs: map<string, ParsedClass>, c: string, m: string)
    requires WellNamed(cs) && c in cs && m in cs[c].methods
    ensures Key(c, m) in AfterMethods(d, cs)
    ensures AfterMethods(d, cs)[Key(c, m)] == Prior(d, Key(c, m)) + MethodDeps(c, cs[c].methods[m])
  {
    SplitKey(c, m);
  }

  /** Keys of the old map that are no method key keep their sets through the method pass. */
  lemma AfterMethodsElsewhere(d: Deps, cs: map<string, ParsedClass>, k: string)
    requires k in d && k !in MethodKeys(cs)
    ensures AfterMethods(d, cs)[k] == d[k]
  {
  }

  /** A method with the same name and dependencies whatever class it is copied into. */
  function Renamed(deps: set<string>, parent: string, cls: string): set<string> {
    set x | x in deps :: ReplaceAll(x, parent + ".", cls + ".")
  }

  /** Why a query or the parser raises. */
  datatype LookupError =
    | KeyError(key: string)    // a base class that was not parsed, or a method key with no method
    | UnpackError(key: string) // `cls, method = fn.split(".")` on a key without exactly one dot

  /** `ASTParser`: the parsed functions and classes and the dependency map built from them. */
  class AstParser {
    var functions: map<string, ParsedFunction>
    var classes: map<string, ParsedClass>
    /** The insertion order of `classes`, which the inheritance pass follows. */
    var classOrder: seq<string>
    var dependencies: Deps

    ghost predicate Valid()
      reads this
    {
      && (forall f :: f in functions ==> Identifier(f))
      && WellNamed(classes)
      && (forall c :: c in classes ==> classes[c].name == c)
      && (forall c :: c in classes <==> c in classOrder)
      && (forall i, j :: 0 <= i < j < |classOrder| ==> classOrder[i] != classOrder[j])
    }

    constructor ()
      ensures Valid()
      ensures functions == map[] && classes == map[] && classOrder == [] && dependencies == map[]
    {
      functions := map[];
      classes := map[];
      classOrder := [];
      dependencies := map[];
    }

    /** `visit_FunctionDef`: record a top-level function, replacing one of the same name. */
    method VisitFunctionDef(f: ParsedFunction)
      requires Valid() && Identifier(f.name)
      modifies this
      ensures Valid()
      ensures functions == old(functions)[f.name := f]
      ensures classes == old(classes) && classOrder == old(classOrder) && dependencies == old(dependencies)
    {
      functions := functions[f.name := f];
    }

    /** `visit_ClassDef`: record a class, replacing one of the same name but keeping its place in the order. */
    method VisitClassDef(cls: ParsedClass)
      requires Valid() && Identifier(cls.name)
      requires forall m :: m in cls.methods ==> Identifier(m)
      modifies this
      ensures Valid()
      ensures classes == old(classes)[cls.name := cls]
      ensures classOrder == if cls.name in old(classes) then old(classOrder) else old(classOrder) + [cls.name]
      ensures functions == old(functions) && dependencies == old(dependencies)
    {
      if cls.name !in classes {
        classOrder := classOrder + [cls.name];
      }
      classes := classes[cls.name := cls];
    }

    /** The function pass of `_update_dependencies`. */
    method AddFunctionDependencies()
      modifies this
      ensures dependencies == AfterFunctions(old(dependencies), functions)
      ensures functions == old(functions) && classes == old(classes) && classOrder == old(classOrder)
    {
      dependencies := FunctionPass(functions, dependencies);
    }

    /** The method pass of `_update_dependencies`. */
    method AddMethodDependencies()
      requires Valid()
      modifies this
      ensures dependencies == AfterMethods(old(dependencies), classes)
      ensures functions == old(functions) && classes == old(classes) && classOrder == old(classOrder)
    {
      dependencies := MethodPass(classes, dependencies);
    }

    /**
      `_update_dependencies`: the function pass, the method pass, then the
      inheritance pass, which raises `KeyError` at a base that is not a
      parsed class and leaves what it did so far in place.
    */
    method UpdateDependencies() returns (err: Option<LookupError>)
      requires Valid()
      modifies this
      ensures Valid() && KeysPresent(classes, dependencies)
      ensures functions == old(functions) && classOrder == old(classOrder)
      ensures Inheriting(old(classes), AfterMethods(AfterFunctions(old(dependencies), old(functions)), old(classes)), classes, dependencies)
      ensures forall k :: k in dependencies && k !in old(dependencies) ==> Lookup(functions, classes, k).Success?
      ensures err.None? <==> BasesKnown(old(classes))
      ensures err.Some? ==> err.value.KeyError? && err.value.key !in old(classes)
      ensures err.Some? ==> exists c :: c in old(classes) && err.value.key in old(classes)[c].bases
      ensures err.None? ==>
        forall c, p, m :: c in old(classes) && p in old(classes)[c].bases && m in old(classes)[p].methods ==> Key(c, m) in dependencies
    {
      AddFunctionDependencies();
      AddMethodDependencies();
      ghost var d1 := dependencies;
      ghost var cs1 := classes;
      AfterMethodsKeys(AfterFunctions(old(dependencies), functions), classes);
      var cs, d, e := InheritPass(classes, dependencies, classOrder);
      classes, dependencies, err := cs, d, e;
      NewKeysResolve(old(dependencies), functions, cs1, d1, classes, dependencies);
    }

    /**
      `parse` of one module: visit its top-level definitions in order, then
      update the dependencies.
    */
    method Parse(defs: seq<Def>) returns (err: Option<LookupError>)
      requires Valid()
      requires forall i :: 0 <= i < |defs| ==> WellNamedDef(defs[i])
      modifies this
      ensures Valid() && KeysPresent(classes, dependencies)
      ensures functions == FunctionsVisited(old(functions), defs)
      ensures ClassesGrow(ClassesVisited(old(classes), defs), classes)
      ensures forall k :: k in dependencies && k !in old(dependencies) ==> Lookup(functions, classes, k).Success?
      ensures err.None? <==> BasesKnown(ClassesVisited(old(classes), defs))
    {
      for i := 0 to |defs|
        invariant Valid()
        invariant functions == FunctionsVisited(old(functions), defs[..i])
        invariant classes == ClassesVisited(old(classes), defs[..i])
        invariant dependencies == old(dependencies)
      {
        assert defs[..i + 1] == defs[..i] + [defs[i]];
        match defs[i]
        case FunctionDef(f) => VisitFunctionDef(f);
        case ClassDef(cls) => VisitClassDef(cls);
      }
      assert defs[..|defs|] == defs;
      err := UpdateDependencies();
    }

    /** `get_dependencies`: the direct map, or the transitive closure of `current` (the direct map by default). */
    method GetDependencies(indirect: bool, current: Option<Deps>) returns (r: Deps)
      ensures !indirect ==> r == dependencies
      ensures indirect ==> r == Close(current.GetOr(dependencies))
    {
      if !indirect {
        return dependencies;
      }
      r := Closure(current.GetOr(dependencies));
    }

    /**
      `get_recursive`: the names that depend on themselves and, with
      `indirect`, also the names that depend on one of those.
    */
    method GetRecursive(indirect: bool) returns (r: set<string>)
      ensures r == RecursiveNames(if indirect then Close(dependencies) else dependencies, indirect)
    {
      var deps := GetDependencies(indirect, None);
      var recursive := SelfCallers(deps);
      if !indirect {
        return recursive;
      }
      var indirectlyRecursive := Callers(deps, recursive);
      r := recursive + indirectlyRecursive;
    }

    /** `ASTParser.get_unimplemented`: unimplemented functions, then each class's unimplemented methods. */
    method GetUnimplemented() returns (r: set<string>)
      ensures r == Unimplemented(functions, classes)
    {
      var unimplemented := UnimplementedFunctionsOf(functions);
      var methodsPart := UnimplementedMethodsOf(classes);
      r := unimplemented + methodsPart;
    }

    /**
      `get_functions_using`: over the closed dependency map, the keys whose
      own body uses one of `checks` and, with `indirect`, also the keys
      that depend on one of those. Looking a key up raises as the source
      does: a key with more than one dot cannot be unpacked, and a class,
      method or function that is not parsed is a `KeyError`.
    */
    method GetFunctionsUsing(checks: set<string>, indirect: bool) returns (r: Result<set<string>, LookupError>)
      ensures r.Success? <==> forall k :: k in dependencies ==> Lookup(functions, classes, k).Success?
      ensures r.Failure? ==> exists k :: k in dependencies && Lookup(functions, classes, k) == Failure(r.error)
      ensures r.Success? ==> r.value == FunctionsUsing(functions, classes, Close(dependencies), checks, indirect)
    {
      var deps := GetDependencies(true, None);
      CloseKeys(dependencies);
      assert deps == Close(dependencies) && deps.Keys == dependencies.Keys;
      var found := InitiallyUsing(functions, classes, deps.Keys, checks);
      if found.Failure? {
        return Failure(found.error);
      }
      var initial := found.value;
      assert initial == UsingAst(functions, classes, deps.Keys, checks);
      if !indirect {
        return Success(initial);
      }
      var callers := Callers(deps, initial);
      r := Success(initial + callers);
    }
  }

  /** The first loop of `get_unimplemented`. */
  method UnimplementedFunctionsOf(fs: map<string, ParsedFunction>) returns (r: set<string>)
    ensures r == UnimplementedFunctions(fs, fs.Keys)
  {
    r := {};
    var todo := fs.Keys;
    while todo != {}
      invariant todo <= fs.Keys
      invariant forall f :: f in r <==> f in fs && f !in todo && !IsImplemented(fs[f])
      decreases todo
    {
      var f :| f in todo;
      if !IsImplemented(fs[f]) {
        r := r + {f};
      }
      todo := todo - {f};
    }
  }

  /** The second loop of `get_unimplemented`: each class's `get_unimplemented`. */
  method UnimplementedMethodsOf(cs: map<string, ParsedClass>) returns (r: set<string>)
    ensures r == UnimplementedMethods(cs, cs.Keys)
  {
    r := {};
    var todo := cs.Keys;
    ghost var done: set<string> := {};
    while todo != {}
      invariant done + todo == cs.Keys && done !! todo
      invariant r == UnimplementedMethods(cs, done)
      decreases todo
    {
      var c :| c in todo;
      UnimplementedMethodsOneMore(cs, done, c);
      r := r + ClassUnimplemented(cs[c]);
      done := done + {c};
      todo := todo - {c};
    }
  }

  /**
    The first loop of `get_functions_using`: the keys whose definition
    uses one of `checks`, or the error of the first key whose lookup fails.
  */
  method InitiallyUsing(fs: map<string, ParsedFunction>, cs: map<string, ParsedClass>, keys: set<string>, checks: set<string>)
    returns (r: Result<set<string>, LookupError>)
    ensures r.Success? <==> forall k :: k in keys ==> Lookup(fs, cs, k).Success?
    ensures r.Failure? ==> exists k :: k in keys && Lookup(fs, cs, k) == Failure(r.error)
    ensures r.Success? ==> r.value == UsingAst(fs, cs, keys, checks)
  {
    var initial: set<string> := {};
    var todo := keys;
    while todo != {}
      invariant todo <= keys
      invariant forall k :: k in keys && k !in todo ==> Lookup(fs, cs, k).Success?
      invariant forall k :: k in initial <==> k in keys && k !in todo && UsesAst(Lookup(fs, cs, k).value, checks)
      decreases todo
    {
      var fn :| fn in todo;
      var found := Lookup(fs, cs, fn);
      if found.Failure? {
        return Failure(found.error);
      }
      if UsesAst(found.value, checks) {
        initial := initial + {fn};
      }
      todo := todo - {fn};
    }
    r := Success(initial);
  }

  /** A top-level definition the visitor records. */
  datatype Def = FunctionDef(f: ParsedFunction) | ClassDef(cls: ParsedClass)

  /** What the `ast` guarantees of a definition: its name and its methods' names are identifiers. */
  predicate WellNamedDef(d: Def) {
    match d
    case FunctionDef(f) => Identifier(f.name)
    case ClassDef(cls) => Identifier(cls.name) && forall m :: m in cls.methods ==> Identifier(m)
  }

  /** The functions after visiting `defs`: a later definition replaces an earlier one of the same name. */
  function FunctionsVisited(fs: map<string, ParsedFunction>, defs: seq<Def>): map<string, ParsedFunction> {
    if defs == [] then fs
    else
      var before := FunctionsVisited(fs, defs[..|defs| - 1]);
      match defs[|defs| - 1]
      case FunctionDef(f) => before[f.name := f]
      case ClassDef(_) => before
  }

  /** The classes after visiting `defs`. */
  function ClassesVisited(cs: map<string, ParsedClass>, defs: seq<Def>): map<string, ParsedClass> {
    if defs == [] then cs
    else
      var before := ClassesVisited(cs, defs[..|defs| - 1]);
      match defs[|defs| - 1]
      case FunctionDef(_) => before
      case ClassDef(cls) => before[cls.name := cls]
  }

  /** For each function, in any order, add its called functions and method names to its entry. */
  method FunctionPass(fs: map<string, ParsedFunction>, d0: Deps) returns (deps: Deps)
    ensures deps == AfterFunctions(d0, fs)
  {
    deps := d0;
    var done: set<string> := {};
    var todo := fs.Keys;
    FunctionsNoneDone(d0, fs);
    assert done == fs.Keys - fs.Keys;
    while todo != {}
      invariant done + todo == fs.Keys
      invariant deps == FunctionsDone(d0, fs, done)
      decreases todo
    {
      var fn :| fn in todo;
      FunctionsOneMore(d0, fs, done, fn, deps);
      deps := deps[fn := Prior(deps, fn) + FunctionDeps(fs[fn])];
      done := done + {fn};
      todo := todo - {fn};
    }
    assert done == fs.Keys;
  }

  /** For each method of each class, add its called functions and `cls.m` for each called method `m`. */
  method MethodPass(cs: map<string, ParsedClass>, d0: Deps) returns (deps: Deps)
    requires WellNamed(cs)
    ensures deps == AfterMethods(d0, cs)
  {
    deps := d0;
    var done: set<string> := {};
    var todo := cs.Keys;
    MethodsNoneDone(d0, cs);
    while todo != {}
      invariant todo <= cs.Keys
      invariant done <= MethodKeys(cs)
      invariant forall c', m :: c' in cs && c' !in todo && m in cs[c'].methods ==> Key(c', m) in done
      invariant deps == MethodsDone(d0, cs, done)
      decreases todo
    {
      var c :| c in todo;
      deps, done := ClassMethodPass(cs, c, d0, done, deps);
      todo := todo - {c};
    }
    AllMethodKeys(cs, done);
  }

  /** The methods of one class `c` in the method pass: `done` gains exactly their keys. */
  method ClassMethodPass(cs: map<string, ParsedClass>, c: string, d0: Deps, done0: set<string>, deps0: Deps)
    returns (deps: Deps, done: set<string>)
    requires WellNamed(cs) && c in cs && done0 <= MethodKeys(cs) && deps0 == MethodsDone(d0, cs, done0)
    ensures done0 <= done <= MethodKeys(cs)
    ensures forall m :: m in cs[c].methods ==> Key(c, m) in done
    ensures deps == MethodsDone(d0, cs, done)
  {
    deps, done := deps0, done0;
    var methods := cs[c].methods;
    var todoM := methods.Keys;
    ghost var doneM: set<string> := {};
    while todoM != {}
      invariant todoM <= methods.Keys && methods.Keys <= todoM + doneM
      invariant done0 <= done <= MethodKeys(cs)
      invariant KeysIn(c, doneM, done)
      invariant deps == MethodsDone(d0, cs, done)
      decreases todoM
    {
      var m :| m in todoM;
      var fullKey := Key(c, m);
      MethodsOneMore(d0, cs, done, c, m);
      deps := deps[fullKey := Prior(deps, fullKey) + MethodDeps(c, methods[m])];
      done := done + {fullKey};
      doneM := doneM + {m};
      todoM := todoM - {m};
    }
  }

  /** Every method in `ms` of class `c` has its key in `done`. */
  predicate KeysIn(c: string, ms: set<string>, done: set<string>) {
    forall m :: m in ms ==> Key(c, m) in done
  }

  lemma AllMethodKeys(cs: map<string, ParsedClass>, done: set<string>)
    requires done <= MethodKeys(cs)
    requires forall c, m :: c in cs && m in cs[c].methods ==> Key(c, m) in done
    ensures done == MethodKeys(cs)
  {
  }

  lemma FunctionsNoneDone(d: Deps, fs: map<string, ParsedFunction>)
    ensures FunctionsDone(d, fs, fs.Keys - fs.Keys) == d
  {
    var r := FunctionsDone(d, fs, fs.Keys - fs.Keys);
    assert r.Keys == d.Keys;
    forall k | k in d ensures r[k] == d[k] {
    }
  }

  /** Adding one more function updates exactly its own key. */
  lemma FunctionsOneMore(d: Deps, fs: map<string, ParsedFunction>, done: set<string>, fn: string, deps: Deps)
    requires fn in fs && deps == FunctionsDone(d, fs, done)
    ensures deps[fn := Prior(deps, fn) + FunctionDeps(fs[fn])] == FunctionsDone(d, fs, done + {fn})
  {
    var a := FunctionsDone(d, fs, done + {fn});
    var b := deps[fn := Prior(deps, fn) + FunctionDeps(fs[fn])];
    assert a.Keys == b.Keys;
    var fd := FunctionDeps(fs[fn]);
    if fn in done {
      assert Prior(deps, fn) == Prior(d, fn) + fd;
    } else {
      assert Prior(deps, fn) == Prior(d, fn);
    }
    assert Prior(deps, fn) + fd == Prior(d, fn) + fd;
    forall k | k in a ensures a[k] == b[k] {
      if k == fn {
        assert a[k] == Prior(d, k) + fd;
      } else {
        assert a[k] == deps[k];
      }
    }
  }

  lemma MethodsNoneDone(d: Deps, cs: map<string, ParsedClass>)
    ensures MethodsDone(d, cs, {}) == d
  {
    var r := MethodsDone(d, cs, {});
    assert r.Keys == d.Keys;
    forall k | k in d ensures r[k] == d[k] {
    }
  }

  /** Adding one more method updates exactly its own key. */
  lemma MethodsOneMore(d: Deps, cs: map<string, ParsedClass>, done: set<string>, c: string, m: string)
    requires WellNamed(cs) && c in cs && m in cs[c].methods
    ensures Key(c, m) in MethodKeys(cs)
    ensures MethodsDone(d, cs, done + {Key(c, m)}) ==
      MethodsDone(d, cs, done)[Key(c, m) := Prior(MethodsDone(d, cs, done), Key(c, m)) + MethodDeps(c, cs[c].methods[m])]
  {
    var k0 := Key(c, m);
    SplitKey(c, m);
    assert MethodContribution(cs, k0) == MethodDeps(c, cs[c].methods[m]);
    var a := MethodsDone(d, cs, done + {k0});
    var b := MethodsDone(d, cs, done)[k0 := Prior(MethodsDone(d, cs, done), k0) + MethodContribution(cs, k0)];
    assert a.Keys == b.Keys;
    forall k | k in a ensures a[k] == b[k] {
    }
  }

  /** Every method of every class of `cs` has an entry in `d`. */
  predicate KeysPresent(cs: map<string, ParsedClass>, d: Deps) {
    forall c, m :: c in cs && m in cs[c].methods ==> Key(c, m) in d
  }

  /** The class map is keyed by class name, and all names are identifiers, and every method has an entry. */
  predicate Consistent(cs: map<string, ParsedClass>, d: Deps) {
    WellNamed(cs) && (forall c :: c in cs ==> cs[c].name == c) && KeysPresent(cs, d)
  }

  /** `b` has the classes of `a` with the same names and bases, and every method of `a`, unchanged. */
  predicate ClassesGrow(a: map<string, ParsedClass>, b: map<string, ParsedClass>) {
    && a.Keys == b.Keys
    && forall c :: c in a ==>
      && b[c].name == a[c].name && b[c].bases == a[c].bases
      && forall m :: m in a[c].methods ==> m in b[c].methods && b[c].methods[m] == a[c].methods[m]
  }

  /** `b` has every entry of `a`, unchanged. */
  predicate DepsExtend(a: Deps, b: Deps) {
    forall k :: k in a ==> k in b && b[k] == a[k]
  }

  /**
    Method `m` of class `c` is the copy of the method of base `p`: the copy
    names `c` as its class, and its entry is the parent's with `p.`
    rewritten to `c.`.
  */
  predicate InheritedEntry(cs: map<string, ParsedClass>, d: Deps, c: string, p: string, m: string) {
    && c in cs && p in cs && p in cs[c].bases
    && m in cs[p].methods && m in cs[c].methods
    && cs[c].methods[m] == cs[p].methods[m].(containingClass := Some(c))
    && Key(p, m) in d && Key(c, m) in d
    && d[Key(c, m)] == Renamed(d[Key(p, m)], p, c)
  }

  /**
    From (`cs0`, `d0`) to (`cs`, `d`) the inheritance pass only added: old
    classes and entries are unchanged, and every new entry and every new
    method is inherited from a base.
  */
  ghost predicate Inheriting(cs0: map<string, ParsedClass>, d0: Deps, cs: map<string, ParsedClass>, d: Deps) {
    && ClassesGrow(cs0, cs) && DepsExtend(d0, d)
    && (forall k :: k in d && k !in d0 ==> exists c, p, m :: k == Key(c, m) && InheritedEntry(cs, d, c, p, m))
    && (forall c, m :: c in cs0 && m in cs[c].methods && m !in cs0[c].methods ==> exists p :: InheritedEntry(cs, d, c, p, m))
  }

  /** Every base of every class is itself a parsed class. */
  predicate BasesKnown(cs: map<string, ParsedClass>) {
    forall c, p :: c in cs && p in cs[c].bases ==> p in cs
  }

  lemma InheritingReflexive(cs: map<string, ParsedClass>, d: Deps)
    ensures Inheriting(cs, d, cs, d)
  {
  }

  lemma InheritedEntryStable(cs: map<string, ParsedClass>, d: Deps, cs': map<string, ParsedClass>, d': Deps, c: string, p: string, m: string)
    requires ClassesGrow(cs, cs') && DepsExtend(d, d') && InheritedEntry(cs, d, c, p, m)
    ensures InheritedEntry(cs', d', c, p, m)
  {
  }

  lemma InheritingTransitive(cs1: map<string, ParsedClass>, d1: Deps, cs2: map<string, ParsedClass>, d2: Deps, cs3: map<string, ParsedClass>, d3: Deps)
    requires Inheriting(cs1, d1, cs2, d2) && Inheriting(cs2, d2, cs3, d3)
    ensures Inheriting(cs1, d1, cs3, d3)
  {
    forall k | k in d3 && k !in d1 ensures exists c, p, m :: k == Key(c, m) && InheritedEntry(cs3, d3, c, p, m) {
      if k in d2 {
        var c, p, m :| k == Key(c, m) && InheritedEntry(cs2, d2, c, p, m);
        InheritedEntryStable(cs2, d2, cs3, d3, c, p, m);
      }
    }
    forall c, m | c in cs1 && m in cs3[c].methods && m !in cs1[c].methods ensures exists p :: InheritedEntry(cs3, d3, c, p, m) {
      if m in cs2[c].methods {
        var p :| InheritedEntry(cs2, d2, c, p, m);
        InheritedEntryStable(cs2, d2, cs3, d3, c, p, m);
      }
    }
  }

  /** Copying one method `m` of base `p` into class `c`, which has no entry for it yet. */
  lemma InheritOne(cs: map<string, ParsedClass>, d: Deps, c: string, p: string, m: string)
    requires Consistent(cs, d) && c in cs && p in cs && p in cs[c].bases && m in cs[p].methods
    requires Key(c, m) !in d
    ensures Key(p, m) in d
    ensures var d' := d[Key(c, m) := Renamed(d[Key(p, m)], p, c)];
      var cs' := cs[c := cs[c].(methods := cs[c].methods[m := cs[p].methods[m].(containingClass := Some(c))])];
      Consistent(cs', d') && Inheriting(cs, d, cs', d')
  {
    var d' := d[Key(c, m) := Renamed(d[Key(p, m)], p, c)];
    var cs' := cs[c := cs[c].(methods := cs[c].methods[m := cs[p].methods[m].(containingClass := Some(c))])];
    assert p != c;
    assert m !in cs[c].methods;
    assert InheritedEntry(cs', d', c, p, m);
  }

  /**
    One step of the loop over the methods of base `p`: unless `c.m` has an
    entry already, copy the method and its renamed entry into `c`.
  */
  method InheritMethod(cs: map<string, ParsedClass>, d: Deps, c: string, p: string, m: string)
    returns (cs': map<string, ParsedClass>, d': Deps)
    requires Consistent(cs, d) && c in cs && p in cs && p in cs[c].bases && m in cs[p].methods
    ensures Consistent(cs', d') && Inheriting(cs, d, cs', d')
    ensures DepsExtend(d, d') && Key(c, m) in d'
  {
    var fullKey := Key(c, m);
    if fullKey !in d {
      InheritOne(cs, d, c, p, m);
      d' := d[fullKey := Renamed(d[Key(p, m)], p, c)];
      cs' := cs[c := cs[c].(methods := cs[c].methods[m := cs[p].methods[m].(containingClass := Some(c))])];
    } else {
      InheritingReflexive(cs, d);
      cs', d' := cs, d;
    }
  }

  /** Every method name in `ms` has an entry `c.m`. */
  predicate HasKeys(c: string, ms: set<string>, d: Deps) {
    forall m :: m in ms ==> Key(c, m) in d
  }

  lemma HasKeysAdd(c: string, ms: set<string>, m: string, d: Deps, d': Deps)
    requires HasKeys(c, ms, d) && DepsExtend(d, d') && Key(c, m) in d'
    ensures HasKeys(c, ms + {m}, d')
  {
    forall m' | m' in ms + {m} ensures Key(c, m') in d' {
      if m' != m {
        assert Key(c, m') in d;
      }
    }
  }

  /** The loop over the methods of base `p` of class `c`. */
  method InheritFrom(cs0: map<string, ParsedClass>, d0: Deps, c: string, p: string)
    returns (cs: map<string, ParsedClass>, d: Deps)
    requires Consistent(cs0, d0) && c in cs0 && p in cs0 && p in cs0[c].bases
    ensures Consistent(cs, d) && Inheriting(cs0, d0, cs, d)
    ensures HasKeys(c, cs0[p].methods.Keys, d)
  {
    cs, d := cs0, d0;
    var parentMethods := cs0[p].methods;
    var todo := parentMethods.Keys;
    ghost var done: set<string> := {};
    InheritingReflexive(cs0, d0);
    while todo != {}
      invariant parentMethods.Keys <= todo + done
      invariant Consistent(cs, d)
      invariant Inheriting(cs0, d0, cs, d)
      invariant HasKeys(c, done, d)
      decreases todo
    {
      var m :| m in todo;
      var cs', d' := InheritMethod(cs, d, c, p, m);
      InheritingTransitive(cs0, d0, cs, d, cs', d');
      HasKeysAdd(c, done, m, d, d');
      cs, d := cs', d';
      todo := todo - {m};
      done := done + {m};
    }
  }

  lemma HasKeysSub(c: string, a: set<string>, b: set<string>, d: Deps, d': Deps)
    requires a <= b && HasKeys(c, b, d) && DepsExtend(d, d')
    ensures HasKeys(c, a, d')
  {
    forall m | m in a ensures Key(c, m) in d' {
      assert Key(c, m) in d;
    }
  }

  /** Every base in `ps` is a parsed class of `cs0`, and each of its methods has an entry `c.m`. */
  predicate BasesDone(cs0: map<string, ParsedClass>, c: string, ps: set<string>, d: Deps) {
    forall p :: p in ps ==> p in cs0 && HasKeys(c, cs0[p].methods.Keys, d)
  }

  lemma BasesDoneAdd(cs0: map<string, ParsedClass>, c: string, ps: set<string>, p: string, d: Deps, d': Deps)
    requires BasesDone(cs0, c, ps, d) && DepsExtend(d, d')
    requires p in cs0 && HasKeys(c, cs0[p].methods.Keys, d')
    ensures BasesDone(cs0, c, ps + {p}, d')
  {
    forall p' | p' in ps ensures HasKeys(c, cs0[p'].methods.Keys, d') {
      HasKeysSub(c, cs0[p'].methods.Keys, cs0[p'].methods.Keys, d, d');
    }
  }

  /** A base of the grown classes has at least the methods it had. */
  lemma GrownMethods(cs0: map<string, ParsedClass>, cs: map<string, ParsedClass>, p: string)
    requires ClassesGrow(cs0, cs) && p in cs0
    ensures p in cs && cs0[p].methods.Keys <= cs[p].methods.Keys
  {
  }

  /** The loop over the bases of class `c`: a base that is not a parsed class raises `KeyError`. */
  method InheritFromBases(cs0: map<string, ParsedClass>, d0: Deps, c: string)
    returns (cs: map<string, ParsedClass>, d: Deps, err: Option<LookupError>)
    requires Consistent(cs0, d0) && c in cs0
    ensures Consistent(cs, d) && Inheriting(cs0, d0, cs, d)
    ensures err.None? <==> forall p :: p in cs0[c].bases ==> p in cs0
    ensures err.Some? ==> err.value.KeyError? && err.value.key in cs0[c].bases && err.value.key !in cs0
    ensures err.None? ==> BasesDone(cs0, c, cs0[c].bases, d)
  {
    cs, d := cs0, d0;
    InheritingReflexive(cs0, d0);
    var todo := cs0[c].bases;
    ghost var done: set<string> := {};
    while todo != {}
      invariant todo <= cs0[c].bases && cs0[c].bases <= todo + done
      invariant Consistent(cs, d)
      invariant Inheriting(cs0, d0, cs, d)
      invariant BasesDone(cs0, c, done, d)
      decreases todo
    {
      var p :| p in todo;
      if p !in cs {
        return cs, d, Some(KeyError(p));
      }
      var cs', d' := InheritFrom(cs, d, c, p);
      InheritingTransitive(cs0, d0, cs, d, cs', d');
      GrownMethods(cs0, cs, p);
      HasKeysSub(c, cs0[p].methods.Keys, cs[p].methods.Keys, d', d');
      BasesDoneAdd(cs0, c, done, p, d, d');
      cs, d := cs', d';
      todo := todo - {p};
      done := done + {p};
    }
    return cs, d, None;
  }

  /** Every class in `cls` is parsed, and all its bases are done. */
  predicate AllBasesDone(cs0: map<string, ParsedClass>, cls: set<string>, d: Deps) {
    forall c :: c in cls ==> c in cs0 && BasesDone(cs0, c, cs0[c].bases, d)
  }

  lemma AllBasesDoneAdd(cs0: map<string, ParsedClass>, cls: set<string>, c: string, d: Deps, d': Deps)
    requires AllBasesDone(cs0, cls, d) && DepsExtend(d, d')
    requires c in cs0 && BasesDone(cs0, c, cs0[c].bases, d')
    ensures AllBasesDone(cs0, cls + {c}, d')
  {
    forall c' | c' in cls ensures BasesDone(cs0, c', cs0[c'].bases, d') {
      forall p | p in cs0[c'].bases ensures p in cs0 && HasKeys(c', cs0[p].methods.Keys, d') {
        HasKeysSub(c', cs0[p].methods.Keys, cs0[p].methods.Keys, d, d');
      }
    }
  }

  /** Bases done for the grown classes are done for the original ones. */
  lemma BasesDoneShrink(cs0: map<string, ParsedClass>, cs: map<string, ParsedClass>, c: string, d: Deps)
    requires ClassesGrow(cs0, cs) && c in cs0 && BasesDone(cs, c, cs[c].bases, d)
    ensures BasesDone(cs0, c, cs0[c].bases, d)
  {
    forall p | p in cs0[c].bases ensures p in cs0 && HasKeys(c, cs0[p].methods.Keys, d) {
      GrownMethods(cs0, cs, p);
      HasKeysSub(c, cs0[p].methods.Keys, cs[p].methods.Keys, d, d);
    }
  }

  /** The inheritance pass of `_update_dependencies`, class by class in `order`. */
  method InheritPass(cs0: map<string, ParsedClass>, d0: Deps, order: seq<string>)
    returns (cs: map<string, ParsedClass>, d: Deps, err: Option<LookupError>)
    requires Consistent(cs0, d0)
    requires forall c :: c in cs0 <==> c in order
    ensures Consistent(cs, d) && Inheriting(cs0, d0, cs, d)
    ensures err.None? <==> BasesKnown(cs0)
    ensures err.Some? ==> err.value.KeyError? && err.value.key !in cs0 && exists c :: c in cs0 && err.value.key in cs0[c].bases
    ensures err.None? ==> forall c, p, m :: c in cs0 && p in cs0[c].bases && m in cs0[p].methods ==> Key(c, m) in d
  {
    cs, d := cs0, d0;
    InheritingReflexive(cs0, d0);
    ghost var done: set<string> := {};
    for i := 0 to |order|
      invariant Consistent(cs, d)
      invariant Inheriting(cs0, d0, cs, d)
      invariant forall j :: 0 <= j < i ==> order[j] in done
      invariant AllBasesDone(cs0, done, d)
    {
      var c := order[i];
      var cs', d', e := InheritFromBases(cs, d, c);
      InheritingTransitive(cs0, d0, cs, d, cs', d');
      if e.Some? {
        assert e.value.key in cs0[c].bases;
        return cs', d', e;
      }
      BasesDoneShrink(cs0, cs, c, d');
      AllBasesDoneAdd(cs0, done, c, d, d');
      cs, d := cs', d';
      done := done + {c};
    }
    forall c | c in cs0 ensures c in done {
      var j :| 0 <= j < |order| && order[j] == c;
    }
    forall c, p, m | c in cs0 && p in cs0[c].bases && m in cs0[p].methods ensures Key(c, m) in d {
      assert HasKeys(c, cs0[p].methods.Keys, d);
    }
    return cs, d, None;
  }

  /** After the method pass every method of every class has an entry. */
  lemma AfterMethodsKeys(d: Deps, cs: map<string, ParsedClass>)
    ensures KeysPresent(cs, AfterMethods(d, cs))
  {
    forall c, m | c in cs && m in cs[c].methods ensures Key(c, m) in AfterMethods(d, cs) {
      assert Key(c, m) in MethodKeys(cs);
    }
  }

  /**
    How `get_functions_using` finds the definition behind a dependency key:
    `cls, method = fn.split(".")` for a key with a dot, the function table
    otherwise.
  */
  function Lookup(fs: map<string, ParsedFunction>, cs: map<string, ParsedClass>, k: string): Result<ParsedFunction, LookupError> {
    if '.' in k then
      var parts := Split(k, '.');
      if |parts| != 2 then Failure(UnpackError(k))
      else if parts[0] !in cs then Failure(KeyError(parts[0]))
      else if parts[1] !in cs[parts[0]].methods then Failure(KeyError(parts[1]))
      else Success(cs[parts[0]].methods[parts[1]])
    else if k !in fs then Failure(KeyError(k))
    else Success(fs[k])
  }

  /** A method key finds its method. */
  lemma LookupKey(fs: map<string, ParsedFunction>, cs: map<string, ParsedClass>, c: string, m: string)
    requires Identifier(c) && Identifier(m) && c in cs && m in cs[c].methods
    ensures Lookup(fs, cs, Key(c, m)) == Success(cs[c].methods[m])
  {
    assert Key(c, m)[|c|] == '.';
    SplitKey(c, m);
  }

  /** A function name finds its function. */
  lemma LookupFunction(fs: map<string, ParsedFunction>, cs: map<string, ParsedClass>, f: string)
    requires Identifier(f) && f in fs
    ensures Lookup(fs, cs, f) == Success(fs[f])
  {
  }

  /** Every entry `_update_dependencies` adds names a function or a method that the lookup finds. */
  lemma NewKeysResolve(d0: Deps, fs: map<string, ParsedFunction>, cs1: map<string, ParsedClass>, d1: Deps,
                       cs: map<string, ParsedClass>, d: Deps)
    requires forall f :: f in fs ==> Identifier(f)
    requires d1 == AfterMethods(AfterFunctions(d0, fs), cs1)
    requires Consistent(cs, d) && Inheriting(cs1, d1, cs, d)
    ensures forall k :: k in d && k !in d0 ==> Lookup(fs, cs, k).Success?
  {
    forall k | k in d && k !in d0 ensures Lookup(fs, cs, k).Success? {
      if k in d1 {
        if k in fs {
          LookupFunction(fs, cs, k);
        } else {
          assert k in MethodKeys(cs1);
          var c, m :| c in cs1 && m in cs1[c].methods && k == Key(c, m);
          LookupKey(fs, cs, c, m);
        }
      } else {
        var c, p, m :| k == Key(c, m) && InheritedEntry(cs, d, c, p, m);
        LookupKey(fs, cs, c, m);
      }
    }
  }

  /** The closure has the keys of the map it closes. */
  lemma CloseKeys(d: Deps)
    ensures Close(d).Keys == d.Keys
  {
  }

  /**
    One sweep of `get_dependencies` over every key, in any order: each
    key's set gains the current sets of the keys it depended on when the
    sweep reached it.
  */
  method Sweep(original: Deps) returns (cur: Deps)
    ensures Below(original, cur) && Below(cur, Close(original))
    ensures cur == original ==> Closed(original)
  {
    cur := original;
    var todo := original.Keys;
    while todo != {}
      invariant todo <= original.Keys
      invariant Below(original, cur) && Below(cur, Close(original))
      invariant Swept(original, cur, todo)
      decreases todo
    {
      var f :| f in todo;
      var next := SweepKey(original, cur, f);
      SweptStep(original, cur, next, todo, f);
      cur := next;
      todo := todo - {f};
    }
    if cur == original {
      assert Swept(original, original, {});
    }
  }

  /** The keys outside `todo` have absorbed the sets of their keys. */
  predicate Swept(original: Deps, cur: Deps, todo: set<string>)
    requires original.Keys == cur.Keys
  {
    forall f, g :: f in original && f !in todo && g in original[f] && g in original ==> original[g] <= cur[f]
  }

  lemma SweptStep(original: Deps, cur: Deps, next: Deps, todo: set<string>, f: string)
    requires original.Keys == cur.Keys && Below(cur, next) && f in original
    requires Swept(original, cur, todo)
    requires forall g :: g in original[f] && g in original ==> original[g] <= next[f]
    ensures Swept(original, next, todo - {f})
  {
    forall f', g | f' in original && f' !in todo - {f} && g in original[f'] && g in original
      ensures original[g] <= next[f']
    {
      if f' != f {
        assert original[g] <= cur[f'];
      }
    }
  }

  /** The sweep step for key `f`. */
  method SweepKey(original: Deps, cur0: Deps, f: string) returns (cur: Deps)
    requires f in original && Below(original, cur0) && Below(cur0, Close(original))
    ensures Below(original, cur) && Below(cur, Close(original)) && Below(cur0, cur)
    ensures forall g :: g in original[f] && g in original ==> original[g] <= cur[f]
  {
    ghost var closed := Close(original);
    cur := cur0;
    var originallyCalled := cur0[f];
    var todo := originallyCalled;
    while todo != {}
      invariant todo <= originallyCalled
      invariant Below(original, cur) && Below(cur, closed) && Below(cur0, cur)
      invariant originallyCalled <= cur[f]
      invariant Absorbed(original, cur[f], originallyCalled, todo)
      decreases todo
    {
      var g :| g in todo;
      ghost var prev := cur;
      if g in cur {
        AddInto(original, cur, f, cur[g]);
        AddInto(cur0, cur, f, cur[g]);
        AddBelow(cur, closed, f, g);
        cur := cur[f := cur[f] + cur[g]];
      }
      AbsorbedStep(original, prev[f], cur[f], originallyCalled, todo, g);
      todo := todo - {g};
    }
  }

  /** The keys of `called` outside `todo` have their sets inside `into`. */
  predicate Absorbed(original: Deps, into: set<string>, called: set<string>, todo: set<string>) {
    forall g :: g in called && g !in todo && g in original ==> original[g] <= into
  }

  lemma AbsorbedStep(original: Deps, before: set<string>, after: set<string>, called: set<string>, todo: set<string>, g: string)
    requires Absorbed(original, before, called, todo) && before <= after
    requires g in original ==> original[g] <= after
    ensures Absorbed(original, after, called, todo - {g})
  {
  }

  /** Adding to one set keeps a map above whatever it was above. */
  lemma AddInto(a: Deps, b: Deps, f: string, extra: set<string>)
    requires Below(a, b) && f in b
    ensures Below(a, b[f := b[f] + extra])
  {
  }

  /** Adding to `f` the set of a key `f` reaches in a closed map stays below that map. */
  lemma AddBelow(cur: Deps, closed: Deps, f: string, g: string)
    requires Below(cur, closed) && Closed(closed) && f in cur && g in cur && g in closed[f]
    ensures Below(cur[f := cur[f] + cur[g]], closed)
  {
    assert closed[g] <= closed[f];
  }

  /** `get_dependencies(indirect=True, current)`: sweep until a sweep changes nothing. */
  method Closure(current: Deps) returns (r: Deps)
    ensures r == Close(current)
    decreases |Missing(current, Names(current))|
  {
    var original := current;
    var cur := Sweep(current);
    if original == cur {
      CloseOfClosed(original);
      return cur;
    }
    CloseSandwich(original, cur);
    MissingShrinks(original, cur);
    r := Closure(cur);
  }

  /** The keys whose own set contains them. */
  function SelfCalling(d: Deps): set<string> {
    set f | f in d && f in d[f]
  }

  /** The keys whose set meets `targets`. */
  function CallersOf(d: Deps, targets: set<string>): set<string> {
    set f | f in d && d[f] * targets != {}
  }

  /** The loop `if fn in dependencies[fn]: recursive.add(fn)`. */
  method SelfCallers(deps: Deps) returns (r: set<string>)
    ensures r == SelfCalling(deps)
  {
    r := {};
    var todo := deps.Keys;
    while todo != {}
      invariant todo <= deps.Keys
      invariant forall f :: f in r <==> f in deps && f !in todo && f in deps[f]
      decreases todo
    {
      var f :| f in todo;
      if f in deps[f] {
        r := r + {f};
      }
      todo := todo - {f};
    }
  }

  /** The loop `if any(called in targets for called in dependencies[fn]): found.add(fn)`. */
  method Callers(deps: Deps, targets: set<string>) returns (r: set<string>)
    ensures r == CallersOf(deps, targets)
  {
    r := {};
    var todo := deps.Keys;
    while todo != {}
      invariant todo <= deps.Keys
      invariant forall f :: f in r <==> f in deps && f !in todo && deps[f] * targets != {}
      decreases todo
    {
      var f :| f in todo;
      if deps[f] * targets != {} {
        r := r + {f};
      }
      todo := todo - {f};
    }
  }

  /** `get_recursive` on a dependency map. */
  function RecursiveNames(deps: Deps, indirect: bool): set<string> {
    var direct := SelfCalling(deps);
    if indirect then direct + CallersOf(deps, direct) else direct
  }

  /** With `indirect`, the recursive names are exactly the keys that depend on a self-dependent key. */
  lemma RecursiveAreCallers(d: Deps)
    ensures RecursiveNames(d, true) == CallersOf(d, SelfCalling(d))
  {
    forall f | f in SelfCalling(d) ensures f in CallersOf(d, SelfCalling(d)) {
      assert f in d[f] * SelfCalling(d);
    }
  }

  /** A name recursive without `indirect` is recursive with it. */
  lemma DirectRecursionKept(d: Deps)
    ensures RecursiveNames(d, false) <= RecursiveNames(Close(d), true)
  {
    forall f | f in SelfCalling(d) ensures f in SelfCalling(Close(d)) {
      assert d[f] <= Close(d)[f];
    }
  }

  /** A caller in the direct map is a caller in the closed map. */
  lemma CallersGrowWithClosure(d: Deps, targets: set<string>)
    ensures CallersOf(d, targets) <= CallersOf(Close(d), targets)
  {
    forall f | f in CallersOf(d, targets) ensures f in CallersOf(Close(d), targets) {
      var t :| t in d[f] * targets;
      assert t in Close(d)[f] * targets;
    }
  }

  /** In a closed map, whatever depends on a caller is a caller. */
  lemma CallersOfClosed(d: Deps, targets: set<string>, f: string, g: string)
    requires Closed(d) && f in d && g in d[f] && g in CallersOf(d, targets)
    ensures f in CallersOf(d, targets)
  {
    var t :| t in d[g] * targets;
    assert t in d[f] * targets;
  }

  /** The unimplemented functions among `done`. */
  function UnimplementedFunctions(fs: map<string, ParsedFunction>, done: set<string>): set<string> {
    set f | f in done && f in fs && !IsImplemented(fs[f])
  }

  /** The keys of the unimplemented methods of the classes in `done`. */
  function UnimplementedMethods(cs: map<string, ParsedClass>, done: set<string>): set<string> {
    set c, m | c in done && c in cs && m in cs[c].methods && !IsImplemented(cs[c].methods[m]) :: Key(cs[c].name, m)
  }

  /** `get_unimplemented` on the parsed functions and classes. */
  function Unimplemented(fs: map<string, ParsedFunction>, cs: map<string, ParsedClass>): set<string> {
    UnimplementedFunctions(fs, fs.Keys) + UnimplementedMethods(cs, cs.Keys)
  }

  lemma UnimplementedMethodsOneMore(cs: map<string, ParsedClass>, done: set<string>, c: string)
    requires c in cs
    ensures UnimplementedMethods(cs, done + {c}) == UnimplementedMethods(cs, done) + ClassUnimplemented(cs[c])
  {
    forall k | k in ClassUnimplemented(cs[c]) ensures k in UnimplementedMethods(cs, done + {c}) {
      var m :| m in cs[c].methods && !IsImplemented(cs[c].methods[m]) && k == Key(cs[c].name, m);
    }
  }

  /** A top-level name is reported exactly when its function is unimplemented. */
  lemma UnimplementedFunctionExact(fs: map<string, ParsedFunction>, cs: map<string, ParsedClass>, f: string)
    requires Identifier(f) && f in fs
    ensures f in Unimplemented(fs, cs) <==> !IsImplemented(fs[f])
  {
    forall c, m | c in cs && m in cs[c].methods ensures Key(cs[c].name, m) != f {
      KeyIsNotIdentifier(cs[c].name, m);
    }
  }

  /** A method key is reported exactly when its method is unimplemented. */
  lemma UnimplementedMethodExact(fs: map<string, ParsedFunction>, cs: map<string, ParsedClass>, c: string, m: string)
    requires forall f :: f in fs ==> Identifier(f)
    requires WellNamed(cs) && (forall c' :: c' in cs ==> cs[c'].name == c') && c in cs && m in cs[c].methods
    ensures Key(c, m) in Unimplemented(fs, cs) <==> !IsImplemented(cs[c].methods[m])
  {
    KeyIsNotIdentifier(c, m);
    assert Key(c, m) !in UnimplementedFunctions(fs, fs.Keys);
    if Key(c, m) in UnimplementedMethods(cs, cs.Keys) {
      var c', m' :| c' in cs && m' in cs[c'].methods && !IsImplemented(cs[c'].methods[m']) && Key(cs[c'].name, m') == Key(c, m);
      KeyInjective(c', m', c, m);
    }
    if !IsImplemented(cs[c].methods[m]) {
      assert Key(cs[c].name, m) in UnimplementedMethods(cs, cs.Keys);
    }
  }

  /**
    `is_unimplemented` on the set its parser reports: `objName` is the
    `__name__` of a function object, used when no name is given.
  */
  function IsUnimplementedName(unimplemented: set<string>, functionName: string, objName: Option<string>): (r: bool)
    ensures functionName != "" ==> (r <==> functionName in unimplemented)
    ensures functionName == "" && objName.None? ==> (r <==> unimplemented != {})
    ensures functionName == "" && objName.Some? && objName.value != "" ==> (r <==> objName.value in unimplemented)
  {
    var name := if functionName == "" && objName.Some? then objName.value else functionName;
    if name == "" then |unimplemented| > 0 else name in unimplemented
  }

  /** The keys among `keys` whose definition is found and uses one of `checks`. */
  function UsingAst(fs: map<string, ParsedFunction>, cs: map<string, ParsedClass>, keys: set<string>, checks: set<string>): set<string> {
    set k | k in keys && Lookup(fs, cs, k).Success? && UsesAst(Lookup(fs, cs, k).value, checks)
  }

  /** `get_functions_using` over a closed map `deps` whose keys all resolve. */
  function FunctionsUsing(fs: map<string, ParsedFunction>, cs: map<string, ParsedClass>, deps: Deps, checks: set<string>, indirect: bool): (r: set<string>)
    ensures r <= deps.Keys
  {
    var initial := UsingAst(fs, cs, deps.Keys, checks);
    if indirect then initial + CallersOf(deps, initial) else initial
  }

  /** With `indirect`, a key that depends on a key using one of `checks` is reported. */
  lemma UsingReachesCallers(fs: map<string, ParsedFunction>, cs: map<string, ParsedClass>, deps: Deps, checks: set<string>, f: string, g: string)
    requires f in deps && g in deps[f] && g in UsingAst(fs, cs, deps.Keys, checks)
    ensures f in FunctionsUsing(fs, cs, deps, checks, true)
  {
    assert g in deps[f] * UsingAst(fs, cs, deps.Keys, checks);
  }

  /** No check list is ever used. */
  lemma NothingUsesNoChecks(fs: map<string, ParsedFunction>, cs: map<string, ParsedClass>, deps: Deps, indirect: bool)
    ensures FunctionsUsing(fs, cs, deps, {}, indirect) == {}
  {
    forall k | k in deps && Lookup(fs, cs, k).Success? ensures !UsesAst(Lookup(fs, cs, k).value, {}) {
      UsesAstMonotone(Lookup(fs, cs, k).value, {}, {});
    }
    assert UsingAst(fs, cs, deps.Keys, {}) == {};
  }

  /** `get_functions_that_call`: the keys of the (closed) dependency map that depend on one of `names`. */
  method FunctionsThatCall(parser: AstParser, names: set<string>, indirect: bool) returns (r: set<string>)
    ensures r == CallersOf(if indirect then Close(parser.dependencies) else parser.dependencies, names)
  {
    var deps := parser.GetDependencies(indirect, None);
    r := Callers(deps, names);
  }

  /** Renaming a method's own dependencies from base `p` to class `c` gives what the method pass gives it in `c`. */
  lemma RenamedMethodDeps(p: string, c: string, f: ParsedFunction)
    requires Identifier(p)
    requires forall x :: x in f.calledFunctions ==> Identifier(x)
    requires forall x :: x in f.calledMethods ==> Identifier(x)
    ensures Renamed(MethodDeps(p, f), p, c) == MethodDeps(c, f)
  {
    forall x | x in f.calledFunctions ensures ReplaceAll(x, p + ".", c + ".") == x {
      RenameKeepsName(x, p, c);
    }
    forall x | x in f.calledMethods ensures ReplaceAll(Key(p, x), p + ".", c + ".") == Key(c, x) {
      RenameQualified(p, c, x);
    }
    forall y | y in MethodDeps(c, f) ensures y in Renamed(MethodDeps(p, f), p, c) {
      if y !in f.calledFunctions {
        var x :| x in f.calledMethods && y == Key(c, x);
        assert Key(p, x) in MethodDeps(p, f);
      }
    }
  }

  /** A string without a dot does not contain a pattern with one. */
  lemma NoDotNoMatch(s: string, pat: string)
    requires '.' !in s && '.' in pat
    ensures !Contains(s, pat)
  {
    var j :| 0 <= j < |pat| && pat[j] == '.';
    forall i | 0 <= i ensures !OccursAt(s, pat, i) {
      if i + |pat| <= |s| {
        assert s[i..i + |pat|][j] != pat[j];
      }
    }
  }

  /** Renaming leaves a plain name alone. */
  lemma RenameKeepsName(x: string, p: string, c: string)
    requires Identifier(x)
    ensures ReplaceAll(x, p + ".", c + ".") == x
  {
    assert (p + ".")[|p|] == '.';
    NoDotNoMatch(x, p + ".");
  }

  /** Renaming turns `p.x` into `c.x`. */
  lemma RenameQualified(p: string, c: string, x: string)
    requires Identifier(p) && Identifier(x)
    ensures ReplaceAll(Key(p, x), p + ".", c + ".") == Key(c, x)
  {
    var k := Key(p, x);
    assert k[..|p| + 1] == p + ".";
    assert k[|p| + 1..] == x;
    RenameKeepsName(x, p, c);
  }
}
