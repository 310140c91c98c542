/**
  Dependency maps of `code_properties` (each function or method name mapped
  to the names it depends on) and their transitive closure: the least
  extension in which every dependency's own dependencies are included.
*/
module DepGraph {
  /** A dependency map, `ASTParser._dependencies`. */
  type Deps = map<string, set<string>>

  /** Every name the map mentions, as a key or as a dependency. */
  ghost function Names(d: Deps): set<string> {
    d.Keys + (set k, x | k in d && x in d[k] :: x)
  }

  /** `b` has the keys of `a` and every set of `a` is contained in the one of `b`. */
  predicate Below(a: Deps, b: Deps) {
    a.Keys == b.Keys && forall k :: k in a ==> a[k] <= b[k]
  }

  /** Transitively closed: a dependency that is itself a key brings all of its dependencies along. */
  predicate Closed(d: Deps) {
    forall f, g :: f in d && g in d[f] && g in d ==> d[g] <= d[f]
  }

  /** One round of closure for every key at once: add the dependencies of each dependency that is a key. */
  function Step(d: Deps): (r: Deps)
    ensures Below(d, r)
  {
    map f | f in d :: d[f] + (set g, x | g in d[f] && g in d && x in d[g] :: x)
  }

  /** The (key, name) pairs over the names `u` that `d` does not have yet. */
  ghost function Missing(d: Deps, u: set<string>): set<(string, string)> {
    set k, x | k in d && x in u && x !in d[k] :: (k, x)
  }

  lemma NamesGrow(a: Deps, b: Deps)
    requires Below(a, b)
    ensures Names(a) <= Names(b)
  {
    forall x | x in Names(a) ensures x in Names(b) {
      if x !in a.Keys {
        var k :| k in a && x in a[k];
        assert x in b[k];
      }
    }
  }

  /** A round adds no new names. */
  lemma StepNames(d: Deps)
    ensures Names(Step(d)) == Names(d)
  {
    NamesGrow(d, Step(d));
    forall x | x in Names(Step(d)) ensures x in Names(d) {
      if x !in d.Keys {
        var k :| k in Step(d) && x in Step(d)[k];
        if x !in d[k] {
          var g :| g in d[k] && g in d && x in d[g];
          assert x in d[g];
        }
      }
    }
  }

  /** A round that changes the map fills at least one missing pair. */
  lemma StepMissing(d: Deps)
    requires Step(d) != d
    ensures Missing(Step(d), Names(d)) < Missing(d, Names(d))
  {
    var s := Step(d);
    var k :| k in d && s[k] != d[k];
    var x :| x in s[k] && x !in d[k];
    var g :| g in d[k] && g in d && x in d[g];
    assert x in Names(d) by {
      assert x in d[g];
    }
    assert (k, x) in Missing(d, Names(d));
    assert (k, x) !in Missing(s, Names(d));
  }

  /** A closed map is a fixpoint of the round. */
  lemma ClosedIsFixpoint(d: Deps)
    requires Closed(d)
    ensures Step(d) == d
  {
    forall f | f in d ensures Step(d)[f] == d[f] {
      assert forall g :: g in d[f] && g in d ==> d[g] <= d[f];
    }
  }

  /** A fixpoint of the round is closed. */
  lemma FixpointIsClosed(d: Deps)
    requires Step(d) == d
    ensures Closed(d)
  {
    forall f, g | f in d && g in d[f] && g in d ensures d[g] <= d[f] {
      forall x | x in d[g] ensures x in d[f] {
        assert x in Step(d)[f];
      }
    }
  }

  /**
    The transitive closure: rounds repeated until nothing changes. It has the
    keys of `d`, contains `d`, is closed, and mentions no new names.
  */
  ghost function Close(d: Deps): (r: Deps)
    decreases |Missing(d, Names(d))|
    ensures Below(d, r) && Closed(r)
  {
    if Step(d) == d then
      FixpointIsClosed(d);
      d
    else
      StepDecreases(d);
      var r := Close(Step(d));
      BelowTransitive(d, Step(d), r);
      r
  }

  lemma StepDecreases(d: Deps)
    requires Step(d) != d
    ensures |Missing(Step(d), Names(Step(d)))| < |Missing(d, Names(d))|
  {
    var u := Names(d);
    StepNames(d);
    StepMissing(d);
    ProperSubsetSmaller(Missing(Step(d), u), Missing(d, u));
  }

  lemma ProperSubsetSmaller<T>(a: set<T>, b: set<T>)
    requires a < b
    ensures |a| < |b|
  {
    var e :| e in b && e !in a;
    assert b == a + (b - a);
    assert |b - a| >= 1 by {
      assert {e} <= b - a;
    }
  }

  lemma BelowTransitive(a: Deps, b: Deps, c: Deps)
    requires Below(a, b) && Below(b, c)
    ensures Below(a, c)
  {
  }

  /** Closing adds no new names. */
  lemma {:induction false} CloseNames(d: Deps)
    ensures Names(Close(d)) == Names(d)
    decreases |Missing(d, Names(d))|
  {
    if Step(d) != d {
      StepDecreases(d);
      StepNames(d);
      CloseNames(Step(d));
    }
  }

  /** A round never goes past a closed map above its input. */
  lemma StepBelowClosed(d: Deps, m: Deps)
    requires Below(d, m) && Closed(m)
    ensures Below(Step(d), m)
  {
    forall f | f in d ensures Step(d)[f] <= m[f] {
      forall x | x in Step(d)[f] ensures x in m[f] {
        if x !in d[f] {
          var g :| g in d[f] && g in d && x in d[g];
          assert m[g] <= m[f];
        }
      }
    }
  }

  /** The closure is the least closed map above the input. */
  lemma {:induction false} CloseLeast(d: Deps, m: Deps)
    requires Below(d, m) && Closed(m)
    ensures Below(Close(d), m)
    decreases |Missing(d, Names(d))|
  {
    if Step(d) != d {
      StepDecreases(d);
      StepBelowClosed(d, m);
      CloseLeast(Step(d), m);
    }
  }

  lemma BelowAntisymmetric(a: Deps, b: Deps)
    requires Below(a, b) && Below(b, a)
    ensures a == b
  {
    assert forall k :: k in a ==> a[k] == b[k];
  }

  /** A closed map is its own closure. */
  lemma CloseOfClosed(d: Deps)
    requires Closed(d)
    ensures Close(d) == d
  {
    ClosedIsFixpoint(d);
  }

  /** Closing twice is closing once. */
  lemma CloseIdempotent(d: Deps)
    ensures Close(Close(d)) == Close(d)
  {
    CloseOfClosed(Close(d));
  }

  /** Anything between a map and its closure has the same closure. */
  lemma CloseSandwich(a: Deps, b: Deps)
    requires Below(a, b) && Below(b, Close(a))
    ensures Close(b) == Close(a)
  {
    CloseLeast(b, Close(a));
    CloseLeast(a, Close(b));
    BelowAntisymmetric(Close(a), Close(b));
  }

  /**
    Between a map and its closure the names stay the same, so a strictly
    larger map misses strictly fewer pairs.
  */
  lemma MissingShrinks(a: Deps, b: Deps)
    requires Below(a, b) && Below(b, Close(a)) && a != b
    ensures |Missing(b, Names(b))| < |Missing(a, Names(a))|
  {
    var c := Close(a);
    CloseNames(a);
    NamesBetween(a, b, c);
    MissingShrinksOnNames(a, b, Names(a));
    ProperSubsetSmaller(Missing(b, Names(a)), Missing(a, Names(a)));
  }

  lemma NamesBetween(a: Deps, b: Deps, c: Deps)
    requires Below(a, b) && Below(b, c) && Names(c) == Names(a)
    ensures Names(b) == Names(a)
  {
    NamesGrow(a, b);
    NamesGrow(b, c);
  }

  lemma MissingShrinksOnNames(a: Deps, b: Deps, u: set<string>)
    requires Below(a, b) && a != b && Names(b) <= u
    ensures Missing(b, u) < Missing(a, u)
  {
    var k :| k in a && a[k] != b[k];
    var x :| x in b[k] && x !in a[k];
    assert x in Names(b) by {
      assert x in b[k];
    }
    assert (k, x) in Missing(a, u);
  }

  /** Two names that call each other directly both depend on themselves after closing. */
  lemma MutualCallsAreRecursive(d: Deps, f: string, g: string)
    requires f in d && g in d && g in d[f] && f in d[g]
    ensures f in Close(d)[f] && g in Close(d)[g]
  {
    var c := Close(d);
    assert c[g] <= c[f] && c[f] <= c[g];
  }
}
