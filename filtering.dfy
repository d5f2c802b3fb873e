/**
 * `filterRoutes`: the allow-list (`only`) and deny-list (`except`) filters are compiled, then the
 * route entries are kept, in their order, when they pass both tests on their NAME: with a
 * non-empty `only`, some `only` filter must match; with a non-empty `except`, no `except` filter
 * may match. Both tests are always applied; empty lists impose nothing.
 */
module Filtering {

  import opened OrderedMaps
  import opened Patterns

  /** Every RegExp source lies inside the modelled fragment. */
  predicate Compiled(ms: seq<string>)
  {
    forall i :: 0 <= i < |ms| ==> Parse(ms[i]).Some?
  }

  /** The callback given to `[...routes].filter`, on compiled filters. */
  predicate Keep(only: seq<string>, except: seq<string>, name: string)
    requires Compiled(only) && Compiled(except)
  {
    && !(|only| > 0 && !AnyTest(only, name))
    && !(|except| > 0 && AnyTest(except, name))
  }

  /** The same decision read on the filters themselves. */
  predicate KeepGlob(only: seq<string>, except: seq<string>, name: string)
  {
    && (|only| == 0 || exists i :: 0 <= i < |only| && GlobMatch(only[i], name))
    && (|except| == 0 || forall i :: 0 <= i < |except| ==> !GlobMatch(except[i], name))
  }

  /** `a` is `b` with some elements left out and the rest in their original order. */
  predicate IsSubsequence<T(==)>(a: seq<T>, b: seq<T>)
    decreases |b|
  {
    if a == [] then true
    else if b == [] then false
    else (a[0] == b[0] && IsSubsequence(a[1..], b[1..])) || IsSubsequence(a, b[1..])
  }

  /** A single element is a subsequence of any sequence that ends with it. */
  lemma {:induction false} LastIsSubsequence<T>(b: seq<T>, x: T)
    ensures IsSubsequence([x], b + [x])
    decreases |b|
  {
    if b != [] {
      assert (b + [x])[1..] == b[1..] + [x];
      LastIsSubsequence(b[1..], x);
    }
  }

  /** Appending to the longer sequence, or to both, keeps a subsequence a subsequence. */
  lemma {:induction false} SubsequenceExtend<T>(a: seq<T>, b: seq<T>, x: T)
    requires IsSubsequence(a, b)
    ensures IsSubsequence(a, b + [x]) && IsSubsequence(a + [x], b + [x])
    decreases |b|
  {
    if a == [] {
      LastIsSubsequence(b, x);
      assert a + [x] == [x];
    } else {
      assert (b + [x])[1..] == b[1..] + [x];
      assert (a + [x])[1..] == a[1..] + [x];
      if a[0] == b[0] && IsSubsequence(a[1..], b[1..]) {
        SubsequenceExtend(a[1..], b[1..], x);
      } else {
        SubsequenceExtend(a, b[1..], x);
      }
    }
  }

  /** `[...routes].filter(([name]) => Keep(name))` */
  function KeepWhere(routes: OMap<string>, only: seq<string>, except: seq<string>): (r: OMap<string>)
    requires Compiled(only) && Compiled(except)
    ensures IsSubsequence(r, routes)
    ensures forall e :: e in r <==> e in routes && Keep(only, except, e.0)
    decreases |routes|
  {
    if routes == [] then []
    else
      var rest := KeepWhere(routes[1..], only, except);
      assert forall e :: e in routes <==> e == routes[0] || e in routes[1..];
      if Keep(only, except, routes[0].0) then
        var r := [routes[0]] + rest;
        assert r[0] == routes[0] && r[1..] == rest;
        r
      else
        rest
  }

  /** `filterRoutes(routes, { only, except })` */
  function FilterRoutes(routes: OMap<string>, only: seq<string>, except: seq<string>): (r: OMap<string>)
    requires AllValid(only) && AllValid(except)
    ensures IsSubsequence(r, routes)
    ensures forall e :: e in r <==> e in routes && KeepGlob(only, except, e.0)
  {
    var o, x := CompileRouteFilters(only), CompileRouteFilters(except);
    var r := KeepWhere(routes, o, x);
    forall e | e in routes
      ensures Keep(o, x, e.0) <==> KeepGlob(only, except, e.0)
    {
      KeepMeaning(only, except, e.0);
    }
    r
  }

  /** The compiled decision is the glob decision. */
  lemma KeepMeaning(only: seq<string>, except: seq<string>, name: string)
    requires AllValid(only) && AllValid(except)
    ensures Compiled(CompileRouteFilters(only)) && Compiled(CompileRouteFilters(except))
    ensures Keep(CompileRouteFilters(only), CompileRouteFilters(except), name)
        <==> KeepGlob(only, except, name)
  {
    AnyTestMeaning(only, name);
    AnyTestMeaning(except, name);
  }

  /** Filtering a table with distinct names leaves distinct names. */
  lemma {:induction false} KeepWhereDistinct(routes: OMap<string>, only: seq<string>, except: seq<string>)
    requires Compiled(only) && Compiled(except)
    requires Distinct(Keys(routes))
    ensures Distinct(Keys(KeepWhere(routes, only, except)))
    decreases |routes|
  {
    if routes != [] {
      var rest := KeepWhere(routes[1..], only, except);
      assert Keys(routes[1..]) == Keys(routes)[1..];
      KeepWhereDistinct(routes[1..], only, except);
      if Keep(only, except, routes[0].0) {
        var r := [routes[0]] + rest;
        forall i, j | 0 <= i < j < |r|
          ensures Keys(r)[i] != Keys(r)[j]
        {
          if i == 0 {
            assert r[j] == rest[j - 1] && rest[j - 1] in rest;
            var k :| 0 <= k < |routes[1..]| && routes[1..][k] == r[j];
            assert Keys(routes)[k + 1] == r[j].0;
          } else {
            assert Keys(r)[i] == Keys(rest)[i - 1] && Keys(r)[j] == Keys(rest)[j - 1];
          }
        }
      }
    }
  }

  /** With no `only` and no `except` filter every entry is kept. */
  lemma {:induction false} FilterWithoutFiltersKeepsAll(routes: OMap<string>)
    ensures FilterRoutes(routes, [], []) == routes
    decreases |routes|
  {
    if routes != [] {
      FilterWithoutFiltersKeepsAll(routes[1..]);
      assert CompileRouteFilters([]) == [];
    }
  }

  /** `only: [p]` keeps exactly the entries whose name `p` matches. */
  lemma OnlyOneFilter(routes: OMap<string>, p: string, e: (string, string))
    requires ValidPattern(p)
    ensures e in FilterRoutes(routes, [p], []) <==> e in routes && GlobMatch(p, e.0)
  {
    assert AllValid([p]);
    assert KeepGlob([p], [], e.0) <==> GlobMatch([p][0], e.0);
  }

  /** `except: [p]` keeps exactly the entries whose name `p` does not match. */
  lemma ExceptOneFilter(routes: OMap<string>, p: string, e: (string, string))
    requires ValidPattern(p)
    ensures e in FilterRoutes(routes, [], [p]) <==> e in routes && !GlobMatch(p, e.0)
  {
    assert AllValid([p]);
    assert KeepGlob([], [p], e.0) <==> !GlobMatch([p][0], e.0);
  }

}
