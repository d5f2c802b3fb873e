/**
 * `groupRoutes`: the filters of every declared group are compiled, in the order of
 * `Object.entries(groups)`; then each route entry goes, under its name and with its path, into the
 * FIRST group one of whose filters matches the name, or into `default` when none does. A group's
 * bucket is created (`??= {}`) when its first route arrives, so no bucket is ever empty.
 */
module Grouping {

  import opened Wrappers
  import opened OrderedMaps
  import opened Patterns
  import opened Filtering

  /** `Object.entries(groups)`: group names with their filters, in declared order. */
  type Groups = seq<(string, seq<string>)>

  /** The result: group name to a bucket of route name to path, both in insertion order. */
  type Grouped = OMap<OMap<string>>

  predicate GroupsValid(groups: Groups)
  {
    forall i :: 0 <= i < |groups| ==> AllValid(groups[i].1)
  }

  predicate GroupsCompiled(cg: Groups)
  {
    forall i :: 0 <= i < |cg| ==> Compiled(cg[i].1)
  }

  /** `Object.entries(groups).map(([name, filters]) => [name, compileRouteFilters(filters)])` */
  function CompileGroups(groups: Groups): (cg: Groups)
    ensures |cg| == |groups|
    ensures forall i :: 0 <= i < |groups| ==>
      cg[i].0 == groups[i].0 && cg[i].1 == CompileRouteFilters(groups[i].1)
    ensures GroupsValid(groups) ==> GroupsCompiled(cg)
  {
    seq(|groups|, i requires 0 <= i < |groups| => (groups[i].0, CompileRouteFilters(groups[i].1)))
  }

  /** `(groups.find(([_, filters]) => filters.some((f) => f.test(name))) ?? ['default'])[0]` */
  function FirstGroup(cg: Groups, name: string): string
    requires GroupsCompiled(cg)
    decreases |cg|
  {
    if cg == [] then "default"
    else if AnyTest(cg[0].1, name) then cg[0].0
    else FirstGroup(cg[1..], name)
  }

  /** Declared group `i` has a filter whose glob matches `name`. */
  predicate GroupMatches(groups: Groups, i: int, name: string)
  {
    0 <= i < |groups| && exists j :: 0 <= j < |groups[i].1| && GlobMatch(groups[i].1[j], name)
  }

  /** No declared group matches `name`. */
  predicate Unmatched(groups: Groups, name: string)
  {
    forall j :: 0 <= j < |groups| ==> !GroupMatches(groups, j, name)
  }

  /** Group `i` is the first declared group that matches `name`. */
  predicate FirstMatchAt(groups: Groups, i: int, name: string)
  {
    GroupMatches(groups, i, name) && forall j :: 0 <= j < i ==> !GroupMatches(groups, j, name)
  }

  /**
   * A route goes to the first declared group (in `Object.entries` order) with a filter matching
   * its name, and to `default` when no group matches.
   */
  lemma {:induction false} FirstGroupMeaning(groups: Groups, name: string)
    requires GroupsValid(groups)
    ensures GroupsCompiled(CompileGroups(groups))
    ensures var g := FirstGroup(CompileGroups(groups), name);
      || (g == "default" && Unmatched(groups, name))
      || (exists i :: FirstMatchAt(groups, i, name) && g == groups[i].0)
    decreases |groups|
  {
    if groups != [] {
      var cg, rest := CompileGroups(groups), groups[1..];
      assert cg[1..] == CompileGroups(rest);
      AnyTestMeaning(groups[0].1, name);
      if AnyTest(cg[0].1, name) {
        assert FirstMatchAt(groups, 0, name);
      } else {
        assert !GroupMatches(groups, 0, name);
        FirstGroupMeaning(rest, name);
        forall i | 1 <= i < |groups|
          ensures GroupMatches(groups, i, name) <==> GroupMatches(rest, i - 1, name)
        {
          assert groups[i] == rest[i - 1];
        }
        if i :| FirstMatchAt(rest, i, name) && FirstGroup(cg[1..], name) == rest[i].0 {
          assert FirstMatchAt(groups, i + 1, name);
        }
      }
    }
  }

  /** The bucket of group `g`, or `{}` when it has none yet. */
  function Bucket(grouped: Grouped, g: string): OMap<string>
  {
    if Get(grouped, g).Some? then Get(grouped, g).value else []
  }

  /**
   * The body of the loop: `groupedRoutes[g] ??= {}; groupedRoutes[g][name] = path`. Only the
   * bucket of `g` changes, and it gains `name` with `path`.
   */
  function AddRoute(grouped: Grouped, g: string, name: string, path: string): (r: Grouped)
    ensures Get(r, g) == Some(Set(Bucket(grouped, g), name, path))
    ensures forall h :: h != g ==> Get(r, h) == Get(grouped, h)
  {
    var created := if Get(grouped, g).None? then Set(grouped, g, []) else grouped;
    Set(created, g, Set(Get(created, g).value, name, path))
  }

  /** The object `groupRoutes` has built after the entries of `routes`, in order. */
  function GroupAll(routes: OMap<string>, cg: Groups): Grouped
    requires GroupsCompiled(cg)
    decreases |routes|
  {
    if routes == [] then []
    else
      var e := routes[|routes| - 1];
      AddRoute(GroupAll(routes[..|routes| - 1], cg), FirstGroup(cg, e.0), e.0, e.1)
  }

  /** `groupRoutes(routes, { groups })` */
  method GroupRoutes(routes: OMap<string>, groups: Groups) returns (grouped: Grouped)
    requires GroupsValid(groups)
    ensures grouped == GroupAll(routes, CompileGroups(groups))
  {
    var cg := CompileGroups(groups);
    grouped := [];
    for i := 0 to |routes|
      invariant grouped == GroupAll(routes[..i], cg)
    {
      assert routes[..i + 1][..i] == routes[..i];
      var (name, path) := routes[i];
      var group := FirstGroup(cg, name);
      if Get(grouped, group).None? {
        grouped := Set(grouped, group, []);
      }
      grouped := Set(grouped, group, Set(Get(grouped, group).value, name, path));
    }
    assert routes[..|routes|] == routes;
  }

  /** The entries of `routes` that belong to group `g`, in input order. */
  function SelectGroup(routes: OMap<string>, cg: Groups, g: string): (r: OMap<string>)
    requires GroupsCompiled(cg)
    ensures IsSubsequence(r, routes)
    ensures forall e :: e in r <==> e in routes && FirstGroup(cg, e.0) == g
    decreases |routes|
  {
    if routes == [] then []
    else
      var init, e := routes[..|routes| - 1], routes[|routes| - 1];
      var p := SelectGroup(init, cg, g);
      assert routes == init + [e];
      SubsequenceExtend(p, init, e);
      if FirstGroup(cg, e.0) == g then p + [e] else p
  }

  /**
   * With distinct route names, the bucket of every group holds exactly the routes assigned to it,
   * in input order, with their paths; a group no route is assigned to has no bucket.
   */
  lemma {:induction false} GroupAllIsSelect(routes: OMap<string>, cg: Groups, g: string)
    requires GroupsCompiled(cg)
    requires Distinct(Keys(routes))
    ensures var s := SelectGroup(routes, cg, g);
      Get(GroupAll(routes, cg), g) == if s == [] then None else Some(s)
    decreases |routes|
  {
    if routes != [] {
      var init, e := routes[..|routes| - 1], routes[|routes| - 1];
      assert Distinct(Keys(init)) by {
        assert forall i :: 0 <= i < |init| ==> Keys(init)[i] == Keys(routes)[i];
      }
      GroupAllIsSelect(init, cg, g);
      var p := SelectGroup(init, cg, g);
      if FirstGroup(cg, e.0) == g {
        assert Bucket(GroupAll(init, cg), g) == p;
        assert e.0 !in Keys(p) by {
          KeyOfEntry(p, e.0);
          KeyOfEntry(init, e.0);
        }
        SetKeys(p, e.0, e.1);
      }
    }
  }

  /**
   * Every route lands in exactly one bucket, that of its first matching group, with its path
   * unchanged, and every bucket entry is an input route: the buckets partition the input.
   */
  lemma EachRouteInOneGroup(routes: OMap<string>, cg: Groups, g: string, e: (string, string))
    requires GroupsCompiled(cg)
    requires Distinct(Keys(routes))
    ensures var b := Get(GroupAll(routes, cg), g);
      b.Some? && e in b.value <==> e in routes && FirstGroup(cg, e.0) == g
  {
    GroupAllIsSelect(routes, cg, g);
  }

  /** A bucket exists only once a route has been put in it. */
  lemma NoEmptyGroup(routes: OMap<string>, cg: Groups, g: string)
    requires GroupsCompiled(cg)
    requires Distinct(Keys(routes))
    requires Get(GroupAll(routes, cg), g).Some?
    ensures Get(GroupAll(routes, cg), g).value != []
  {
    GroupAllIsSelect(routes, cg, g);
  }

  /** Within a bucket, routes keep their input order. */
  lemma GroupKeepsOrder(routes: OMap<string>, cg: Groups, g: string)
    requires GroupsCompiled(cg)
    requires Distinct(Keys(routes))
    requires Get(GroupAll(routes, cg), g).Some?
    ensures IsSubsequence(Get(GroupAll(routes, cg), g).value, routes)
  {
    GroupAllIsSelect(routes, cg, g);
  }

  /**
   * Without a declared group called `default`, a route goes to `default` iff it matches no group;
   * with `GroupExistsIffAssigned`, the `default` bucket exists iff some route matches no group.
   */
  lemma DefaultIffUnmatched(groups: Groups, name: string)
    requires GroupsValid(groups)
    requires forall i :: 0 <= i < |groups| ==> groups[i].0 != "default"
    ensures GroupsCompiled(CompileGroups(groups))
    ensures FirstGroup(CompileGroups(groups), name) == "default" <==> Unmatched(groups, name)
  {
    FirstGroupMeaning(groups, name);
  }

  /** A bucket exists exactly for the groups some route is assigned to. */
  lemma GroupExistsIffAssigned(routes: OMap<string>, cg: Groups, g: string)
    requires GroupsCompiled(cg)
    requires Distinct(Keys(routes))
    ensures g in Keys(GroupAll(routes, cg))
        <==> exists i :: 0 <= i < |routes| && FirstGroup(cg, routes[i].0) == g
  {
    GroupAllIsSelect(routes, cg, g);
    var s := SelectGroup(routes, cg, g);
    if s != [] {
      assert s[0] in routes;
    }
    if i :| 0 <= i < |routes| && FirstGroup(cg, routes[i].0) == g {
      assert routes[i] in s;
    }
  }

}
