/**
 * How the pieces are put together. `compileModule` filters the normalised table and embeds it,
 * through `Object.fromEntries`, as the table the generated `route` function reads;
 * `compileRoutes` filters the normalised table the same way and then groups it.
 */
module Pipeline {

  import opened Wrappers
  import opened OrderedMaps
  import opened Patterns
  import opened Filtering
  import opened Normalisation
  import opened Grouping
  import opened RouteFunction

  /**
   * `Object.fromEntries(filterRoutes(await fetchRoutes(), options))`: the names stay distinct, so
   * the object holds the filtered entries in their order.
   */
  function RouteTable(records: seq<RawRoute>, only: seq<string>, except: seq<string>): (routes: OMap<string>)
    requires AllValid(only) && AllValid(except)
    ensures Distinct(Keys(routes))
  {
    KeepWhereDistinct(Normalise(records), CompileRouteFilters(only), CompileRouteFilters(except));
    FilterRoutes(Normalise(records), only, except)
  }

  /** A name is in the embedded table iff some record carries it and it passes both filters. */
  lemma RouteTableKeys(records: seq<RawRoute>, only: seq<string>, except: seq<string>, name: string)
    requires AllValid(only) && AllValid(except)
    ensures name in Keys(RouteTable(records, only, except))
        <==> (exists i :: NamedAt(records, i, name)) && KeepGlob(only, except, name)
  {
    var table := Normalise(records);
    KeyOfEntry(RouteTable(records, only, except), name);
    KeyOfEntry(table, name);
    NormaliseKeys(records, name);
  }

  /** The table maps each kept name to the template the normalisation stored for it. */
  lemma RouteTableEntries(records: seq<RawRoute>, only: seq<string>, except: seq<string>,
                          name: string, template: string)
    requires AllValid(only) && AllValid(except)
    ensures Get(RouteTable(records, only, except), name) == Some(template)
        <==> KeepGlob(only, except, name) && Get(Normalise(records), name) == Some(template)
  {
    GetIffEntry(RouteTable(records, only, except), name, template);
    GetIffEntry(Normalise(records), name, template);
  }

  /**
   * In the generated module, `route(name, ...)` reports an unknown route exactly when no record
   * carries the name or the filters drop it.
   */
  lemma RouteNotFoundAfterFiltering(records: seq<RawRoute>, only: seq<string>, except: seq<string>,
                                    name: string, params: Params)
    requires AllValid(only) && AllValid(except)
    ensures var r := RouteSpec(RouteTable(records, only, except), name, params);
      (r.Err? && r.error.RouteNotFound?)
      <==> !((exists i :: NamedAt(records, i, name)) && KeepGlob(only, except, name))
  {
    var routes := RouteTable(records, only, except);
    RouteTableKeys(records, only, except, name);
    NotFoundIffUnknown(routes, name, params);
    if Get(routes, name).Some? {
      StoredTemplateNotEmpty(records, only, except, name);
    }
  }

  /** Every template in the table is non-empty (it holds at least the `/`). */
  lemma StoredTemplateNotEmpty(records: seq<RawRoute>, only: seq<string>, except: seq<string>, name: string)
    requires AllValid(only) && AllValid(except)
    requires Get(RouteTable(records, only, except), name).Some?
    ensures Get(RouteTable(records, only, except), name).value != ""
  {
    var t := Get(RouteTable(records, only, except), name).value;
    RouteTableEntries(records, only, except, name, t);
    StoredTemplate(records, name);
  }

  /** `compileRoutes(options)` without the logging: the filtered table, grouped. */
  method CompileRoutes(records: seq<RawRoute>, only: seq<string>, except: seq<string>, groups: Groups)
    returns (grouped: Grouped)
    requires AllValid(only) && AllValid(except) && GroupsValid(groups)
    ensures grouped == GroupAll(RouteTable(records, only, except), CompileGroups(groups))
  {
    var router := FetchRoutes(records);
    var filtered := FilterRoutes(router, only, except);
    grouped := GroupRoutes(filtered, groups);
  }

  /**
   * Every entry of the grouped output is a kept route, found in the bucket of its first matching
   * group and nowhere else, with its template unchanged.
   */
  lemma CompiledRoutesPartition(records: seq<RawRoute>, only: seq<string>, except: seq<string>,
                                groups: Groups, g: string, name: string, template: string)
    requires AllValid(only) && AllValid(except) && GroupsValid(groups)
    ensures var b := Get(GroupAll(RouteTable(records, only, except), CompileGroups(groups)), g);
      (b.Some? && (name, template) in b.value)
      <==> (&& KeepGlob(only, except, name)
            && Get(Normalise(records), name) == Some(template)
            && FirstGroup(CompileGroups(groups), name) == g)
  {
    var routes := RouteTable(records, only, except);
    EachRouteInOneGroup(routes, CompileGroups(groups), g, (name, template));
    RouteTableEntries(records, only, except, name, template);
    GetIffEntry(routes, name, template);
  }

}
