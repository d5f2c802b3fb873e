# laravel-vite-router: route compilation, modelled in Dafny

This project models how the Laravel-to-Vite router plugin turns Laravel's route list into the
`route(name, params)` helper available in the browser. It covers four steps:

1. **Normalisation** (`Normalisation`), which is `fetchRoutes` once the route list is parsed:
   - records without a name are skipped;
   - one leading `/` is cut from the uri, and a missing domain becomes `''`;
   - `domain + '/' + uri` is stored under the name in an insertion-ordered `Map`.
2. **Route filters** (`Patterns`, `Filtering`):
   - `compileRouteFilters` escapes every `.`, expands the first `*` into `.*`, and anchors the
     text with `^…$`;
   - `filterRoutes` keeps the entries whose name passes the `only` list and the `except` list.
3. **Grouping** (`Grouping`): `groupRoutes` puts each route into the first declared group that
   has a matching filter, or into `default` when none matches.
4. **The generated `window.route`** (`RouteFunction`), in this order:
   - look the name up;
   - reject parameters that are not an object;
   - replace the first `{key}` for each parameter, in order;
   - report every `{word}` token that is left.

`Pipeline` chains the steps: `compileModule` runs normalisation then filtering, and
`compileRoutes` runs normalisation, filtering, then grouping.

## How the model is built

- **Ordered maps.** A JavaScript `Map` and a plain object are both an insertion-ordered list of
  pairs (`OrderedMaps.OMap`). `Set` on a new key appends the key; on an existing key it replaces
  the value where the key already is.
- **Filters.** A filter compiles to RegExp source text. A small interpreter gives that text its
  meaning: for the filters the model covers, it covers the RegExp syntax the compilation can
  produce (literal characters, `\.`, `.` and `.*`), with all backtracking choices.
- **Reference reading.** `Patterns.GlobMatch` is the glob reading of a filter:
  - with no `*`, the name must equal the filter;
  - with a `*`, the name must have the given prefix and suffix, with no line terminator between
    them.
- **Proofs.** The compiled RegExp is proved to match exactly what `GlobMatch` says. The filter
  and grouping results are proved against declarative statements (subsequence, membership, first
  match).
- **Loops.** The loops of the source are Dafny methods with loop invariants, each proved equal to
  a left-fold specification function:
  - `FetchRoutes` (the normalisation loop);
  - `GroupRoutes` (the grouping loop);
  - `Route` (the substitution loop).
- **Placeholder scan.** `/\{\w+\}/g` is written as a scanner, `MatchAllPlaceholders`. It is
  proved sound and complete against the declarative `IsPlaceholderAt`, and to report the
  leftmost placeholder first, then resume after it.
- **Key order.** The insertion order of the `Map` is stated as equality of its keys with the
  list of names in order of first occurrence (`FirstNames`).

### Filter decisions as the code makes them

Both `src/compiler.ts:46-56` and `src/route_loader.js:46-56` always apply both lists: an entry
must pass `only` and then `except`. A non-empty `only` list does not switch `except` off.

`*` compiles to `.*`, which does not match line terminators (`\n`, `\r`, U+2028, U+2029); the
model keeps that.

### Parameters

`params` defaults to `{}` (`src/compiler.ts:74`): `route(name)` with the argument omitted or
`undefined` is `RouteSpec` with `ParamsObject([])`, the case `NoParamsKeepsTemplate` covers.

### The two source files

`src/compiler.ts` and `src/route_loader.js` contain the same normalisation loop, the same
`compileRouteFilters` and the same `filterRoutes`. The only difference is that `compiler.ts`
defines `compileRouteFilters` inside `filterRoutes`. Each is therefore modelled once. The table
cites whichever file states a property more directly.

## Model

| member | source | states |
|---|---|---|
| `OrderedMaps.Get` | src/compiler.ts:80 | a lookup finds a value exactly when the key is present |
| `OrderedMaps.Set` | src/compiler.ts:26 | after `set(k, v)`, `k` maps to `v` and every other key keeps its value |
| `OrderedMaps.SetKeys` | src/route_loader.js:24 | `Map.set` on a present key keeps the key order; on a new key it appends the entry at the end |
| `OrderedMaps.GetIffEntry` | src/compiler.ts:62 | with distinct keys, a lookup yields `v` exactly when the pair `(k, v)` is an entry, as `Object.fromEntries` relies on |
| `JsStrings.ReplaceFirstAtFirstOccurrence` | src/compiler.ts:87 | `replace` with a string pattern rewrites the first occurrence only and leaves the text around it as it was |
| `JsStrings.ReplaceFirstAbsent` | src/compiler.ts:87 | `replace` with a pattern that does not occur returns the text unchanged |
| `JsStrings.ReplaceAllConcat` | src/compiler.ts:34 | `replaceAll` acts on each part of a concatenation independently |
| `JsStrings.ReplaceAllNoNewChar` | src/compiler.ts:34 | `replaceAll` introduces no character absent from both the text and the replacement; so escaping dots adds no `*` |
| `Normalisation.Template` | src/compiler.ts:20-26 | the template is the domain (`''` when missing), then `/`, then the uri without one leading `/`; with an empty domain it starts with `/` |
| `Normalisation.Normalise` | src/compiler.ts:16-18 | the table has distinct keys and none of them is empty |
| `Normalisation.FetchRoutes` | src/compiler.ts:13-29 | the loop builds exactly the table that `Normalise` specifies |
| `Normalisation.NormaliseKeys` | src/route_loader.js:13-25 | a name is a key iff some record carries it as a non-empty name |
| `Normalisation.LastWriteWins` | src/compiler.ts:26 | a repeated name holds the template of its last record |
| `Normalisation.StoredTemplate` | src/route_loader.js:24 | every stored template is the template of a record with that name |
| `Normalisation.Unnamed` | src/compiler.ts:16-18 | a name that no record carries is not a key |
| `Normalisation.KeysInFirstOccurrenceOrder` | src/compiler.ts:26 | the keys are the distinct names in order of first occurrence; a repeated name keeps its first position |
| `Patterns.CompileRouteFilter` | src/compiler.ts:33-41 | for a covered filter, the compiled RegExp text parses to the filter's characters, with `.*` for its first `*` |
| `Patterns.CompileRouteFilters` | src/route_loader.js:30-40 | for covered filters, the RegExp at each position parses to the glob tokens of the filter at that position |
| `Patterns.ExpandAtStar` | src/compiler.ts:36-38 | `replace('*', '.*')` expands the first `*` and leaves any later text alone |
| `Patterns.EscapeAroundStar` | src/compiler.ts:34 | escaping dots works separately on the text before and after the `*` and puts no `*` into the prefix |
| `Patterns.CompileParses` | src/compiler.ts:34-40 | the anchored, escaped, star-expanded text parses to the tokens of the glob reading |
| `Patterns.MatchLitsOnly` | src/compiler.ts:40 | a RegExp of literals alone, anchored, matches exactly the identical string |
| `Patterns.MatchRunThenLits` | src/compiler.ts:37 | `.*` followed by literals matches exactly the strings that end with those literals, with no line terminator before them |
| `Patterns.StarTokensMeaning` | src/compiler.ts:36-40 | prefix literals, `.*`, then suffix literals match exactly the strings that are long enough for both parts, start with the prefix, end with the suffix, and have no line terminator between them |
| `Patterns.GlobTokensMeaning` | src/compiler.ts:33-41 | the tokens of a filter match a name iff its glob reading does |
| `Patterns.CompiledFilterMeaning` | src/compiler.ts:33-41 | `filter.test(name)` on a compiled covered filter holds iff the glob reading of the filter matches the name |
| `Patterns.AnyTestMeaning` | src/compiler.ts:47 | `some(filter => filter.test(name))` over compiled filters holds iff some filter's glob reading matches |
| `Patterns.TrailingStarMeaning` | src/compiler.ts:36-40 | a filter ending in its only `*` matches the names that start with the text before it |
| `Patterns.AdminWildcardMatchesChild` | src/compiler.ts:33-41 | `admin.*` matches `admin.x` |
| `Patterns.AdminWildcardRejectsLongerWord` | src/compiler.ts:33-41 | `admin.*` does not match `administrator` |
| `Patterns.AdminWildcardRejectsBareName` | src/compiler.ts:33-41 | `admin.*` does not match `admin` |
| `Filtering.KeepWhere` | src/compiler.ts:46-56 | `[...routes].filter(...)` returns an order-preserving subsequence that holds exactly the entries whose name passes both tests |
| `Filtering.FilterRoutes` | src/route_loader.js:42-57 | the filtered list is a subsequence of the input and holds exactly the entries that pass the `only` and `except` tests, read on the glob meaning of the filters |
| `Filtering.KeepMeaning` | src/compiler.ts:47-55 | the callback keeps a name iff `only` is empty or some `only` filter matches, and `except` is empty or no `except` filter matches |
| `Filtering.KeepWhereDistinct` | src/compiler.ts:46 | filtering a table with distinct names leaves distinct names |
| `Filtering.FilterWithoutFiltersKeepsAll` | src/compiler.ts:47-55 | with both lists empty, every entry is kept, in order |
| `Filtering.OnlyOneFilter` | src/compiler.ts:47-49 | with one `only` filter and no `except`, exactly the entries whose name it matches are kept |
| `Filtering.ExceptOneFilter` | src/compiler.ts:51-53 | with one `except` filter and no `only`, exactly the entries whose name it does not match are kept |
| `Grouping.CompileGroups` | src/route_loader.js:60-62 | the groups keep their names and order, and each group's filters are compiled |
| `Grouping.FirstGroupMeaning` | src/route_loader.js:67-71 | the chosen group is the first declared group with a matching filter, or `default` when no group matches |
| `Grouping.AddRoute` | src/route_loader.js:73-74 | the route is put into its group's bucket, created empty when missing, and every other bucket is unchanged |
| `Grouping.GroupRoutes` | src/route_loader.js:59-78 | the loop builds exactly the grouping that `GroupAll` specifies |
| `Grouping.SelectGroup` | src/route_loader.js:66-71 | the routes assigned to a group, in input order: exactly the input entries whose first matching group it is |
| `Grouping.GroupAllIsSelect` | src/route_loader.js:64-77 | a group's bucket holds exactly its assigned routes, in input order, and exists iff at least one route is assigned |
| `Grouping.EachRouteInOneGroup` | src/route_loader.js:66-74 | an entry is in a group's bucket iff it is an input entry whose first matching group that is; so every route is in exactly one bucket, with its path unchanged |
| `Grouping.NoEmptyGroup` | src/route_loader.js:73 | no bucket is empty |
| `Grouping.GroupKeepsOrder` | src/route_loader.js:66-74 | within each bucket, routes keep their input order |
| `Grouping.DefaultIffUnmatched` | src/route_loader.js:67-71 | when no declared group is named `default`, a route goes to `default` iff no group matches it |
| `Grouping.GroupExistsIffAssigned` | src/route_loader.js:64-74 | a group key is in the output iff some route is assigned to that group |
| `RouteFunction.WordRun` | src/compiler.ts:90 | the longest run of `\w` characters at the start of a string |
| `RouteFunction.PlaceholderAtStartMeaning` | src/compiler.ts:90 | `{\w+}` matches at the start of a string exactly at the end the scanner computes |
| `RouteFunction.MatchAllComplete` | src/compiler.ts:90 | every `{\w+}` token in the string is among the matches |
| `RouteFunction.MatchAllSound` | src/compiler.ts:90 | every match is a `{\w+}` token of the string |
| `RouteFunction.MatchAllLeftmost` | src/compiler.ts:90 | `matchAll` reports the leftmost placeholder first and resumes right after it, so matches follow the text's order and a repeated placeholder is reported each time |
| `RouteFunction.RepeatedPlaceholderListedTwice` | src/compiler.ts:90 | in `/{a}/{a}` the matches are `{a}`, `{a}` |
| `RouteFunction.NoMatchIffNoPlaceholder` | src/compiler.ts:90-92 | `matchAll` finds nothing iff the string contains no `{\w+}` token |
| `RouteFunction.SubstituteOne` | src/compiler.ts:86-88 | a single parameter performs one `replace` of `{key}` |
| `RouteFunction.Route` | src/compiler.ts:74-97 | the generated function returns or throws exactly what `RouteSpec` specifies |
| `RouteFunction.NotFoundIffUnknown` | src/compiler.ts:75-77 | "Route <name> does not exist." is thrown exactly for a name that has no template, or only an empty one, whatever the parameters |
| `RouteFunction.ErrorText` | src/compiler.ts:76-93 | the thrown text is "Route <name> does not exist.", "Route parameters must be an object.", or "Missing route parameters: " with the remaining placeholders joined by `, ` and the partly substituted path in quotes, whichever error occurs |
| `RouteFunction.InvalidParamsIffNotObject` | src/compiler.ts:82-84 | for a known route, "Route parameters must be an object." is thrown exactly for parameters that are not an object |
| `RouteFunction.SuccessHasNoPlaceholder` | src/compiler.ts:90-96 | a returned url is the template after the substitutions and contains no `{\w+}` token |
| `RouteFunction.MissingListsEveryPlaceholder` | src/compiler.ts:90-94 | the missing-parameters error carries the partially substituted path and lists exactly its `{\w+}` tokens, of which there is at least one |
| `RouteFunction.NoParamsKeepsTemplate` | src/compiler.ts:86-96 | with no parameters, a template without `{\w+}` tokens is returned unchanged |
| `RouteFunction.UnusedParamIgnored` | src/compiler.ts:86-88 | a parameter whose `{key}` does not occur changes nothing; no query string is added |
| `RouteFunction.ParamReplacesFirstOnly` | src/compiler.ts:87 | a parameter replaces only the first `{key}` of the current text; a later `{key}` stays |
| `RouteFunction.OptionalTokenUntouched` | src/compiler.ts:86-90 | an optional `{name?}` token is neither a `{\w+}` match nor an occurrence of `{name}` |
| `RouteFunction.OptionalPlaceholderNotFilled` | src/compiler.ts:87 | `replace('{id}', '5')` leaves `/{id?}` unchanged |
| `RouteFunction.OptionalPlaceholderNotReported` | src/compiler.ts:90 | `/{id?}` contains no `{\w+}` token |
| `RouteFunction.OptionalPlaceholderPassesThrough` | src/compiler.ts:86-96 | with the template `/{id?}`, the parameter `id` is ignored and the template is returned verbatim |
| `Pipeline.RouteTable` | src/compiler.ts:59-62 | the table embedded in the module, the filtered normalised routes, has distinct names |
| `Pipeline.RouteTableKeys` | src/compiler.ts:60-62 | a name is in the embedded table iff some record carries it and it passes both filters |
| `Pipeline.RouteTableEntries` | src/compiler.ts:62 | the embedded table maps each kept name to the template normalisation stored for it |
| `Pipeline.StoredTemplateNotEmpty` | src/compiler.ts:26 | a stored template is never empty, so `!routes[name]` rejects only names that are absent |
| `Pipeline.RouteNotFoundAfterFiltering` | src/compiler.ts:75-77 | `route` reports an unknown route exactly when no record carries the name or the filters drop it |
| `Pipeline.CompileRoutes` | src/route_loader.js:80-88 | `compileRoutes` is the grouping of the filtered normalised table |
| `Pipeline.CompiledRoutesPartition` | src/route_loader.js:81-83 | the grouped output holds `(name, template)` in group `g` iff the name passes the filters, its stored template is `template`, and `g` is its first matching group |

## Left out

- Running `php artisan route:list --json`, the `stderr` check and `JSON.parse`: these are process
  I/O. The model starts from the parsed records (`Normalisation.RawRoute`).
- The Vite plugin hooks and option assembly (`src/index.ts`, `src/index.js`). They are bundler
  glue, so the default `except` entry they add is not modelled either.
- The emitted module text (`JSON.stringify` and the template literal around `window.route`): the
  model covers what the emitted function does, not its characters.
- `console.log(groups)` in `compileRoutes`: output only.
- `src/index.d.ts` and `src/shims.d.ts`: type declarations with no behaviour.
- The general RegExp engine. A filter with a RegExp metacharacter other than `.`, or with more
  than one `*`, becomes a raw RegExp fragment.
  - `Patterns.CompiledFilterMeaning`, `Patterns.AnyTestMeaning`, `Filtering.FilterRoutes` and
    `Grouping.FirstGroupMeaning` require `ValidPattern`: letters, digits, `_`, `-`, `.` and at
    most one `*`.
  - The compilation itself (`Patterns.CompileRouteFilter`) is modelled for every filter.
- `RouteFunction.Route` requires `LiteralValues`: parameter values are strings without `$`. The
  `$` replacement patterns of `String.prototype.replace` and the coercion of non-string values
  are not modelled.
- `params === null`, which passes the `typeof` check and then throws in `Object.entries`: not
  modelled. `Params` is either an object or not an object.
- Key order of plain JavaScript objects is not modelled:
  - objects list integer-like keys first, so `Object.fromEntries`, `Object.entries(groups)` and
    `groupedRoutes` would reorder such names;
  - `__proto__` and inherited names such as `toString` are ordinary keys in the model.
- A record name that is present but not a string (a number, say) is treated like any non-empty
  name, and `false`, `0` or `null` like a missing one: names are modelled as `Option<string>`.
- Query strings and the stripping of `?` from `{id?}`: the code does neither. The model proves
  that `{id?}` passes through unchanged.
- `Grouping.DefaultIffUnmatched`: this requires that no declared group is named `default`, because
  a group named `default` shares the fallback bucket. The model handles that case faithfully; the
  iff is only stated without it.
- The statement "the `default` bucket exists iff some route matches no group" is split in two:
  `Grouping.DefaultIffUnmatched` for one route, and `Grouping.GroupExistsIffAssigned` for the
  buckets.
