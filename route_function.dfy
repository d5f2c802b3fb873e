/**
 * The `route(name, params = {})` function the plugin generates for the browser. It looks the name
 * up in the route table (a missing or empty template is an unknown route), refuses parameters
 * that are not an object, replaces the FIRST `{key}` of the template with the value of each
 * parameter in `Object.entries` order, and fails when any `{word}` placeholder is left, listing
 * every one of them with the partially filled path.
 */
module RouteFunction {

  import opened Wrappers
  import opened JsStrings
  import opened OrderedMaps

  /**
   * The `params` argument: an object with its entries in order, or anything whose `typeof` is not
   * `'object'`. An omitted or `undefined` argument takes the default `{}`, that is `ParamsObject([])`.
   */
  datatype Params = ParamsObject(entries: seq<(string, string)>) | NotAnObject

  datatype RouteError =
    | RouteNotFound(name: string)
    | InvalidParams
    | MissingParameters(missing: seq<string>, partial: string)

  datatype RouteResult = Ok(url: string) | Err(error: RouteError)

  /** The text of the `Error` thrown for each failure. */
  function Message(e: RouteError): string
  {
    match e
    case RouteNotFound(name) => "Route " + name + " does not exist."
    case InvalidParams => "Route parameters must be an object."
    case MissingParameters(missing, partial) =>
      "Missing route parameters: " + Join(missing, ", ") + " in '" + partial + "'"
  }

  /** Parameter values contain no `$`, so `replace` inserts them literally. */
  predicate LiteralValues(params: Params)
  {
    params.ParamsObject? ==> forall i :: 0 <= i < |params.entries| ==> '$' !in params.entries[i].1
  }

  // ----- Placeholders: the RegExp /\{\w+\}/g -----

  /** The RegExp class `\w`. */
  predicate IsWord(c: char)
  {
    ('a' <= c <= 'z') || ('A' <= c <= 'Z') || ('0' <= c <= '9') || c == '_'
  }

  /** `s[i..j]` is a placeholder: `{`, one or more word characters, `}`. */
  predicate IsPlaceholderAt(s: string, i: int, j: int)
  {
    && 0 <= i && i + 3 <= j <= |s|
    && s[i] == '{' && s[j - 1] == '}'
    && forall k :: i < k < j - 1 ==> IsWord(s[k])
  }

  predicate HasPlaceholder(s: string)
  {
    exists i, j :: 0 <= i < j <= |s| && IsPlaceholderAt(s, i, j)
  }

  /** Length of the run of word characters that starts `s`. */
  function WordRun(s: string): (n: nat)
    ensures n <= |s|
    ensures forall k :: 0 <= k < n ==> IsWord(s[k])
    ensures n < |s| ==> !IsWord(s[n])
  {
    if s == [] || !IsWord(s[0]) then 0 else 1 + WordRun(s[1..])
  }

  /** Length of the placeholder that starts `s`, or 0 when none does. */
  function PlaceholderAtStart(s: string): nat
  {
    if |s| >= 3 && s[0] == '{' then
      var w := WordRun(s[1..]);
      if w > 0 && 1 + w < |s| && s[1 + w] == '}' then w + 2 else 0
    else 0
  }

  /** `Array.from(s.matchAll(/\{\w+\}/g))`, each match by its text, left to right. */
  function MatchAllPlaceholders(s: string): seq<string>
    decreases |s|
  {
    if s == [] then []
    else
      var n := PlaceholderAtStart(s);
      if n > 0 then [s[..n]] + MatchAllPlaceholders(s[n..]) else MatchAllPlaceholders(s[1..])
  }

  /** The scanner's step recognises exactly the placeholders that start the string. */
  lemma PlaceholderAtStartMeaning(s: string, j: int)
    ensures IsPlaceholderAt(s, 0, j) <==> j > 0 && j == PlaceholderAtStart(s)
  {
    if IsPlaceholderAt(s, 0, j) {
      var w := WordRun(s[1..]);
      assert s[1..][j - 2] == '}';
    }
    if j > 0 && j == PlaceholderAtStart(s) {
      forall k | 0 < k < j - 1
        ensures IsWord(s[k])
      {
        assert s[k] == s[1..][k - 1];
      }
    }
  }

  /** A placeholder found at the start hides no other placeholder start inside it. */
  lemma NoPlaceholderInside(s: string, i: int, j: int)
    requires 0 < i < PlaceholderAtStart(s)
    ensures !IsPlaceholderAt(s, i, j)
  {
    var w := WordRun(s[1..]);
    if i <= w {
      assert s[i] == s[1..][i - 1];
    }
  }

  /** Placeholders of a suffix are placeholders of the whole string, shifted. */
  lemma PlaceholderShift(s: string, n: nat, i: int, j: int)
    requires n <= |s|
    ensures IsPlaceholderAt(s[n..], i, j) <==> i >= 0 && IsPlaceholderAt(s, i + n, j + n)
    ensures 0 <= i <= j <= |s| - n ==> s[n..][i..j] == s[i + n..j + n]
  {
    if IsPlaceholderAt(s, i + n, j + n) && i >= 0 {
      forall k | i < k < j - 1
        ensures IsWord(s[n..][k])
      {
        assert s[n..][k] == s[k + n];
      }
    }
  }

  /** Every placeholder of `s` is reported. */
  lemma {:induction false} MatchAllComplete(s: string, i: int, j: int)
    requires IsPlaceholderAt(s, i, j)
    ensures s[i..j] in MatchAllPlaceholders(s)
    decreases |s|, 1
  {
    var n := PlaceholderAtStart(s);
    PlaceholderAtStartMeaning(s, j);
    if n > 0 && i == 0 {
      assert s[i..j] == s[..n];
    } else {
      var m := if n > 0 then n else 1;
      if i < m {
        NoPlaceholderInside(s, i, j);
      }
      MatchAllCompleteRest(s, m, i, j);
    }
  }

  /** Whatever the scanner reports after its first step it reports for the whole string. */
  lemma MatchAllKeepsRest(s: string, m: nat, t: string)
    requires s != [] && m == (if PlaceholderAtStart(s) > 0 then PlaceholderAtStart(s) else 1)
    requires t in MatchAllPlaceholders(s[m..])
    ensures t in MatchAllPlaceholders(s)
  {
  }

  /** The inductive step of `MatchAllComplete`: a placeholder past the scanner's first step. */
  lemma {:induction false} MatchAllCompleteRest(s: string, m: nat, i: int, j: int)
    requires IsPlaceholderAt(s, i, j) && 0 < m <= i
    requires s != [] && m == (if PlaceholderAtStart(s) > 0 then PlaceholderAtStart(s) else 1)
    ensures s[i..j] in MatchAllPlaceholders(s)
    decreases |s|, 0
  {
    PlaceholderShift(s, m, i - m, j - m);
    var t := s[m..][i - m..j - m];
    assert t == s[i..j];
    MatchAllComplete(s[m..], i - m, j - m);
    MatchAllKeepsRest(s, m, t);
  }

  /** Everything reported is a placeholder of `s`. */
  lemma {:induction false} MatchAllSound(s: string, t: string)
    requires t in MatchAllPlaceholders(s)
    ensures exists i, j :: IsPlaceholderAt(s, i, j) && s[i..j] == t
    decreases |s|
  {
    var n := PlaceholderAtStart(s);
    var m := if n > 0 then n else 1;
    if n > 0 && t == s[..n] {
      PlaceholderAtStartMeaning(s, n);
      assert IsPlaceholderAt(s, 0, n) && s[0..n] == t;
    } else {
      MatchAllSound(s[m..], t);
      var i, j :| IsPlaceholderAt(s[m..], i, j) && s[m..][i..j] == t;
      PlaceholderShift(s, m, i, j);
      assert IsPlaceholderAt(s, i + m, j + m) && s[i + m..j + m] == t;
    }
  }

  /**
   * The matches come leftmost first: when the leftmost placeholder of `s` is `s[i..j]`, it is
   * the first match, and the scan resumes right after it. So the list follows the order of the
   * placeholders in the text, and a repeated placeholder is listed each time.
   */
  lemma {:induction false} MatchAllLeftmost(s: string, i: int, j: int)
    requires IsPlaceholderAt(s, i, j)
    requires forall i', j' :: 0 <= i' < i ==> !IsPlaceholderAt(s, i', j')
    ensures MatchAllPlaceholders(s) == [s[i..j]] + MatchAllPlaceholders(s[j..])
    decreases i
  {
    var n := PlaceholderAtStart(s);
    PlaceholderAtStartMeaning(s, j);
    if i == 0 {
      assert s[i..j] == s[..n];
    } else {
      PlaceholderAtStartMeaning(s, n);
      assert n == 0;
      var t := s[1..];
      PlaceholderShift(s, 1, i - 1, j - 1);
      forall i', j' | 0 <= i' < i - 1
        ensures !IsPlaceholderAt(t, i', j')
      {
        PlaceholderShift(s, 1, i', j');
      }
      MatchAllLeftmost(t, i - 1, j - 1);
      assert t[j - 1..] == s[j..];
    }
  }

  /** `/{a}/{a}` reports `{a}` twice. */
  lemma RepeatedPlaceholderListedTwice(s: string)
    requires s == "/{a}/{a}"
    ensures MatchAllPlaceholders(s) == ["{a}", "{a}"]
  {
    SlashThenA(s);
    assert s[4..] == "/{a}";
    SlashThenA(s[4..]);
  }

  /** In a string that starts with `/{a}`, the first match is `{a}`, right after the `/`. */
  lemma SlashThenA(s: string)
    requires |s| >= 4 && s[..4] == "/{a}"
    ensures MatchAllPlaceholders(s) == ["{a}"] + MatchAllPlaceholders(s[4..])
  {
    assert s[0] == '/' && s[1] == '{' && s[2] == 'a' && s[3] == '}';
    assert IsPlaceholderAt(s, 1, 4);
    MatchAllLeftmost(s, 1, 4);
    assert s[1..4] == "{a}";
  }

  /** No match is reported exactly when the string holds no placeholder. */
  lemma NoMatchIffNoPlaceholder(s: string)
    ensures MatchAllPlaceholders(s) == [] <==> !HasPlaceholder(s)
  {
    if i, j :| IsPlaceholderAt(s, i, j) {
      MatchAllComplete(s, i, j);
    }
    if MatchAllPlaceholders(s) != [] {
      MatchAllSound(s, MatchAllPlaceholders(s)[0]);
    }
  }

  // ----- Substitution and the function itself -----

  /** The template after `route = route.replace(`{${key}}`, value)` for each entry in order. */
  function Substitute(template: string, entries: seq<(string, string)>): string
    decreases |entries|
  {
    if entries == [] then template
    else
      var (key, value) := entries[|entries| - 1];
      ReplaceFirst(Substitute(template, entries[..|entries| - 1]), "{" + key + "}", value)
  }

  /** With one parameter, the template gets one `replace`. */
  lemma SubstituteOne(template: string, key: string, value: string)
    ensures Substitute(template, [(key, value)]) == ReplaceFirst(template, "{" + key + "}", value)
  {
    assert [(key, value)][..0] == [];
  }

  /** What `route(name, params)` returns or throws, given the route table. */
  function RouteSpec(routes: OMap<string>, name: string, params: Params): RouteResult
  {
    var found := Get(routes, name);
    if found.None? || found.value == "" then Err(RouteNotFound(name))
    else if params.NotAnObject? then Err(InvalidParams)
    else
      var route := Substitute(found.value, params.entries);
      var missing := MatchAllPlaceholders(route);
      if |missing| > 0 then Err(MissingParameters(missing, route)) else Ok(route)
  }

  /** The generated `window.route`, with `routes` the table embedded in the module. */
  method Route(routes: OMap<string>, name: string, params: Params) returns (r: RouteResult)
    requires LiteralValues(params)
    ensures r == RouteSpec(routes, name, params)
  {
    var found := Get(routes, name);
    if found.None? || found.value == "" {
      return Err(RouteNotFound(name));
    }
    var route := found.value;
    if params.NotAnObject? {
      return Err(InvalidParams);
    }
    var entries := params.entries;
    for i := 0 to |entries|
      invariant route == Substitute(found.value, entries[..i])
    {
      assert entries[..i + 1][..i] == entries[..i];
      var (key, value) := entries[i];
      route := ReplaceFirst(route, "{" + key + "}", value);
    }
    assert entries[..|entries|] == entries;
    var missingParams := MatchAllPlaceholders(route);
    if |missingParams| > 0 {
      return Err(MissingParameters(missingParams, route));
    }
    return Ok(route);
  }

  // ----- What the function promises -----

  /** The lookup fails exactly for a name with no (or an empty) template, whatever the parameters. */
  lemma NotFoundIffUnknown(routes: OMap<string>, name: string, params: Params)
    ensures RouteSpec(routes, name, params).Err? && RouteSpec(routes, name, params).error.RouteNotFound?
        <==> name !in Keys(routes) || Get(routes, name).value == ""
  {
  }

  /** The text of the `Error` thrown, read off the route table and the arguments. */
  lemma ErrorText(routes: OMap<string>, name: string, params: Params)
    requires RouteSpec(routes, name, params).Err?
    ensures Message(RouteSpec(routes, name, params).error)
         == if name !in Keys(routes) || Get(routes, name).value == "" then
              "Route " + name + " does not exist."
            else if params.NotAnObject? then
              "Route parameters must be an object."
            else
              var partial := Substitute(Get(routes, name).value, params.entries);
              "Missing route parameters: " + Join(MatchAllPlaceholders(partial), ", ")
                + " in '" + partial + "'"
  {
  }

  /** Non-object parameters are refused, but only once the route has been found. */
  lemma InvalidParamsIffNotObject(routes: OMap<string>, name: string, params: Params)
    requires Get(routes, name).Some? && Get(routes, name).value != ""
    ensures RouteSpec(routes, name, params) == Err(InvalidParams) <==> params.NotAnObject?
  {
  }

  /** A successful result is the substituted template and contains no placeholder. */
  lemma SuccessHasNoPlaceholder(routes: OMap<string>, name: string, params: Params, url: string)
    requires RouteSpec(routes, name, params) == Ok(url)
    ensures params.ParamsObject? && Get(routes, name).Some?
    ensures url == Substitute(Get(routes, name).value, params.entries)
    ensures !HasPlaceholder(url)
  {
    NoMatchIffNoPlaceholder(url);
  }

  /**
   * The missing-parameters error carries the substituted template and lists exactly the
   * placeholders left in it; there is at least one. `MatchAllLeftmost` gives their order.
   */
  lemma MissingListsEveryPlaceholder(routes: OMap<string>, name: string, params: Params,
                                      missing: seq<string>, partial: string)
    requires RouteSpec(routes, name, params) == Err(MissingParameters(missing, partial))
    ensures params.ParamsObject? && Get(routes, name).Some?
    ensures partial == Substitute(Get(routes, name).value, params.entries)
    ensures missing != [] && HasPlaceholder(partial)
    ensures forall i, j :: IsPlaceholderAt(partial, i, j) ==> partial[i..j] in missing
    ensures forall t :: t in missing ==> exists i, j :: IsPlaceholderAt(partial, i, j) && partial[i..j] == t
  {
    NoMatchIffNoPlaceholder(partial);
    forall i, j | IsPlaceholderAt(partial, i, j)
      ensures partial[i..j] in missing
    {
      MatchAllComplete(partial, i, j);
    }
    forall t | t in missing
      ensures exists i, j :: IsPlaceholderAt(partial, i, j) && partial[i..j] == t
    {
      MatchAllSound(partial, t);
    }
  }

  /** Without parameters a template that has no placeholder comes back unchanged. */
  lemma NoParamsKeepsTemplate(routes: OMap<string>, name: string, template: string)
    requires Get(routes, name) == Some(template) && template != ""
    requires !HasPlaceholder(template)
    ensures RouteSpec(routes, name, ParamsObject([])) == Ok(template)
  {
    NoMatchIffNoPlaceholder(template);
  }

  /** A parameter whose `{key}` does not occur is ignored: nothing is appended, no query string. */
  lemma UnusedParamIgnored(template: string, entries: seq<(string, string)>, key: string, value: string)
    requires forall j :: !OccursAt(Substitute(template, entries), "{" + key + "}", j)
    ensures Substitute(template, entries + [(key, value)]) == Substitute(template, entries)
  {
    var e := entries + [(key, value)];
    assert e[..|e| - 1] == entries;
    ReplaceFirstAbsent(Substitute(template, entries), "{" + key + "}", value);
  }

  /** A parameter replaces only the first `{key}`; later occurrences stay. */
  lemma ParamReplacesFirstOnly(template: string, entries: seq<(string, string)>, key: string,
                               value: string, i: int)
    requires OccursAt(Substitute(template, entries), "{" + key + "}", i)
    requires forall j :: 0 <= j < i ==> !OccursAt(Substitute(template, entries), "{" + key + "}", j)
    ensures var s := Substitute(template, entries);
      Substitute(template, entries + [(key, value)]) == s[..i] + value + s[i + |key| + 2..]
  {
    var e := entries + [(key, value)];
    assert e[..|e| - 1] == entries;
    ReplaceFirstAtFirstOccurrence(Substitute(template, entries), "{" + key + "}", value, i);
  }

  /** `replace` moves past a position where its pattern differs from the string at offset `x`. */
  lemma ReplaceFirstSkip(s: string, pat: string, rep: string, x: int)
    requires 0 <= x < |pat| <= |s| && s[x] != pat[x]
    ensures ReplaceFirst(s, pat, rep) == [s[0]] + ReplaceFirst(s[1..], pat, rep)
  {
    assert s[..|pat|][x] == s[x];
  }

  /** `s[i..i + n + 3]` is an optional-parameter token: `{`, `n` word characters, `?`, `}`. */
  predicate IsOptionalAt(s: string, i: int, n: nat)
  {
    && 0 <= i && i + n + 3 <= |s|
    && s[i] == '{' && s[i + n + 1] == '?' && s[i + n + 2] == '}'
    && forall k :: i < k <= i + n ==> IsWord(s[k])
  }

  /**
   * No placeholder starts anywhere inside an optional token, so it is never reported missing,
   * and the `{key}` of its own name does not occur at it, so that parameter does not fill it.
   */
  lemma OptionalTokenUntouched(s: string, i: int, n: nat, i': int, j: int)
    requires IsOptionalAt(s, i, n)
    requires i <= i' <= i + n + 2
    ensures !IsPlaceholderAt(s, i', j)
    ensures !OccursAt(s, "{" + s[i + 1..i + n + 1] + "}", i)
  {
  }

  /** `replace('{id}', ...)` leaves `/{id?}` alone. */
  lemma OptionalPlaceholderNotFilled()
    ensures ReplaceFirst("/{id?}", "{" + "id" + "}", "5") == "/{id?}"
  {
    var t, pat := "/{id?}", "{" + "id" + "}";
    ReplaceFirstSkip(t, pat, "5", 0);
    ReplaceFirstSkip(t[1..], pat, "5", 3);
    assert ReplaceFirst(t[2..], pat, "5") == t[2..];
  }

  /** `/\{\w+\}/g` finds nothing in `/{id?}`. */
  lemma OptionalPlaceholderNotReported()
    ensures MatchAllPlaceholders("/{id?}") == []
  {
  }

  /** With a parameter `id` only, `/{id?}` is returned as it is. */
  lemma OptionalPlaceholderPassesThrough(routes: OMap<string>, name: string, t: string)
    requires t == "/{id?}" && Get(routes, name) == Some(t)
    ensures RouteSpec(routes, name, ParamsObject([("id", "5")])) == Ok(t)
  {
    OptionalPlaceholderNotFilled();
    OptionalPlaceholderNotReported();
    SubstituteOne(t, "id", "5");
  }

}
