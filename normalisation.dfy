/**
 * The normalisation loop of `fetchRoutes`, from the already-parsed output of
 * `php artisan route:list --json`: records without a name are skipped, one leading `/` is cut
 * from the uri, a missing domain becomes `''`, and `domain + '/' + uri` is stored under the
 * route name in a `Map`, so that a repeated name keeps its first position and its last template.
 */
module Normalisation {

  import opened Wrappers
  import opened JsStrings
  import opened OrderedMaps

  /** One parsed route record; `None` stands for a missing or `null` field. */
  datatype RawRoute = RawRoute(name: Option<string>, uri: string, domain: Option<string>)

  /** `!route.name` is false: the name is present and not empty. */
  predicate HasName(r: RawRoute)
  {
    r.name.Some? && r.name.value != ""
  }

  /** Record `i` is kept under the name `k`. */
  predicate NamedAt(rs: seq<RawRoute>, i: int, k: string)
  {
    0 <= i < |rs| && rs[i].name == Some(k) && k != ""
  }

  /** `route.domain ?? ''` */
  function DomainOf(r: RawRoute): string
  {
    if r.domain.Some? then r.domain.value else ""
  }

  /**
   * The template stored for a record: the domain, a `/`, then the uri with ONE leading `/`
   * removed (a second one stays). An empty or missing domain therefore gives a leading `/`.
   */
  function Template(r: RawRoute): (t: string)
    ensures |t| > |DomainOf(r)| && t[..|DomainOf(r)|] == DomainOf(r) && t[|DomainOf(r)|] == '/'
    ensures r.uri == (if StartsWith(r.uri, "/") then "/" else "") + t[|DomainOf(r)| + 1..]
    ensures DomainOf(r) == "" ==> t[0] == '/'
  {
    var uri := if StartsWith(r.uri, "/") then r.uri[1..] else r.uri;
    var t := DomainOf(r) + "/" + uri;
    assert t[|DomainOf(r)| + 1..] == uri;
    assert StartsWith(r.uri, "/") ==> r.uri == [r.uri[0]] + r.uri[1..];
    t
  }

  /** The table after the records of `rs` have been processed in order. */
  function Normalise(rs: seq<RawRoute>): (m: OMap<string>)
    ensures Distinct(Keys(m))
    ensures forall k :: k in Keys(m) ==> k != ""
    decreases |rs|
  {
    if rs == [] then []
    else
      var prev := Normalise(rs[..|rs| - 1]);
      var r := rs[|rs| - 1];
      if HasName(r) then
        SetKeepsDistinct(prev, r.name.value, Template(r));
        var m := Set(prev, r.name.value, Template(r));
        assert forall k :: k in Keys(m) ==> k != "" by {
          forall k | k in Keys(m) ensures k != "" {
            SetKeysIn(prev, r.name.value, Template(r), k);
          }
        }
        m
      else prev
  }

  /** `fetchRoutes` after the records have been parsed. */
  method FetchRoutes(records: seq<RawRoute>) returns (router: OMap<string>)
    ensures router == Normalise(records)
  {
    router := [];
    for i := 0 to |records|
      invariant router == Normalise(records[..i])
    {
      assert records[..i + 1][..i] == records[..i];
      var route := records[i];
      if route.name.None? || route.name.value == "" {
        continue;
      }
      var uri := route.uri;
      if StartsWith(uri, "/") {
        uri := uri[1..];
      }
      var domain := if route.domain.Some? then route.domain.value else "";
      router := Set(router, route.name.value, domain + "/" + uri);
    }
    assert records[..|records|] == records;
  }

  /** Going one record further: the new table is the old one, or the old one with one `set`. */
  lemma NormaliseStep(rs: seq<RawRoute>)
    requires rs != []
    ensures var prev, r := Normalise(rs[..|rs| - 1]), rs[|rs| - 1];
      Normalise(rs) == if HasName(r) then Set(prev, r.name.value, Template(r)) else prev
  {
  }

  /** One record further, a name is carried by the new last record or by an earlier one. */
  lemma NamedStep(rs: seq<RawRoute>, init: seq<RawRoute>, k: string)
    requires rs != [] && init == rs[..|rs| - 1]
    ensures (exists i :: NamedAt(rs, i, k))
        <==> (exists i :: NamedAt(init, i, k)) || NamedAt(rs, |rs| - 1, k)
  {
    if exists i :: NamedAt(rs, i, k) {
      var i :| NamedAt(rs, i, k);
      if i < |init| {
        assert NamedAt(init, i, k);
      }
    }
    if exists i :: NamedAt(init, i, k) {
      var i :| NamedAt(init, i, k);
      assert NamedAt(rs, i, k);
    }
  }

  /** The keys are exactly the non-empty names that occur in the records. */
  lemma {:induction false} NormaliseKeys(rs: seq<RawRoute>, k: string)
    ensures k in Keys(Normalise(rs)) <==> exists i :: NamedAt(rs, i, k)
    decreases |rs|
  {
    if rs != [] {
      var init, r := rs[..|rs| - 1], rs[|rs| - 1];
      NormaliseKeys(init, k);
      NormaliseStep(rs);
      NamedStep(rs, init, k);
      if HasName(r) {
        SetKeysIn(Normalise(init), r.name.value, Template(r), k);
      }
    }
  }

  /** A name is looked up to the template of the LAST record that carries it. */
  lemma {:induction false} LastWriteWins(rs: seq<RawRoute>, k: string, i: int)
    requires NamedAt(rs, i, k)
    requires forall j :: i < j < |rs| ==> rs[j].name != Some(k)
    ensures Get(Normalise(rs), k) == Some(Template(rs[i]))
    decreases |rs|
  {
    var init, r := rs[..|rs| - 1], rs[|rs| - 1];
    NormaliseStep(rs);
    if i < |rs| - 1 {
      assert NamedAt(init, i, k);
      LastWriteWins(init, k, i);
    }
  }

  /** Every stored template is the template of a record carrying its name. */
  lemma {:induction false} StoredTemplate(rs: seq<RawRoute>, k: string)
    requires Get(Normalise(rs), k).Some?
    ensures exists i :: NamedAt(rs, i, k) && Get(Normalise(rs), k).value == Template(rs[i])
    decreases |rs|
  {
    var init, r := rs[..|rs| - 1], rs[|rs| - 1];
    NormaliseStep(rs);
    if HasName(r) && r.name.value == k {
      assert NamedAt(rs, |rs| - 1, k);
    } else {
      StoredTemplate(init, k);
      var i :| NamedAt(init, i, k) && Get(Normalise(init), k).value == Template(init[i]);
      assert NamedAt(rs, i, k);
    }
  }

  /** A name no record carries is not in the table. */
  lemma Unnamed(rs: seq<RawRoute>, k: string)
    requires forall j :: !NamedAt(rs, j, k)
    ensures Get(Normalise(rs), k) == None
  {
    NormaliseKeys(rs, k);
  }

  /** The distinct non-empty names of `rs`, each where it first occurs. */
  function FirstNames(rs: seq<RawRoute>): (ns: seq<string>)
    decreases |rs|
  {
    if rs == [] then []
    else
      var prev, r := FirstNames(rs[..|rs| - 1]), rs[|rs| - 1];
      if HasName(r) && r.name.value !in prev then prev + [r.name.value] else prev
  }

  /**
   * A repeated name keeps the position of its first insertion: the keys of the table are the
   * names in order of first occurrence.
   */
  lemma {:induction false} KeysInFirstOccurrenceOrder(rs: seq<RawRoute>)
    ensures Keys(Normalise(rs)) == FirstNames(rs)
    decreases |rs|
  {
    if rs != [] {
      var init, r := rs[..|rs| - 1], rs[|rs| - 1];
      var prev := Normalise(init);
      KeysInFirstOccurrenceOrder(init);
      NormaliseStep(rs);
      if HasName(r) {
        var k := r.name.value;
        SetKeys(prev, k, Template(r));
        if k !in Keys(prev) {
          assert Keys(prev + [(k, Template(r))]) == Keys(prev) + [k];
        }
      }
    }
  }

}
