/**
 * `getPropertyInfo`: the distinct property names found in a set of trace
 * fragments, one `PropertyInfo` each, sorted by name.
 */
module PropertyInfos {
  import opened Wrappers
  import opened Ordering
  import opened ApmModel
  import opened SeqFacts

  /** The properties of the fragments, fragment by fragment, in order. */
  function AllProperties(fragments: seq<Trace>): seq<Property>
  {
    if fragments == [] then []
    else AllProperties(fragments[..|fragments| - 1]) + fragments[|fragments| - 1].properties
  }

  /** The names occurring in `props`, each once, at its first occurrence. */
  function DistinctNames(props: seq<Property>): seq<string>
  {
    if props == [] then []
    else
      var names := DistinctNames(props[..|props| - 1]);
      var n := props[|props| - 1].name;
      if n in names then names else names + [n]
  }

  /** One `PropertyInfo` per name. */
  function Infos(names: seq<string>): (r: seq<PropertyInfo>)
    ensures |r| == |names|
    ensures forall i :: 0 <= i < |r| ==> r[i] == PropertyInfo(names[i])
  {
    seq(|names|, i requires 0 <= i < |names| => PropertyInfo(names[i]))
  }

  function NameOf(p: PropertyInfo): string
  {
    p.name
  }

  /** What `getPropertyInfo(tenant, criteria)` returns for the fragments the criteria select. */
  function PropertyInfoOf(fragments: seq<Trace>): seq<PropertyInfo>
  {
    SortBy(Infos(DistinctNames(AllProperties(fragments))), NameOf)
  }

  /** The inner loop of `getPropertyInfo`: adds the new names of one fragment's properties. */
  method AddPropertyNames(propertyNames: seq<string>, ret: seq<PropertyInfo>, props: seq<Property>, ghost before: seq<Property>)
    returns (propertyNames': seq<string>, ret': seq<PropertyInfo>)
    requires propertyNames == DistinctNames(before) && ret == Infos(propertyNames)
    ensures propertyNames' == DistinctNames(before + props) && ret' == Infos(propertyNames')
  {
    propertyNames', ret' := propertyNames, ret;
    assert before + props[..0] == before;
    for j := 0 to |props|
      invariant propertyNames' == DistinctNames(before + props[..j])
      invariant ret' == Infos(propertyNames')
    {
      var property := props[j];
      ghost var seen := before + props[..j];
      assert before + props[..j + 1] == seen + [property];
      assert (seen + [property])[..|seen|] == seen;
      if property.name !in propertyNames' {
        propertyNames' := propertyNames' + [property.name];
        ret' := ret' + [PropertyInfo(property.name)];
      }
    }
    assert props[..|props|] == props;
  }

  /** `getPropertyInfo(String, Criteria)`, after `getFragments` has delivered `fragments`. */
  method GetPropertyInfo(fragments: seq<Trace>) returns (ret: seq<PropertyInfo>)
    ensures ret == PropertyInfoOf(fragments)
  {
    ret := [];
    var propertyNames: seq<string> := [];
    for i := 0 to |fragments|
      invariant propertyNames == DistinctNames(AllProperties(fragments[..i]))
      invariant ret == Infos(propertyNames)
    {
      assert fragments[..i + 1][..i] == fragments[..i];
      propertyNames, ret := AddPropertyNames(propertyNames, ret, fragments[i].properties, AllProperties(fragments[..i]));
    }
    assert fragments[..|fragments|] == fragments;
    ret := SortBy(ret, NameOf);
  }

  // ---- Properties of the listing ----

  lemma {:induction false} AllPropertiesIff(fragments: seq<Trace>, p: Property)
    ensures p in AllProperties(fragments) <==> exists i :: 0 <= i < |fragments| && p in fragments[i].properties
  {
    if fragments != [] {
      var init := fragments[..|fragments| - 1];
      AllPropertiesIff(init, p);
      assert forall i :: 0 <= i < |init| ==> init[i] == fragments[i];
    }
  }

  lemma {:induction false} DistinctNamesIff(props: seq<Property>, n: string)
    ensures n in DistinctNames(props) <==> exists k :: 0 <= k < |props| && props[k].name == n
  {
    if props != [] {
      var init := props[..|props| - 1];
      DistinctNamesIff(init, n);
      assert forall k :: 0 <= k < |init| ==> init[k] == props[k];
    }
  }

  lemma {:induction false} DistinctNamesDistinct(props: seq<Property>)
    ensures forall i, j :: 0 <= i < j < |DistinctNames(props)| ==> DistinctNames(props)[i] != DistinctNames(props)[j]
  {
    if props != [] {
      DistinctNamesDistinct(props[..|props| - 1]);
    }
  }

  /** The listing is ordered by name with no name twice. */
  lemma PropertyInfoSorted(fragments: seq<Trace>)
    ensures var r := PropertyInfoOf(fragments);
      forall i, j :: 0 <= i < j < |r| ==> LexLe(r[i].name, r[j].name) && r[i].name != r[j].name
  {
    var names := DistinctNames(AllProperties(fragments));
    DistinctNamesDistinct(AllProperties(fragments));
    var infos := Infos(names);
    var r := PropertyInfoOf(fragments);
    PermutationDistinct(infos, r);
  }

  /** The listing names exactly the properties that occur in some fragment. */
  lemma PropertyInfoIff(fragments: seq<Trace>, n: string)
    ensures PropertyInfo(n) in PropertyInfoOf(fragments) <==>
      exists i, p :: 0 <= i < |fragments| && p in fragments[i].properties && p.name == n
  {
    var props := AllProperties(fragments);
    var names := DistinctNames(props);
    var infos := Infos(names);
    var r := PropertyInfoOf(fragments);
    assert PropertyInfo(n) in r <==> PropertyInfo(n) in multiset(infos);
    assert PropertyInfo(n) in infos <==> n in names;
    DistinctNamesIff(props, n);
    if n in names {
      var k :| 0 <= k < |props| && props[k].name == n;
      AllPropertiesIff(fragments, props[k]);
    }
    if exists i, p :: 0 <= i < |fragments| && p in fragments[i].properties && p.name == n {
      var i, p :| 0 <= i < |fragments| && p in fragments[i].properties && p.name == n;
      AllPropertiesIff(fragments, p);
      var k :| 0 <= k < |props| && props[k] == p;
    }
  }

  /** Fragments carrying `region`, `region` and `env` list `env` then `region`. */
  lemma PropertyInfoExample()
    ensures PropertyInfoOf([
      Trace(true, None, [], [Property("region", "")]),
      Trace(true, None, [], [Property("region", "")]),
      Trace(true, None, [], [Property("env", "")])]) == [PropertyInfo("env"), PropertyInfo("region")]
  {
    ExampleProperties();
    ExampleNames();
    ExampleSort();
    assert Infos(["region", "env"]) == [PropertyInfo("region"), PropertyInfo("env")];
  }

  lemma ExampleProperties()
    ensures AllProperties([
      Trace(true, None, [], [Property("region", "")]),
      Trace(true, None, [], [Property("region", "")]),
      Trace(true, None, [], [Property("env", "")])]) == [Property("region", ""), Property("region", ""), Property("env", "")]
  {
    var t1 := Trace(true, None, [], [Property("region", "")]);
    var t3 := Trace(true, None, [], [Property("env", "")]);
    assert [t1, t1, t3][..2] == [t1, t1] && [t1, t1][..1] == [t1] && [t1][..0] == [];
    assert AllProperties([t1]) == t1.properties;
    assert AllProperties([t1, t1]) == t1.properties + t1.properties;
  }

  lemma ExampleNames()
    ensures DistinctNames([Property("region", ""), Property("region", ""), Property("env", "")]) == ["region", "env"]
  {
    var r := Property("region", "");
    var e := Property("env", "");
    assert [r, r, e][..2] == [r, r] && [r, r][..1] == [r] && [r][..0] == [];
    assert DistinctNames([r]) == ["region"];
    assert DistinctNames([r, r]) == ["region"];
  }

  lemma ExampleSort()
    ensures SortBy([PropertyInfo("region"), PropertyInfo("env")], NameOf) == [PropertyInfo("env"), PropertyInfo("region")]
  {
    var s := [PropertyInfo("region"), PropertyInfo("env")];
    assert s[1..] == [PropertyInfo("env")];
    assert [PropertyInfo("env")][1..] == [];
    assert !LexLe("region", "env");
  }
}
