/**
 * The module dependency tree of one kernel (`ktree::KModuleTree` of
 * src/mtree/moddeps.rs): dependency maps for the named modules, or for the
 * loaded ones when none are named, and the flat sorted list of every
 * module and dependency in such a map.
 */
module ModDeps {
  import opened Kerman
  import Order

  /**
   * A module tree: the kernel's resolver of dependency maps for a list of
   * module names (`KernelInfo::get_deps_for`), and the names of the loaded
   * modules (what `lsmod` reports).
   */
  datatype KModuleTree = KModuleTree(depsFor: seq<string> -> DepMap, loaded: seq<string>)
  {
    /** `get_specified`: the dependencies of `modules`, or of the loaded modules when `modules` is empty. */
    function GetSpecified(modules: seq<string>): (r: DepMap)
      ensures |modules| == 0 ==> r == depsFor(loaded)
      ensures |modules| > 0 ==> r == depsFor(modules)
    {
      if |modules| == 0 then depsFor(loaded) else depsFor(modules)
    }

    /** `get_loaded`: the dependencies of the loaded modules, which is what naming no module asks for. */
    function GetLoaded(): (r: DepMap)
      ensures r == GetSpecified([])
    {
      GetSpecified(loaded)
    }

    /**
     * `merge_specified`: every dependency list of the map `get_specified`
     * gives, each followed by its module, appended in the map's iteration
     * order (any order), then sorted. Nothing is deduplicated.
     */
    method MergeSpecified(modules: seq<string>) returns (deps: seq<string>)
      ensures Order.Sorted(deps)
      ensures multiset(deps) == Flat(GetSpecified(modules))
      ensures var spec := GetSpecified(modules); |deps| == |spec| + DepCount(spec, spec.Keys)
    {
      var spec := GetSpecified(modules);
      deps := [];
      var rest := spec.Keys;
      while rest != {}
        invariant rest <= spec.Keys
        invariant multiset(deps) + FlatKeys(spec, rest) == Flat(spec)
        decreases rest
      {
        var name :| name in rest;
        FlatKeysRemove(spec, rest, name);
        deps := deps + spec[name];
        deps := deps + [name];
        rest := rest - {name};
      }
      deps := Order.Sort(deps);
      FlatSize(spec, spec.Keys);
      assert |deps| == |multiset(deps)|;
    }

    /** `merge_loaded`: `merge_specified` on the loaded modules. */
    method MergeLoaded() returns (deps: seq<string>)
      ensures Order.Sorted(deps)
      ensures multiset(deps) == Flat(GetLoaded())
      ensures var spec := GetLoaded(); |deps| == |spec| + DepCount(spec, spec.Keys)
    {
      deps := MergeSpecified(loaded);
    }
  }

  /** The modules of `keys` and all their dependencies, counted with multiplicity. */
  ghost function FlatKeys(m: DepMap, keys: set<string>): multiset<string>
    requires keys <= m.Keys
    decreases keys
  {
    if keys == {} then multiset{}
    else
      var k :| k in keys;
      multiset(m[k]) + multiset{k} + FlatKeys(m, keys - {k})
  }

  /** Every module of `m` once and every dependency as often as the lists name it. */
  ghost function Flat(m: DepMap): multiset<string> {
    FlatKeys(m, m.Keys)
  }

  /** The number of dependencies the lists of `keys` hold together. */
  ghost function DepCount(m: DepMap, keys: set<string>): nat
    requires keys <= m.Keys
    decreases keys
  {
    if keys == {} then 0
    else
      var k :| k in keys;
      |m[k]| + DepCount(m, keys - {k})
  }

  /** Any module of `keys` can be taken out first: the flattening does not depend on the iteration order. */
  lemma {:induction false} FlatKeysRemove(m: DepMap, keys: set<string>, k: string)
    requires keys <= m.Keys && k in keys
    ensures FlatKeys(m, keys) == multiset(m[k]) + multiset{k} + FlatKeys(m, keys - {k})
    decreases keys
  {
    var j :| j in keys && FlatKeys(m, keys) == multiset(m[j]) + multiset{j} + FlatKeys(m, keys - {j});
    if j != k {
      FlatKeysRemove(m, keys - {j}, k);
      FlatKeysRemove(m, keys - {k}, j);
      assert keys - {j} - {k} == keys - {k} - {j};
    }
  }

  /** The same for the count of dependencies. */
  lemma {:induction false} DepCountRemove(m: DepMap, keys: set<string>, k: string)
    requires keys <= m.Keys && k in keys
    ensures DepCount(m, keys) == |m[k]| + DepCount(m, keys - {k})
    decreases keys
  {
    var j :| j in keys && DepCount(m, keys) == |m[j]| + DepCount(m, keys - {j});
    if j != k {
      DepCountRemove(m, keys - {j}, k);
      DepCountRemove(m, keys - {k}, j);
      assert keys - {j} - {k} == keys - {k} - {j};
    }
  }

  /**
   * No deduplication: the merged list is as long as the number of modules
   * plus the total length of their dependency lists.
   */
  lemma {:induction false} FlatSize(m: DepMap, keys: set<string>)
    requires keys <= m.Keys
    ensures |FlatKeys(m, keys)| == |keys| + DepCount(m, keys)
    decreases keys
  {
    if keys != {} {
      var k :| k in keys;
      FlatKeysRemove(m, keys, k);
      DepCountRemove(m, keys, k);
      FlatSize(m, keys - {k});
    }
  }

  /** Every module of the map and every dependency of every module is in the merged list. */
  lemma FlatContains(m: DepMap, k: string)
    requires k in m
    ensures k in Flat(m)
    ensures forall d :: d in m[k] ==> d in Flat(m)
  {
    FlatKeysRemove(m, m.Keys, k);
  }

  /** Nothing but the modules and their dependencies is in the merged list. */
  lemma {:induction false} FlatOnly(m: DepMap, keys: set<string>, x: string)
    requires keys <= m.Keys && x in FlatKeys(m, keys)
    ensures x in keys || exists k :: k in keys && x in m[k]
    decreases keys
  {
    var k :| k in keys;
    FlatKeysRemove(m, keys, k);
    if x != k && x !in m[k] {
      FlatOnly(m, keys - {k}, x);
    }
  }

  /** Two modules that share a dependency make it appear twice. */
  lemma SharedDependencyTwice()
    ensures Flat(map["a" := ["c"], "b" := ["c"]])["c"] == 2
  {
    var m := map["a" := ["c"], "b" := ["c"]];
    FlatKeysRemove(m, m.Keys, "a");
    assert m.Keys - {"a"} == {"b"};
    FlatKeysRemove(m, {"b"}, "b");
    assert {"b"} - {"b"} == {};
  }

  /**
   * Whatever order the map is iterated in, the sorted result is the same:
   * there is one sorted list with a given multiset of names.
   */
  lemma MergeDeterministic(m: DepMap, a: seq<string>, b: seq<string>)
    requires Order.Sorted(a) && multiset(a) == Flat(m)
    requires Order.Sorted(b) && multiset(b) == Flat(m)
    ensures a == b
  {
    Order.SortedUnique(a, b);
  }
}
