/** client/src/vrf_table.cpp: the cached VRF routes and their index by next hop. */
module VrfTable {

  datatype VrfRoute = VrfRoute(vrfName: string, interfaceName: string, nexthop: string, prefixes: seq<string>)

  /** The routes with a given next hop, in stored order: what a look-up without an index would return. */
  function WithNexthop(rs: seq<VrfRoute>, gateway: string): seq<VrfRoute> {
    if rs == [] then []
    else WithNexthop(rs[..|rs| - 1], gateway)
         + if rs[|rs| - 1].nexthop == gateway then [rs[|rs| - 1]] else []
  }

  /** Exactly the routes with that next hop, each as often as it is stored. */
  lemma {:induction false} WithNexthopFilters(rs: seq<VrfRoute>, gateway: string)
    ensures forall r :: r in WithNexthop(rs, gateway) ==> r.nexthop == gateway
    ensures forall r: VrfRoute :: r.nexthop == gateway ==> multiset(WithNexthop(rs, gateway))[r] == multiset(rs)[r]
  {
    if rs != [] {
      var n := |rs| - 1;
      assert rs == rs[..n] + [rs[n]];
      WithNexthopFilters(rs[..n], gateway);
    }
  }

  predicate Below(idxs: seq<nat>, n: nat) {
    forall k :: 0 <= k < |idxs| ==> idxs[k] < n
  }

  function Selected(rs: seq<VrfRoute>, idxs: seq<nat>): (r: seq<VrfRoute>)
    requires Below(idxs, |rs|)
    ensures |r| == |idxs| && forall k :: 0 <= k < |idxs| ==> r[k] == rs[idxs[k]]
  {
    seq(|idxs|, k requires 0 <= k < |idxs| => rs[idxs[k]])
  }

  type Index = map<string, seq<nat>>

  /** The index lists, for every next hop that occurs and no other, the positions of its routes in order. */
  ghost predicate Indexes(index: Index, rs: seq<VrfRoute>) {
    && (forall g :: g in index ==> Below(index[g], |rs|))
    && "" !in index
    && (forall g :: g in index ==> index[g] != [] && Selected(rs, index[g]) == WithNexthop(rs, g))
    && (forall g :: g != "" && WithNexthop(rs, g) != [] ==> g in index)
  }

  function Positions(index: Index, gateway: string): seq<nat> {
    if gateway in index then index[gateway] else []
  }

  lemma SelectedMore(rs: seq<VrfRoute>, r: VrfRoute, idxs: seq<nat>)
    requires Below(idxs, |rs|)
    ensures Below(idxs + [|rs|], |rs| + 1)
    ensures Selected(rs + [r], idxs) == Selected(rs, idxs)
    ensures Selected(rs + [r], idxs + [|rs|]) == Selected(rs, idxs) + [r]
  {
    var u, v := Selected(rs + [r], idxs), Selected(rs, idxs);
    assert forall k :: 0 <= k < |idxs| ==> u[k] == v[k];
    var w := Selected(rs + [r], idxs + [|rs|]);
    assert forall k :: 0 <= k < |idxs| ==> w[k] == v[k];
    assert w == v + [w[|idxs|]];
  }

  lemma WithNexthopSnoc(rs: seq<VrfRoute>, r: VrfRoute, gateway: string)
    ensures WithNexthop(rs + [r], gateway) == WithNexthop(rs, gateway) + if r.nexthop == gateway then [r] else []
  {
    assert (rs + [r])[..|rs|] == rs;
  }

  function Extended(index: Index, r: VrfRoute, at: nat): Index {
    if r.nexthop == "" then index else index[r.nexthop := Positions(index, r.nexthop) + [at]]
  }

  lemma ExtendIndexes(index: Index, rs: seq<VrfRoute>, r: VrfRoute)
    requires Indexes(index, rs)
    ensures Indexes(Extended(index, r, |rs|), rs + [r])
  {
    var index' := Extended(index, r, |rs|);
    forall g | g in index'
      ensures Below(index'[g], |rs| + 1)
      ensures index'[g] != [] && Selected(rs + [r], index'[g]) == WithNexthop(rs + [r], g)
    {
      WithNexthopSnoc(rs, r, g);
      SelectedMore(rs, r, Positions(index, g));
    }
    forall g | g != "" && WithNexthop(rs + [r], g) != []
      ensures g in index'
    {
      WithNexthopSnoc(rs, r, g);
    }
  }

  class Table {
    var routes: seq<VrfRoute>
    var byNexthop: Index

    ghost predicate Valid()
      reads this
    {
      Indexes(byNexthop, routes)
    }

    constructor ()
      ensures Valid() && routes == []
    {
      routes, byNexthop := [], map[];
    }

    method Load(rs: seq<VrfRoute>)
      modifies this
      ensures Valid() && routes == rs
    {
      routes := [];
      byNexthop := map[];
      for k := 0 to |rs|
        invariant Valid() && routes == rs[..k]
      {
        var r := rs[k];
        var idx := |routes|;
        ghost var extended := Extended(byNexthop, r, idx);
        ExtendIndexes(byNexthop, routes, r);
        routes := routes + [r];
        if r.nexthop != "" {
          byNexthop := byNexthop[r.nexthop := Positions(byNexthop, r.nexthop) + [idx]];
        }
        assert byNexthop == extended;
        assert rs[..k + 1] == rs[..k] + [r];
      }
      assert rs[..|rs|] == rs;
    }

    method Clear()
      modifies this
      ensures Valid() && routes == []
    {
      routes, byNexthop := [], map[];
    }

    method HasNexthop(gateway: string) returns (b: bool)
      requires Valid()
      ensures b <==> gateway != "" && WithNexthop(routes, gateway) != []
      ensures b <==> gateway != "" && exists r :: r in routes && r.nexthop == gateway
    {
      WithNexthopFilters(routes, gateway);
      assert forall r :: r in routes <==> multiset(routes)[r] > 0;
      assert forall r :: r in WithNexthop(routes, gateway) <==> multiset(WithNexthop(routes, gateway))[r] > 0;
      if WithNexthop(routes, gateway) != [] {
        assert WithNexthop(routes, gateway)[0] in WithNexthop(routes, gateway);
      }
      b := gateway in byNexthop;
    }

    /** The indexed look-up returns what a scan of all routes would; routes without next hop are never returned. */
    method FindByNexthop(gateway: string) returns (result: seq<VrfRoute>)
      requires Valid()
      ensures result == if gateway == "" then [] else WithNexthop(routes, gateway)
      ensures gateway == "" ==> result == []
      ensures forall r :: r in result ==> r.nexthop == gateway
      ensures forall r: VrfRoute :: r.nexthop == gateway != "" ==> multiset(result)[r] == multiset(routes)[r]
    {
      WithNexthopFilters(routes, gateway);
      if gateway !in byNexthop {
        return [];
      }
      result := [];
      var idxs := byNexthop[gateway];
      for k := 0 to |idxs|
        invariant result == Selected(routes, idxs)[..k]
      {
        result := result + [routes[idxs[k]]];
      }
    }
  }
}
