/**
 * The cross-linked, indexed data set of NEOs and close approaches
 * (neo/database.py), and the conjunctive filter query over it.
 */
module Database {
  import opened Wrappers
  import opened Models

  // ---------------------------------------------------------------------------
  // The indices, as functions of the keys in storage order

  function ApproachDesignations(approaches: seq<CloseApproach>): (ds: seq<string>)
    ensures |ds| == |approaches|
  {
    seq(|approaches|, j requires 0 <= j < |approaches| => approaches[j].designation)
  }

  function NeoDesignations(neos: seq<NearEarthObject>): (ds: seq<string>)
    ensures |ds| == |neos|
  {
    seq(|neos|, i requires 0 <= i < |neos| => neos[i].designation)
  }

  function Names(neos: seq<NearEarthObject>): (ns: seq<Option<string>>)
    ensures |ns| == |neos|
  {
    seq(|neos|, i requires 0 <= i < |neos| => neos[i].name)
  }

  /** `dict.get(key, None)`. */
  function Lookup<K, V>(m: map<K, V>, key: K): Option<V> {
    if key in m then Some(m[key]) else None
  }

  predicate Increasing(hs: seq<Handle>) {
    forall a, b :: 0 <= a < b < |hs| ==> hs[a] < hs[b]
  }

  /**
   * The multimap built by the first loop: each key maps to the positions
   * that carry it, appended one position at a time.
   */
  function Grouped(keys: seq<string>): map<string, seq<Handle>> {
    if keys == [] then map[]
    else
      var m := Grouped(keys[..|keys| - 1]);
      var d := keys[|keys| - 1];
      m[d := (if d in m then m[d] else []) + [|keys| - 1]]
  }

  /** The index built by assigning `m[key] = position` for each key in turn. */
  function Indexed(keys: seq<string>): map<string, Handle> {
    if keys == [] then map[]
    else Indexed(keys[..|keys| - 1])[keys[|keys| - 1] := |keys| - 1]
  }

  /** As `Indexed`, skipping positions whose name is absent or empty. */
  function NameIndexed(names: seq<Option<string>>): map<string, Handle> {
    if names == [] then map[]
    else
      var m := NameIndexed(names[..|names| - 1]);
      var n := names[|names| - 1];
      if Truthy(n) then m[n.value := |names| - 1] else m
  }

  /**
   * Each key that occurs is grouped, and its group lists exactly the
   * positions that carry it, in increasing (input) order.
   */
  lemma {:induction false} GroupedSpec(keys: seq<string>, d: string)
    ensures d in Grouped(keys) <==> d in keys
    ensures d in Grouped(keys) ==>
              Grouped(keys)[d] != [] && Increasing(Grouped(keys)[d])
              && forall j :: j in Grouped(keys)[d] <==> 0 <= j < |keys| && keys[j] == d
  {
    if keys != [] {
      var p := keys[..|keys| - 1];
      GroupedSpec(p, d);
      assert keys == p + [keys[|keys| - 1]];
      if d == keys[|keys| - 1] && d in Grouped(p) {
        var g := Grouped(p)[d];
        assert Grouped(keys)[d] == g + [|p|];
        forall a, b | 0 <= a < b < |g| + 1 ensures (g + [|p|])[a] < (g + [|p|])[b] {
          if b == |g| {
            assert g[a] in g;
          }
        }
      }
    }
  }

  /** Every key that occurs is indexed, and no other. */
  lemma IndexedKeys(keys: seq<string>)
    ensures forall d :: d in Indexed(keys) <==> d in keys
  {
    forall d ensures d in Indexed(keys) <==> d in keys {
      IndexedSpec(keys, d);
    }
  }

  /** A key is indexed exactly when it occurs, at its last position. */
  lemma {:induction false} IndexedSpec(keys: seq<string>, d: string)
    ensures d in Indexed(keys) <==> d in keys
    ensures d in Indexed(keys) ==>
              Indexed(keys)[d] < |keys| && keys[Indexed(keys)[d]] == d
              && forall j :: Indexed(keys)[d] < j < |keys| ==> keys[j] != d
  {
    if keys != [] {
      var p := keys[..|keys| - 1];
      IndexedSpec(p, d);
      assert keys == p + [keys[|keys| - 1]];
    }
  }

  /**
   * A name is indexed exactly when it is non-empty and some object carries
   * it, at the last such object.
   */
  lemma {:induction false} NameIndexedSpec(names: seq<Option<string>>, n: string)
    ensures n in NameIndexed(names) <==> n != "" && Some(n) in names
    ensures n in NameIndexed(names) ==>
              NameIndexed(names)[n] < |names| && names[NameIndexed(names)[n]] == Some(n)
              && forall j :: NameIndexed(names)[n] < j < |names| ==> names[j] != Some(n)
  {
    if names != [] {
      var p := names[..|names| - 1];
      NameIndexedSpec(p, n);
      assert names == p + [names[|names| - 1]];
    }
  }

  lemma GroupedStep(keys: seq<string>, j: nat)
    requires j < |keys|
    ensures Grouped(keys[..j + 1]) ==
              var m := Grouped(keys[..j]); m[keys[j] := (if keys[j] in m then m[keys[j]] else []) + [j]]
  {
    assert keys[..j + 1][..j] == keys[..j];
  }

  lemma IndexedStep(keys: seq<string>, i: nat)
    requires i < |keys|
    ensures Indexed(keys[..i + 1]) == Indexed(keys[..i])[keys[i] := i]
  {
    assert keys[..i + 1][..i] == keys[..i];
  }

  lemma NameIndexedStep(names: seq<Option<string>>, i: nat)
    requires i < |names|
    ensures NameIndexed(names[..i + 1]) ==
              if Truthy(names[i]) then NameIndexed(names[..i])[names[i].value := i] else NameIndexed(names[..i])
  {
    assert names[..i + 1][..i] == names[..i];
  }

  // ---------------------------------------------------------------------------
  // The links

  /** NEO and close approach agree except, possibly, in their link fields. */
  predicate SameNeos(now: seq<NearEarthObject>, given: seq<NearEarthObject>) {
    |now| == |given| && forall i :: 0 <= i < |now| ==> now[i].(approaches := given[i].approaches) == given[i]
  }

  predicate SameApproaches(now: seq<CloseApproach>, given: seq<CloseApproach>) {
    |now| == |given| && forall j :: 0 <= j < |now| ==> now[j].(neo := given[j].neo) == given[j]
  }

  lemma SameNeosKeys(now: seq<NearEarthObject>, given: seq<NearEarthObject>)
    requires SameNeos(now, given)
    ensures NeoDesignations(now) == NeoDesignations(given) && Names(now) == Names(given)
  {
    assert forall i :: 0 <= i < |now| ==> now[i].designation == given[i].designation && now[i].name == given[i].name;
  }

  lemma SameApproachesKeys(now: seq<CloseApproach>, given: seq<CloseApproach>)
    requires SameApproaches(now, given)
    ensures ApproachDesignations(now) == ApproachDesignations(given)
  {
    assert forall j :: 0 <= j < |now| ==> now[j].designation == given[j].designation;
  }

  /**
   * The state after linking: each NEO lists the group of its designation (or
   * None), and each close approach holds the indexed NEO of its designation.
   */
  ghost predicate Linked(neos: seq<NearEarthObject>, approaches: seq<CloseApproach>) {
    var groups := Grouped(ApproachDesignations(approaches));
    var index := Indexed(NeoDesignations(neos));
    (forall i :: 0 <= i < |neos| ==> neos[i].approaches == Lookup(groups, neos[i].designation))
    && (forall j :: 0 <= j < |approaches| ==>
          approaches[j].designation in index && index[approaches[j].designation] < |neos|
          && approaches[j].neo == Some(neos[index[approaches[j].designation]]))
  }

  /**
   * After linking, each NEO's `approaches` is None exactly when no close
   * approach carries its designation, and otherwise lists, in storage order,
   * exactly the close approaches that carry it.
   */
  lemma NeoApproaches(neos: seq<NearEarthObject>, approaches: seq<CloseApproach>, i: nat)
    requires Linked(neos, approaches) && i < |neos|
    ensures neos[i].approaches.None? <==>
              forall j :: 0 <= j < |approaches| ==> approaches[j].designation != neos[i].designation
    ensures neos[i].approaches.Some? ==>
              Increasing(neos[i].approaches.value)
              && forall j :: j in neos[i].approaches.value <==>
                   0 <= j < |approaches| && approaches[j].designation == neos[i].designation
  {
    var ds := ApproachDesignations(approaches);
    assert forall j :: 0 <= j < |approaches| ==> ds[j] == approaches[j].designation;
    GroupedSpec(ds, neos[i].designation);
    if neos[i].designation in ds {
      var j :| 0 <= j < |ds| && ds[j] == neos[i].designation;
      assert approaches[j].designation == neos[i].designation;
    }
  }

  /**
   * After linking, the two directions agree: each close approach's NEO
   * carries the approach's designation, lists the approach among its own,
   * and is the last NEO in storage order with that designation.
   */
  lemma LinksAgree(neos: seq<NearEarthObject>, approaches: seq<CloseApproach>, j: nat)
    requires Linked(neos, approaches) && j < |approaches|
    ensures approaches[j].neo.Some? && approaches[j].neo.value.designation == approaches[j].designation
    ensures approaches[j].neo.value.approaches.Some? && j in approaches[j].neo.value.approaches.value
    ensures exists i :: 0 <= i < |neos| && neos[i] == approaches[j].neo.value
               && forall k :: i < k < |neos| ==> neos[k].designation != approaches[j].designation
  {
    var d := approaches[j].designation;
    var ds := NeoDesignations(neos);
    IndexedSpec(ds, d);
    var i := Indexed(ds)[d];
    assert ds[i] == d;
    assert approaches[j].neo == Some(neos[i]);
    GroupedSpec(ApproachDesignations(approaches), d);
    assert ApproachDesignations(approaches)[j] == d;
    forall k | i < k < |neos| ensures neos[k].designation != d {
      assert ds[k] == neos[k].designation;
    }
  }

  // ---------------------------------------------------------------------------
  // The query

  /** A filter: a side-effect-free test of one close approach. */
  type Filter = CloseApproach -> bool

  /** `all(f(approach) for f in filters)`. */
  predicate Passes(filters: seq<Filter>, a: CloseApproach) {
    forall k :: 0 <= k < |filters| ==> filters[k](a)
  }

  /** Passing a concatenation of filter lists is passing both lists. */
  lemma PassesAppend(fs: seq<Filter>, gs: seq<Filter>, a: CloseApproach)
    ensures Passes(fs + gs, a) <==> Passes(fs, a) && Passes(gs, a)
  {
    if Passes(fs, a) && Passes(gs, a) {
      forall k | 0 <= k < |fs + gs| ensures (fs + gs)[k](a) {
        if k < |fs| {
          assert (fs + gs)[k] == fs[k];
        } else {
          assert (fs + gs)[k] == gs[k - |fs|];
        }
      }
    }
    if Passes(fs + gs, a) {
      forall k | 0 <= k < |fs| ensures fs[k](a) {
        assert (fs + gs)[k] == fs[k];
      }
      forall k | 0 <= k < |gs| ensures gs[k](a) {
        assert (fs + gs)[|fs| + k] == gs[k];
      }
    }
  }

  /** The stored close approaches that pass every filter, in storage order. */
  function Select(approaches: seq<CloseApproach>, filters: seq<Filter>): seq<CloseApproach> {
    if approaches == [] then []
    else
      var last := approaches[|approaches| - 1];
      Select(approaches[..|approaches| - 1], filters) + (if Passes(filters, last) then [last] else [])
  }

  /** A close approach is selected exactly when it is stored and passes every filter. */
  lemma {:induction false} SelectMembers(approaches: seq<CloseApproach>, filters: seq<Filter>, a: CloseApproach)
    ensures a in Select(approaches, filters) <==> a in approaches && Passes(filters, a)
  {
    if approaches != [] {
      var p := approaches[..|approaches| - 1];
      SelectMembers(p, filters, a);
      assert approaches == p + [approaches[|approaches| - 1]];
    }
  }

  /** The query keeps storage order: it distributes over concatenation. */
  lemma {:induction false} SelectAppend(xs: seq<CloseApproach>, ys: seq<CloseApproach>, filters: seq<Filter>)
    ensures Select(xs + ys, filters) == Select(xs, filters) + Select(ys, filters)
    decreases |ys|
  {
    if ys == [] {
      assert xs + ys == xs;
    } else {
      var p := ys[..|ys| - 1];
      assert (xs + ys)[..|xs + ys| - 1] == xs + p;
      SelectAppend(xs, p, filters);
    }
  }

  /** With no filters the query yields every stored close approach, in order. */
  lemma {:induction false} SelectNoFilters(approaches: seq<CloseApproach>)
    ensures Select(approaches, []) == approaches
  {
    if approaches != [] {
      var p := approaches[..|approaches| - 1];
      SelectNoFilters(p);
      assert approaches == p + [approaches[|approaches| - 1]];
    }
  }

  /** Filters that accept the same close approaches give the same query. */
  lemma {:induction false} SelectSameTest(approaches: seq<CloseApproach>, fs: seq<Filter>, gs: seq<Filter>)
    requires forall a :: Passes(fs, a) == Passes(gs, a)
    ensures Select(approaches, fs) == Select(approaches, gs)
  {
    if approaches != [] {
      SelectSameTest(approaches[..|approaches| - 1], fs, gs);
    }
  }

  /**
   * Querying with two lists of filters is querying with the first and then
   * filtering that result with the second.
   */
  lemma {:induction false} SelectConjunction(approaches: seq<CloseApproach>, fs: seq<Filter>, gs: seq<Filter>)
    ensures Select(approaches, fs + gs) == Select(Select(approaches, fs), gs)
  {
    if approaches != [] {
      var p := approaches[..|approaches| - 1];
      var last := approaches[|approaches| - 1];
      SelectConjunction(p, fs, gs);
      PassesAppend(fs, gs, last);
      SelectAppend(Select(p, fs), if Passes(fs, last) then [last] else [], gs);
    }
  }

  /**
   * The order of the filters does not matter: `query([f1, f2])` equals
   * `query([f2, f1])`, and both are the result of `query([f1])` further
   * filtered by `f2`; an approach is in it exactly when it is in both
   * single-filter results.
   */
  lemma FilterOrderIrrelevant(approaches: seq<CloseApproach>, f1: Filter, f2: Filter, a: CloseApproach)
    ensures Select(approaches, [f1, f2]) == Select(approaches, [f2, f1])
    ensures Select(approaches, [f1, f2]) == Select(Select(approaches, [f1]), [f2])
    ensures a in Select(approaches, [f1, f2]) <==>
              a in Select(approaches, [f1]) && a in Select(approaches, [f2])
  {
    assert [f1] + [f2] == [f1, f2];
    assert [f2] + [f1] == [f2, f1];
    forall b ensures Passes([f1, f2], b) == Passes([f2, f1], b) {
      PassesAppend([f1], [f2], b);
      PassesAppend([f2], [f1], b);
    }
    SelectSameTest(approaches, [f1, f2], [f2, f1]);
    SelectConjunction(approaches, [f1], [f2]);
    SelectMembers(approaches, [f1, f2], a);
    SelectMembers(approaches, [f1], a);
    SelectMembers(approaches, [f2], a);
    PassesAppend([f1], [f2], a);
  }

  // ---------------------------------------------------------------------------
  // The database

  class NEODatabase {
    var neos: seq<NearEarthObject>
    var approaches: seq<CloseApproach>
    var designationToApproaches: map<string, seq<Handle>>
    var designationToNeo: map<string, Handle>
    var nameToNeo: map<string, Handle>

    /** The three indices are those of the stored data, and the data is linked. */
    ghost predicate Valid()
      reads this
    {
      designationToApproaches == Grouped(ApproachDesignations(approaches))
      && designationToNeo == Indexed(NeoDesignations(neos))
      && nameToNeo == NameIndexed(Names(neos))
      && Linked(neos, approaches)
    }

    /** Takes the two collections, with empty indices. */
    constructor (neos: seq<NearEarthObject>, approaches: seq<CloseApproach>)
      ensures this.neos == neos && this.approaches == approaches
      ensures designationToApproaches == map[] && designationToNeo == map[] && nameToNeo == map[]
    {
      this.neos := neos;
      this.approaches := approaches;
      designationToApproaches := map[];
      designationToNeo := map[];
      nameToNeo := map[];
    }

    /**
     * `NEODatabase(neos, approaches)`: groups, indexes and links the two
     * collections. The link step looks each close approach's designation up
     * in the designation index and raises KeyError, for the first close
     * approach in storage order, when the designation is unknown.
     */
    static method Create(neos: seq<NearEarthObject>, approaches: seq<CloseApproach>)
      returns (r: Result<NEODatabase, Error>)
      ensures r.Failure? <==> exists j :: 0 <= j < |approaches| && approaches[j].designation !in NeoDesignations(neos)
      ensures r.Failure? ==>
                exists j :: 0 <= j < |approaches| && approaches[j].designation !in NeoDesignations(neos)
                  && (forall k :: 0 <= k < j ==> approaches[k].designation in NeoDesignations(neos))
                  && r.error == UnknownDesignation(approaches[j].designation)
      ensures r.Success? ==> fresh(r.value) && r.value.Valid()
      ensures r.Success? ==> SameNeos(r.value.neos, neos) && SameApproaches(r.value.approaches, approaches)
    {
      var db := new NEODatabase(neos, approaches);
      db.GroupApproaches();
      db.LinkNeos();
      SameNeosKeys(db.neos, neos);
      var missing := db.LinkApproaches();
      if missing.Some? {
        return Failure(UnknownDesignation(missing.value));
      }
      SameApproachesKeys(db.approaches, approaches);
      return Success(db);
    }

    /** The first loop: `designation_to_approaches`. */
    method GroupApproaches()
      requires designationToApproaches == map[]
      modifies this
      ensures designationToApproaches == Grouped(ApproachDesignations(approaches))
      ensures neos == old(neos) && approaches == old(approaches)
      ensures designationToNeo == old(designationToNeo) && nameToNeo == old(nameToNeo)
    {
      var ds := ApproachDesignations(approaches);
      for j := 0 to |approaches|
        invariant designationToApproaches == Grouped(ds[..j])
        invariant neos == old(neos) && approaches == old(approaches)
        invariant designationToNeo == old(designationToNeo) && nameToNeo == old(nameToNeo)
      {
        var d := approaches[j].designation;
        assert ds[j] == d;
        GroupedStep(ds, j);
        if d in designationToApproaches {
          designationToApproaches := designationToApproaches[d := designationToApproaches[d] + [j]];
        } else {
          assert [] + [j] == [j];
          designationToApproaches := designationToApproaches[d := [j]];
        }
      }
      assert ds[..|approaches|] == ds;
    }

    /**
     * The second loop: each NEO gets the group of its designation (None when
     * there is none), and the designation and name indices are filled.
     */
    method LinkNeos()
      requires designationToNeo == map[] && nameToNeo == map[]
      modifies this
      ensures SameNeos(neos, old(neos))
      ensures forall i :: 0 <= i < |neos| ==>
                neos[i].approaches == Lookup(designationToApproaches, neos[i].designation)
      ensures designationToNeo == Indexed(NeoDesignations(neos))
      ensures nameToNeo == NameIndexed(Names(neos))
      ensures approaches == old(approaches) && designationToApproaches == old(designationToApproaches)
    {
      ghost var ds := NeoDesignations(neos);
      ghost var ns := Names(neos);
      for i := 0 to |neos|
        invariant SameNeos(neos, old(neos))
        invariant forall k :: 0 <= k < i ==>
                    neos[k].approaches == Lookup(designationToApproaches, neos[k].designation)
        invariant forall k :: i <= k < |neos| ==> neos[k] == old(neos[k])
        invariant designationToNeo == Indexed(ds[..i])
        invariant nameToNeo == NameIndexed(ns[..i])
        invariant approaches == old(approaches) && designationToApproaches == old(designationToApproaches)
      {
        var neo := neos[i].(approaches := Lookup(designationToApproaches, neos[i].designation));
        assert neo.designation == ds[i] && neo.name == ns[i];
        IndexedStep(ds, i);
        NameIndexedStep(ns, i);
        neos := neos[i := neo];
        designationToNeo := designationToNeo[neo.designation := i];
        if Truthy(neo.name) {
          nameToNeo := nameToNeo[neo.name.value := i];
        }
      }
      SameNeosKeys(neos, old(neos));
      assert ds[..|neos|] == ds;
      assert ns[..|neos|] == ns;
    }

    /**
     * The third loop: each close approach gets the indexed NEO of its
     * designation. Returns the first designation that is not indexed, where
     * the source raises KeyError.
     */
    method LinkApproaches() returns (missing: Option<string>)
      requires designationToNeo == Indexed(NeoDesignations(neos))
      modifies this
      ensures SameApproaches(approaches, old(approaches))
      ensures missing.None? <==>
                forall j :: 0 <= j < |approaches| ==> old(approaches)[j].designation in NeoDesignations(neos)
      ensures missing.Some? ==>
                exists j :: 0 <= j < |approaches| && old(approaches)[j].designation == missing.value
                  && missing.value !in NeoDesignations(neos)
                  && forall k :: 0 <= k < j ==> old(approaches)[k].designation in NeoDesignations(neos)
      ensures missing.None? ==> forall j :: 0 <= j < |approaches| ==>
                approaches[j].designation in designationToNeo
                && designationToNeo[approaches[j].designation] < |neos|
                && approaches[j].neo == Some(neos[designationToNeo[approaches[j].designation]])
      ensures neos == old(neos) && designationToApproaches == old(designationToApproaches)
      ensures designationToNeo == old(designationToNeo) && nameToNeo == old(nameToNeo)
    {
      var j := 0;
      while j < |approaches|
        invariant 0 <= j <= |approaches|
        invariant SameApproaches(approaches, old(approaches))
        invariant forall k :: 0 <= k < j ==>
                    approaches[k].designation in designationToNeo
                    && designationToNeo[approaches[k].designation] < |neos|
                    && approaches[k].neo == Some(neos[designationToNeo[approaches[k].designation]])
        invariant neos == old(neos) && designationToApproaches == old(designationToApproaches)
        invariant designationToNeo == old(designationToNeo) && nameToNeo == old(nameToNeo)
      {
        var d := approaches[j].designation;
        IndexedKeys(NeoDesignations(neos));
        if d !in designationToNeo {
          return Some(d);
        }
        IndexedSpec(NeoDesignations(neos), d);
        approaches := approaches[j := approaches[j].(neo := Some(neos[designationToNeo[d]]))];
        j := j + 1;
      }
      IndexedKeys(NeoDesignations(neos));
      assert forall k :: 0 <= k < |approaches| ==> approaches[k].designation == old(approaches)[k].designation;
      return None;
    }

    /**
     * `get_neo_by_designation`: the NEO with exactly this designation (the
     * last one stored, should there be several), or None.
     */
    method GetNeoByDesignation(designation: string) returns (r: Option<NearEarthObject>)
      requires Valid()
      ensures r.Some? <==> exists i :: 0 <= i < |neos| && neos[i].designation == designation
      ensures r.Some? ==>
                exists i :: 0 <= i < |neos| && neos[i] == r.value && r.value.designation == designation
                  && forall k :: i < k < |neos| ==> neos[k].designation != designation
    {
      var ds := NeoDesignations(neos);
      IndexedSpec(ds, designation);
      match Lookup(designationToNeo, designation)
      case None =>
        r := None;
        assert forall i :: 0 <= i < |neos| ==> ds[i] == neos[i].designation;
      case Some(i) =>
        r := Some(neos[i]);
        assert forall k :: 0 <= k < |neos| ==> ds[k] == neos[k].designation;
    }

    /**
     * `get_neo_by_name`: the NEO with exactly this name (the last one stored,
     * should there be several), or None; None for an absent or empty name.
     */
    method GetNeoByName(name: Option<string>) returns (r: Option<NearEarthObject>)
      requires Valid()
      ensures r.Some? <==> Truthy(name) && exists i :: 0 <= i < |neos| && neos[i].name == name
      ensures r.Some? ==>
                exists i :: 0 <= i < |neos| && neos[i] == r.value && r.value.name == name
                  && forall k :: i < k < |neos| ==> neos[k].name != name
    {
      var ns := Names(neos);
      assert forall k :: 0 <= k < |neos| ==> ns[k] == neos[k].name;
      if name.None? {
        r := None;
      } else {
        NameIndexedSpec(ns, name.value);
        match Lookup(nameToNeo, name.value)
        case None =>
          r := None;
        case Some(i) =>
          r := Some(neos[i]);
      }
    }

    /** `query(filters)`: the stored close approaches that pass every filter, in storage order. */
    method Query(filters: seq<Filter>) returns (r: seq<CloseApproach>)
      ensures r == Select(approaches, filters)
    {
      r := [];
      for j := 0 to |approaches|
        invariant r == Select(approaches[..j], filters)
      {
        assert approaches[..j + 1][..j] == approaches[..j];
        if Passes(filters, approaches[j]) {
          r := r + [approaches[j]];
        }
      }
      assert approaches[..|approaches|] == approaches;
    }
  }
}
