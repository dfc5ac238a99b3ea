/** Events over the variables of a net: `itertools.product` of the variables'
    domains, `all_events`, which extends evidence by every combination of
    values, and `consistent_with`. */
module Events {
  import opened Common
  import opened Distributions
  import opened Network

  // ---------------------------------------------------------------------------
  // consistent_with

  /** `consistent_with(event, evidence)`: `evidence.get(k, v) == v` for every
      entry `k: v` of the event. */
  predicate ConsistentWith(event: Event, evidence: Event) {
    forall k :: k in event ==> (if k in evidence then evidence[k] else event[k]) == event[k]
  }

  /** `big` gives every variable of `small` the value `small` gives it. */
  predicate Extends(big: Event, small: Event) {
    forall k :: k in small ==> k in big && big[k] == small[k]
  }

  /** An event is consistent with evidence exactly when one assignment
      extends both. */
  lemma ConsistentIffJointlyExtended(event: Event, evidence: Event)
    ensures ConsistentWith(event, evidence) <==> exists m: Event :: Extends(m, event) && Extends(m, evidence)
  {
    if ConsistentWith(event, evidence) {
      var m := event + evidence;
      assert Extends(m, event) && Extends(m, evidence);
    }
    if exists m: Event :: Extends(m, event) && Extends(m, evidence) {
      var m: Event :| Extends(m, event) && Extends(m, evidence);
      forall k | k in event && k in evidence ensures evidence[k] == event[k] {
        assert m[k] == event[k] && m[k] == evidence[k];
      }
    }
  }

  // ---------------------------------------------------------------------------
  // itertools.product

  /** `[y] + t` for every tuple `t` of `ts`. */
  function PrependAll(y: Val, ts: seq<seq<Val>>): (r: seq<seq<Val>>)
    ensures |r| == |ts| && forall i :: 0 <= i < |ts| ==> r[i] == [y] + ts[i]
  {
    seq(|ts|, i requires 0 <= i < |ts| => [y] + ts[i])
  }

  /** Each value of `ys` in turn, followed by each tuple of `tails`. */
  function ProductWith(ys: seq<Val>, tails: seq<seq<Val>>): seq<seq<Val>> {
    if ys == [] then [] else PrependAll(ys[0], tails) + ProductWith(ys[1..], tails)
  }

  /** `itertools.product(*ds)`: the tuples taking their i-th value from
      `ds[i]`, the last position varying fastest. */
  function Product(ds: seq<seq<Val>>): seq<seq<Val>> {
    if ds == [] then [[]] else ProductWith(ds[0], Product(ds[1..]))
  }

  lemma {:induction false} ProductWithMembers(ys: seq<Val>, tails: seq<seq<Val>>)
    ensures forall t :: t in ProductWith(ys, tails) <==> |t| > 0 && t[0] in ys && t[1..] in tails
  {
    if ys != [] {
      ProductWithMembers(ys[1..], tails);
      forall t | |t| > 0 && t[0] == ys[0] && t[1..] in tails ensures t in PrependAll(ys[0], tails) {
        var i :| 0 <= i < |tails| && tails[i] == t[1..];
        assert PrependAll(ys[0], tails)[i] == t;
      }
    }
  }

  /** A tuple is produced exactly when it has one value per domain, taken
      from that domain. */
  lemma {:induction false} ProductMembers(ds: seq<seq<Val>>)
    ensures forall t :: t in Product(ds) <==> |t| == |ds| && forall i :: 0 <= i < |ds| ==> t[i] in ds[i]
  {
    if ds != [] {
      ProductMembers(ds[1..]);
      ProductWithMembers(ds[0], Product(ds[1..]));
      forall t ensures t in Product(ds) <==> |t| == |ds| && forall i :: 0 <= i < |ds| ==> t[i] in ds[i] {
        if |t| == |ds| && forall i :: 0 <= i < |ds| ==> t[i] in ds[i] {
          assert forall i :: 0 <= i < |ds| - 1 ==> t[1..][i] == t[i + 1];
        }
        if t in Product(ds) {
          forall i | 0 <= i < |ds| ensures t[i] in ds[i] {
            if i > 0 { assert t[i] == t[1..][i - 1]; }
          }
        }
      }
    }
  }

  /** The product of the domain sizes. */
  function Size(ds: seq<seq<Val>>): nat {
    if ds == [] then 1 else |ds[0]| * Size(ds[1..])
  }

  lemma {:induction false} ProductWithSize(ys: seq<Val>, tails: seq<seq<Val>>)
    ensures |ProductWith(ys, tails)| == |ys| * |tails|
  {
    if ys != [] {
      ProductWithSize(ys[1..], tails);
    }
  }

  /** One tuple per combination of values. */
  lemma {:induction false} ProductSize(ds: seq<seq<Val>>)
    ensures |Product(ds)| == Size(ds)
  {
    if ds != [] {
      ProductSize(ds[1..]);
      ProductWithSize(ds[0], Product(ds[1..]));
    }
  }

  lemma {:induction false} ProductWithNoDup(ys: seq<Val>, tails: seq<seq<Val>>)
    requires NoDup(ys) && NoDup(tails)
    ensures NoDup(ProductWith(ys, tails))
  {
    if ys != [] {
      ProductWithNoDup(ys[1..], tails);
      ProductWithMembers(ys[1..], tails);
      var head, rest := PrependAll(ys[0], tails), ProductWith(ys[1..], tails);
      forall i, j | 0 <= i < j < |head + rest| ensures (head + rest)[i] != (head + rest)[j] {
        if j < |head| {
          assert head[i][1..] == tails[i] && head[j][1..] == tails[j];
        } else if i < |head| {
          assert (head + rest)[j] in rest;
          assert ys[0] !in ys[1..];
        } else {
          assert (head + rest)[i] == rest[i - |head|] && (head + rest)[j] == rest[j - |head|];
        }
      }
    }
  }

  /** Domains without repeated values give every tuple once. */
  lemma {:induction false} ProductNoDup(ds: seq<seq<Val>>)
    requires forall i :: 0 <= i < |ds| ==> NoDup(ds[i])
    ensures NoDup(Product(ds))
  {
    if ds != [] {
      ProductNoDup(ds[1..]);
      ProductWithNoDup(ds[0], Product(ds[1..]));
    }
  }

  /** `t + u` for every tuple `u` of `us`. */
  function AppendAll(t: seq<Val>, us: seq<seq<Val>>): (r: seq<seq<Val>>)
    ensures |r| == |us| && forall j :: 0 <= j < |us| ==> r[j] == t + us[j]
  {
    seq(|us|, j requires 0 <= j < |us| => t + us[j])
  }

  /** Each tuple of `ts` in turn, followed by each tuple of `us`. */
  function Pairs(ts: seq<seq<Val>>, us: seq<seq<Val>>): seq<seq<Val>> {
    if ts == [] then [] else AppendAll(ts[0], us) + Pairs(ts[1..], us)
  }

  lemma {:induction false} PairsConcat(ts1: seq<seq<Val>>, ts2: seq<seq<Val>>, us: seq<seq<Val>>)
    ensures Pairs(ts1 + ts2, us) == Pairs(ts1, us) + Pairs(ts2, us)
  {
    if ts1 == [] {
      assert ts1 + ts2 == ts2;
    } else {
      assert (ts1 + ts2)[0] == ts1[0] && (ts1 + ts2)[1..] == ts1[1..] + ts2;
      PairsConcat(ts1[1..], ts2, us);
    }
  }

  lemma {:induction false} PrependPairs(y: Val, ts: seq<seq<Val>>, us: seq<seq<Val>>)
    ensures PrependAll(y, Pairs(ts, us)) == Pairs(PrependAll(y, ts), us)
  {
    if ts != [] {
      PrependPairs(y, ts[1..], us);
      var head := AppendAll(ts[0], us);
      assert PrependAll(y, head + Pairs(ts[1..], us)) == PrependAll(y, head) + PrependAll(y, Pairs(ts[1..], us));
      forall j | 0 <= j < |us| ensures [y] + (ts[0] + us[j]) == ([y] + ts[0]) + us[j] {
      }
      assert PrependAll(y, head) == AppendAll([y] + ts[0], us);
      assert PrependAll(y, ts)[1..] == PrependAll(y, ts[1..]);
    }
  }

  lemma {:induction false} ProductWithPairs(ys: seq<Val>, ts: seq<seq<Val>>, us: seq<seq<Val>>)
    ensures ProductWith(ys, Pairs(ts, us)) == Pairs(ProductWith(ys, ts), us)
  {
    if ys != [] {
      ProductWithPairs(ys[1..], ts, us);
      PrependPairs(ys[0], ts, us);
      PairsConcat(PrependAll(ys[0], ts), ProductWith(ys[1..], ts), us);
    }
  }

  /** A tuple taking each value from the matching domain is in the product. */
  lemma InProduct(ds: seq<seq<Val>>, t: seq<Val>)
    requires |t| == |ds| && forall i :: 0 <= i < |ds| ==> t[i] in ds[i]
    ensures t in Product(ds)
  {
    ProductMembers(ds);
  }

  /** A tuple of the product takes each value from the matching domain. */
  lemma FromProduct(ds: seq<seq<Val>>, t: seq<Val>)
    requires t in Product(ds)
    ensures |t| == |ds| && forall i :: 0 <= i < |ds| ==> t[i] in ds[i]
  {
    ProductMembers(ds);
  }

  /** A tuple of the product of two lists of domains splits into a tuple of
      each product. */
  lemma ProductSplit(ds1: seq<seq<Val>>, ds2: seq<seq<Val>>, t: seq<Val>)
    requires t in Product(ds1 + ds2)
    ensures |t| == |ds1| + |ds2|
    ensures t[..|ds1|] in Product(ds1) && t[|ds1|..] in Product(ds2)
  {
    var n := |ds1|;
    FromProduct(ds1 + ds2, t);
    forall i | 0 <= i < n ensures t[..n][i] in ds1[i] {
      assert t[i] in (ds1 + ds2)[i];
    }
    InProduct(ds1, t[..n]);
    forall i | 0 <= i < |ds2| ensures t[n..][i] in ds2[i] {
      assert t[n + i] in (ds1 + ds2)[n + i];
    }
    InProduct(ds2, t[n..]);
  }

  /** The product of two lists of domains, one after the other, is each
      tuple of the first product followed by each tuple of the second. */
  lemma {:induction false} ProductConcat(ds1: seq<seq<Val>>, ds2: seq<seq<Val>>)
    ensures Product(ds1 + ds2) == Pairs(Product(ds1), Product(ds2))
  {
    if ds1 == [] {
      assert ds1 + ds2 == ds2;
      var p2 := Product(ds2);
      forall j | 0 <= j < |p2| ensures AppendAll([], p2)[j] == p2[j] {
        assert [] + p2[j] == p2[j];
      }
      assert AppendAll([], p2) == p2;
      assert Pairs([[]], p2) == AppendAll([], p2) + Pairs([], p2);
    } else {
      assert (ds1 + ds2)[0] == ds1[0] && (ds1 + ds2)[1..] == ds1[1..] + ds2;
      ProductConcat(ds1[1..], ds2);
      ProductWithPairs(ds1[0], Product(ds1[1..]), Product(ds2));
    }
  }

  // ---------------------------------------------------------------------------
  // all_events

  /** The domains of two lists of variables, one after the other. */
  lemma DomainsConcat(a: seq<Var>, b: seq<Var>, ns: seq<BayesNode>)
    requires forall x :: x in a + b ==> x in VarsOf(ns)
    ensures Domains(a + b, ns).value == Domains(a, ns).value + Domains(b, ns).value
  {
    var ds, dsa, dsb := Domains(a + b, ns).value, Domains(a, ns).value, Domains(b, ns).value;
    forall i | 0 <= i < |a + b| ensures ds[i] == (dsa + dsb)[i] {
      if i >= |a| {
        assert (a + b)[i] == b[i - |a|];
      }
    }
  }

  /** `dict(zip(variables, values))`: a later variable overrides an earlier
      one of the same name. */
  function ZipEvent(vars: seq<Var>, t: seq<Val>): Event
    requires |t| == |vars|
  {
    ToMap(seq(|vars|, i requires 0 <= i < |vars| => (vars[i], t[i])))
  }

  /** `[bn.variable_values(var) for var in variables]`. */
  function Domains(vars: seq<Var>, ns: seq<BayesNode>): (r: Result<seq<seq<Val>>>)
    ensures r.Ok? <==> forall x :: x in vars ==> x in VarsOf(ns)
    ensures r.Ok? ==> |r.value| == |vars|
    ensures r.Ok? ==> forall i :: 0 <= i < |vars| ==> r.value[i] == DomainOf(ns, vars[i]).value
    ensures r.Err? ==> r.error == NoSuchVariable
  {
    if vars == [] then Ok([])
    else
      var d :- DomainOf(ns, vars[0]);
      var ds :- Domains(vars[1..], ns);
      Ok([d] + ds)
  }

  /** `all_events(variables, bn, e)`: for every tuple of the product of the
      variables' domains, the dict zipping the variables with it, updated by `e`. */
  function AllEvents(vars: seq<Var>, ns: seq<BayesNode>, e: Event): (r: Result<seq<Event>>)
    ensures r.Ok? <==> forall x :: x in vars ==> x in VarsOf(ns)
    ensures r.Err? ==> r.error == NoSuchVariable
  {
    var ds :- Domains(vars, ns);
    ProductMembers(ds);
    Ok(ZipAll(vars, Product(ds), e))
  }

  /** Each tuple zipped with the variables and updated by `e`. */
  function ZipAll(vars: seq<Var>, ts: seq<seq<Val>>, e: Event): (evs: seq<Event>)
    requires forall t :: t in ts ==> |t| == |vars|
    ensures |evs| == |ts| && forall i :: 0 <= i < |ts| ==> evs[i] == ZipEvent(vars, ts[i]) + e
  {
    seq(|ts|, i requires 0 <= i < |ts| => ZipEvent(vars, ts[i]) + e)
  }

  /** What `all_events` yields for variables with the domains `ds`: the
      evidence together with a value from its domain for every other listed
      variable. */
  ghost predicate Extension(ev: Event, vars: seq<Var>, ds: seq<seq<Val>>, e: Event)
    requires |ds| == |vars|
  {
    && (forall x :: x in ev <==> x in vars || x in e)
    && Extends(ev, e)
    && forall i :: 0 <= i < |vars| && vars[i] !in e ==> ev[vars[i]] in ds[i]
  }

  /** Every event `all_events` yields extends the evidence with a value from
      its domain for every other listed variable. */
  lemma AllEventsSound(vars: seq<Var>, ns: seq<BayesNode>, e: Event)
    requires forall x :: x in vars ==> x in VarsOf(ns)
    ensures forall ev :: ev in AllEvents(vars, ns, e).value ==> Extension(ev, vars, Domains(vars, ns).value, e)
  {
    var ds := Domains(vars, ns).value;
    var ts := Product(ds);
    ProductMembers(ds);
    var evs := AllEvents(vars, ns, e).value;
    assert |evs| == |ts| && forall i :: 0 <= i < |ts| ==> evs[i] == ZipEvent(vars, ts[i]) + e;
    forall ev | ev in evs ensures Extension(ev, vars, ds, e) {
      var i :| 0 <= i < |evs| && evs[i] == ev;
      ZipIntoDomains(vars, ds, ts[i], e);
    }
  }

  /** When no listed variable has an empty domain, `all_events` yields every
      such extension. */
  lemma AllEventsComplete(vars: seq<Var>, ns: seq<BayesNode>, e: Event)
    requires forall x :: x in vars ==> x in VarsOf(ns)
    requires forall x :: x in vars ==> DomainOf(ns, x).value != []
    ensures forall ev :: Extension(ev, vars, Domains(vars, ns).value, e) ==> ev in AllEvents(vars, ns, e).value
  {
    var ds := Domains(vars, ns).value;
    assert forall i :: 0 <= i < |vars| ==> ds[i] != [];
    ProductMembers(ds);
    ZipAllComplete(vars, ds, e);
  }

  lemma ZipAllComplete(vars: seq<Var>, ds: seq<seq<Val>>, e: Event)
    requires |ds| == |vars| && forall i :: 0 <= i < |vars| ==> ds[i] != []
    requires forall t :: t in Product(ds) ==> |t| == |vars|
    ensures forall ev :: Extension(ev, vars, ds, e) ==> ev in ZipAll(vars, Product(ds), e)
  {
    var ts := Product(ds);
    var evs := ZipAll(vars, ts, e);
    forall ev | Extension(ev, vars, ds, e) ensures ev in evs {
      var t := TupleOf(vars, ds, ev, e);
      ProductMembers(ds);
      assert t in ts;
      var i :| 0 <= i < |ts| && ts[i] == t;
      ZipOfExtension(vars, ds, t, ev, e);
      assert evs[i] == ev;
    }
  }

  /** The tuple of the values an extension gives the variables (any value of
      the domain for a variable the evidence fixes). */
  lemma TupleOf(vars: seq<Var>, ds: seq<seq<Val>>, ev: Event, e: Event) returns (t: seq<Val>)
    requires |ds| == |vars| && forall i :: 0 <= i < |vars| ==> ds[i] != []
    requires Extension(ev, vars, ds, e)
    ensures |t| == |vars| && forall i :: 0 <= i < |ds| ==> t[i] in ds[i]
    ensures forall i :: 0 <= i < |vars| && vars[i] !in e ==> t[i] == ev[vars[i]]
  {
    t := seq(|vars|, i requires 0 <= i < |vars| => if vars[i] in e then ds[i][0] else ev[vars[i]]);
  }

  /** The zipped dict has exactly the listed variables as keys. */
  lemma ZipKeys(vars: seq<Var>, t: seq<Val>)
    requires |t| == |vars|
    ensures forall x :: x in ZipEvent(vars, t) <==> x in vars
  {
    var pairs := seq(|vars|, i requires 0 <= i < |vars| => (vars[i], t[i]));
    forall x | x in vars ensures x in ZipEvent(vars, t) {
      var i :| 0 <= i < |vars| && vars[i] == x;
      assert pairs[i].0 == x;
    }
    forall x | x in ZipEvent(vars, t) ensures x in vars {
      var i :| 0 <= i < |pairs| && pairs[i].0 == x;
    }
  }

  /** Zipping distinct variables with a tuple binds each to its own value. */
  lemma ZipAt(vars: seq<Var>, t: seq<Val>, i: nat)
    requires |t| == |vars| && i < |vars| && NoDup(vars)
    ensures vars[i] in ZipEvent(vars, t) && ZipEvent(vars, t)[vars[i]] == t[i]
  {
    var pairs := seq(|vars|, j requires 0 <= j < |vars| => (vars[j], t[j]));
    ToMapAt(pairs, i);
  }

  /** Zipping distinct variables with a tuple and reading back a run of them
      gives the values at their positions. */
  lemma ZipProject(vars: seq<Var>, t: seq<Val>, lo: nat, hi: nat)
    requires |t| == |vars| && lo <= hi <= |vars| && NoDup(vars)
    ensures forall x :: x in vars[lo..hi] ==> x in ZipEvent(vars, t)
    ensures Project(ZipEvent(vars, t), vars[lo..hi]) == t[lo..hi]
  {
    var z := ZipEvent(vars, t);
    forall i | 0 <= i < |vars| ensures vars[i] in z && z[vars[i]] == t[i] {
      ZipAt(vars, t, i);
    }
    ProjectRun(z, vars, t, lo, hi);
  }

  /** An event binding each variable to the value at its position reads
      back any run of the variables as the same run of the values. */
  lemma ProjectRun(z: Event, vars: seq<Var>, t: seq<Val>, lo: nat, hi: nat)
    requires |t| == |vars| && lo <= hi <= |vars|
    requires forall i :: 0 <= i < |vars| ==> vars[i] in z && z[vars[i]] == t[i]
    ensures forall x :: x in vars[lo..hi] ==> x in z
    ensures Project(z, vars[lo..hi]) == t[lo..hi]
  {
    var run := vars[lo..hi];
    forall x | x in run ensures x in z {
      var i :| 0 <= i < |run| && run[i] == x;
      assert run[i] == vars[lo + i];
    }
    var p := Project(z, run);
    forall i | 0 <= i < hi - lo ensures p[i] == t[lo + i] {
      assert run[i] == vars[lo + i];
    }
  }

  /** A tuple of the product, zipped and updated by `e`, is an extension. */
  lemma ZipIntoDomains(vars: seq<Var>, ds: seq<seq<Val>>, t: seq<Val>, e: Event)
    requires |ds| == |vars|
    requires |t| == |vars| && forall i :: 0 <= i < |ds| ==> t[i] in ds[i]
    requires forall i, j :: 0 <= i < |vars| && 0 <= j < |vars| && vars[i] == vars[j] ==> ds[i] == ds[j]
    ensures Extension(ZipEvent(vars, t) + e, vars, ds, e)
  {
    var pairs := seq(|vars|, i requires 0 <= i < |vars| => (vars[i], t[i]));
    var z := ZipEvent(vars, t);
    ZipKeys(vars, t);
    forall i | 0 <= i < |vars| && vars[i] !in e ensures z[vars[i]] in ds[i] {
      ToMapSome(pairs, vars[i]);
    }
  }

  /** The tuple read off an extension zips back to it. */
  lemma ZipOfExtension(vars: seq<Var>, ds: seq<seq<Val>>, t: seq<Val>, ev: Event, e: Event)
    requires |ds| == |vars|
    requires Extension(ev, vars, ds, e)
    requires |t| == |vars| && forall i :: 0 <= i < |vars| && vars[i] !in e ==> t[i] == ev[vars[i]]
    ensures ZipEvent(vars, t) + e == ev
  {
    var pairs := seq(|vars|, i requires 0 <= i < |vars| => (vars[i], t[i]));
    var z := ZipEvent(vars, t);
    ZipKeys(vars, t);
    forall x | x in z && x !in e ensures z[x] == ev[x] {
      ToMapUniform(pairs, x, ev[x]);
    }
  }

  /** Listing the same variables in another order yields the same events:
      an event is yielded only when every listed domain has a value, and then
      every extension over either listing is yielded by the other. */
  lemma AllEventsReordered(u1: seq<Var>, u2: seq<Var>, ns: seq<BayesNode>, e: Event)
    requires forall x :: x in u1 <==> x in u2
    requires forall x :: x in u1 ==> x in VarsOf(ns)
    ensures forall ev :: ev in AllEvents(u1, ns, e).value ==> ev in AllEvents(u2, ns, e).value
  {
    var ds1, ds2 := Domains(u1, ns).value, Domains(u2, ns).value;
    var ts := Product(ds1);
    var evs := AllEvents(u1, ns, e).value;
    ProductMembers(ds1);
    AllEventsSound(u1, ns, e);
    forall ev | ev in evs ensures ev in AllEvents(u2, ns, e).value {
      var i :| 0 <= i < |evs| && evs[i] == ev;
      assert ts[i] in ts;
      forall x | x in u2 ensures DomainOf(ns, x).value != [] {
        var j :| 0 <= j < |u1| && u1[j] == x;
        assert ts[i][j] in ds1[j];
      }
      forall j | 0 <= j < |u2| && u2[j] !in e ensures ev[u2[j]] in ds2[j] {
        var k :| 0 <= k < |u1| && u1[k] == u2[j];
        assert ev[u1[k]] in ds1[k];
      }
      assert Extension(ev, u2, ds2, e);
      AllEventsComplete(u2, ns, e);
    }
  }

  /** Every event `all_events` yields is consistent with the evidence. */
  lemma AllEventsConsistent(vars: seq<Var>, ns: seq<BayesNode>, e: Event)
    requires forall x :: x in vars ==> x in VarsOf(ns)
    ensures forall ev :: ev in AllEvents(vars, ns, e).value ==> ConsistentWith(ev, e)
  {
    AllEventsSound(vars, ns, e);
  }
}
