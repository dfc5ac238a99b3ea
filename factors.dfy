/** Factors of variable elimination: a table over some of a net's variables,
    built by a comprehension over `all_events`, looked up with `Factor.p`,
    multiplied pointwise, summed out over one variable and normalised into a
    distribution. */
module Factors {
  import opened Common
  import opened Distributions
  import opened Network
  import opened Events

  // ---------------------------------------------------------------------------
  // Factor and its table

  /** A factor: its variables and the entries of its table in the order the
      comprehension produced them; as in a dict, a later entry for a key
      overrides an earlier one and the key keeps its first position. */
  datatype Factor = Factor(variables: seq<Var>, rows: seq<(seq<Val>, real)>)

  /** `Factor.p(e)`: the entry keyed by the event's values for the factor's
      variables; a variable missing from the event or a key missing from the
      table is a KeyError. */
  function FactorP(f: Factor, ev: Event): (r: Result<real>)
    ensures r.Ok? <==> (forall x :: x in f.variables ==> x in ev) && Project(ev, f.variables) in ToMap(f.rows)
    ensures r.Ok? ==> r.value == ToMap(f.rows)[Project(ev, f.variables)]
    ensures r.Err? ==> r.error == KeyError
  {
    var k :- EventValues(Dict(ev), f.variables);
    if k in ToMap(f.rows) then Ok(ToMap(f.rows)[k]) else Err(KeyError)
  }

  /** The entries `event_values(ev, vars): g(ev)` of a table comprehension
      over the events `evs`, in order; the first failure ends it. */
  function Rows(evs: seq<Event>, vars: seq<Var>, g: Event -> Result<real>): Result<seq<(seq<Val>, real)>> {
    if evs == [] then Ok([])
    else
      var k :- EventValues(Dict(evs[0]), vars);
      var p :- g(evs[0]);
      var rest :- Rows(evs[1..], vars, g);
      Ok([(k, p)] + rest)
  }

  /** The event binds every variable of `vars`. */
  predicate Binds(ev: Event, vars: seq<Var>) {
    forall x :: x in vars ==> x in ev
  }

  /** Over events that bind every variable, the comprehension succeeds when
      every value does, and then pairs each event's key with its value. */
  lemma {:induction false} RowsOk(evs: seq<Event>, vars: seq<Var>, g: Event -> Result<real>)
    requires forall i, x :: 0 <= i < |evs| && x in vars ==> x in evs[i]
    ensures Rows(evs, vars, g).Ok? <==> forall i :: 0 <= i < |evs| ==> g(evs[i]).Ok?
    ensures Rows(evs, vars, g).Ok? ==>
      && |Rows(evs, vars, g).value| == |evs|
      && forall i :: 0 <= i < |evs| ==> g(evs[i]).Ok? && Rows(evs, vars, g).value[i] == (Project(evs[i], vars), g(evs[i]).value)
  {
    if evs != [] {
      var tail := evs[1..];
      assert forall i :: 0 <= i < |tail| ==> tail[i] == evs[i + 1];
      RowsOk(tail, vars, g);
      assert Binds(evs[0], vars);
      if Rows(evs, vars, g).Ok? {
        var rows := Rows(evs, vars, g).value;
        assert rows == [(Project(evs[0], vars), g(evs[0]).value)] + Rows(tail, vars, g).value;
      }
    }
  }

  /** Over events that bind every variable, a failing comprehension fails
      with the exception of one of its values. */
  lemma {:induction false} RowsErr(evs: seq<Event>, vars: seq<Var>, g: Event -> Result<real>)
    requires forall ev :: ev in evs ==> Binds(ev, vars)
    requires Rows(evs, vars, g).Err?
    ensures exists ev :: ev in evs && g(ev) == Err(Rows(evs, vars, g).error)
  {
    assert Binds(evs[0], vars);
    if g(evs[0]).Ok? {
      assert forall ev :: ev in evs[1..] ==> ev in evs;
      RowsErr(evs[1..], vars, g);
      var ev :| ev in evs[1..] && g(ev) == Err(Rows(evs[1..], vars, g).error);
      assert ev in evs;
    }
  }

  /** `Factor(vars, {event_values(e1, vars): g(e1) for e1 in all_events(vars, bn, e)})`. */
  function BuildFactor(vars: seq<Var>, ns: seq<BayesNode>, e: Event, g: Event -> Result<real>): Result<Factor> {
    var evs :- AllEvents(vars, ns, e);
    var rows :- Rows(evs, vars, g);
    Ok(Factor(vars, rows))
  }

  /** Two events of `all_events` with the same values for the variables are
      the same event. */
  lemma SameKeySameEvent(a: Event, b: Event, vars: seq<Var>, ds: seq<seq<Val>>, e: Event)
    requires |ds| == |vars|
    requires Extension(a, vars, ds, e) && Extension(b, vars, ds, e)
    requires Project(a, vars) == Project(b, vars)
    ensures a == b
  {
    forall x | x in a ensures x in b && a[x] == b[x] {
      if x !in e {
        var i :| 0 <= i < |vars| && vars[i] == x;
        assert Project(a, vars)[i] == Project(b, vars)[i];
      }
    }
  }

  /** Every event of `all_events` binds the listed variables, and no two of
      them share the values of those variables. */
  lemma AllEventsKeyed(vars: seq<Var>, ns: seq<BayesNode>, e: Event, evs: seq<Event>)
    requires AllEvents(vars, ns, e) == Ok(evs)
    ensures forall i, x :: 0 <= i < |evs| && x in vars ==> x in evs[i]
    ensures forall i, j :: 0 <= i < |evs| && 0 <= j < |evs| && Project(evs[i], vars) == Project(evs[j], vars) ==> evs[i] == evs[j]
  {
    var ds := Domains(vars, ns).value;
    AllEventsSound(vars, ns, e);
    assert forall i :: 0 <= i < |evs| ==> Extension(evs[i], vars, ds, e);
    forall i, j | 0 <= i < |evs| && 0 <= j < |evs| && Project(evs[i], vars) == Project(evs[j], vars)
      ensures evs[i] == evs[j]
    {
      SameKeySameEvent(evs[i], evs[j], vars, ds, e);
    }
  }

  /** A built factor succeeds exactly when every listed variable is in the
      net and every value succeeds. */
  lemma BuildFactorOk(vars: seq<Var>, ns: seq<BayesNode>, e: Event, g: Event -> Result<real>)
    ensures BuildFactor(vars, ns, e, g).Ok? <==>
      (forall x :: x in vars ==> x in VarsOf(ns)) && forall ev :: ev in AllEvents(vars, ns, e).value ==> g(ev).Ok?
    ensures BuildFactor(vars, ns, e, g).Err? ==>
      BuildFactor(vars, ns, e, g).error == NoSuchVariable
      || exists ev :: ev in AllEvents(vars, ns, e).value && g(ev) == Err(BuildFactor(vars, ns, e, g).error)
  {
    if AllEvents(vars, ns, e).Ok? {
      var evs := AllEvents(vars, ns, e).value;
      AllEventsKeyed(vars, ns, e, evs);
      RowsOk(evs, vars, g);
      if Rows(evs, vars, g).Err? {
        RowsErr(evs, vars, g);
      }
    }
  }

  /** Looking up an event of `all_events` in a built factor gives the value
      computed for it. */
  lemma BuildFactorAt(vars: seq<Var>, ns: seq<BayesNode>, e: Event, g: Event -> Result<real>, ev: Event)
    requires BuildFactor(vars, ns, e, g).Ok?
    requires ev in AllEvents(vars, ns, e).value
    ensures g(ev).Ok? && FactorP(BuildFactor(vars, ns, e, g).value, ev) == g(ev)
  {
    var evs := AllEvents(vars, ns, e).value;
    AllEventsKeyed(vars, ns, e, evs);
    RowsOk(evs, vars, g);
    var rows := Rows(evs, vars, g).value;
    var f := BuildFactor(vars, ns, e, g).value;
    assert f == Factor(vars, rows);
    var i :| 0 <= i < |evs| && evs[i] == ev;
    RowsLookup(evs, vars, g, rows, i);
    LookupBuilt(f, ev, ToMap(rows)[Project(ev, vars)]);
  }

  /** `Factor.p` of an event that binds the variables and whose key is in the table. */
  lemma LookupBuilt(f: Factor, ev: Event, p: real)
    requires Binds(ev, f.variables)
    requires Project(ev, f.variables) in ToMap(f.rows) && ToMap(f.rows)[Project(ev, f.variables)] == p
    ensures FactorP(f, ev) == Ok(p)
  {
  }

  /** In the entries of a comprehension over events with distinct keys, the
      key of the `i`-th event looks up its value. */
  lemma RowsLookup(evs: seq<Event>, vars: seq<Var>, g: Event -> Result<real>, rows: seq<(seq<Val>, real)>, i: nat)
    requires i < |evs|
    requires forall i, x :: 0 <= i < |evs| && x in vars ==> x in evs[i]
    requires forall i, j :: 0 <= i < |evs| && 0 <= j < |evs| && Project(evs[i], vars) == Project(evs[j], vars) ==> evs[i] == evs[j]
    requires |rows| == |evs|
    requires forall j :: 0 <= j < |evs| ==> g(evs[j]).Ok? && rows[j] == (Project(evs[j], vars), g(evs[j]).value)
    ensures Project(evs[i], vars) in ToMap(rows) && ToMap(rows)[Project(evs[i], vars)] == g(evs[i]).value
  {
    var k := Project(evs[i], vars);
    assert rows[i].0 == k;
    ToMapUniform(rows, k, g(evs[i]).value);
  }

  // ---------------------------------------------------------------------------
  // make_factor

  /** `[X for X in vs if X not in e]`. */
  function Unbound(vs: seq<Var>, e: Event): (r: seq<Var>)
    ensures forall x :: x in r ==> x in vs && x !in e
    ensures forall x :: x in vs && x !in e ==> x in r
  {
    if vs == [] then [] else (if vs[0] in e then [] else [vs[0]]) + Unbound(vs[1..], e)
  }

  /** The entry `node.p(e1[var], e1)` of `make_factor`'s table. */
  function NodeEntry(node: BayesNode, v: Var, ev: Event): Result<real> {
    if v in ev then CptP(node.cpt, node.parents, ev[v], ev) else Err(KeyError)
  }

  /** The entries of `make_factor`'s table, as a function of the event. */
  function NodeTable(node: BayesNode, v: Var): Event -> Result<real> {
    (ev: Event) => NodeEntry(node, v, ev)
  }

  /** `make_factor(var, e, bn)`: a factor over the node's variable and its
      parents not fixed by the evidence, holding the node's conditional
      probability for every extension of the evidence. */
  function MakeFactor(v: Var, e: Event, ns: seq<BayesNode>): Result<Factor> {
    var node :- NodeOf(ns, v);
    BuildFactor(Unbound([v] + node.parents, e), ns, e, NodeTable(node, v))
  }

  /** The variables of a made factor, without its entries. */
  lemma MakeFactorVars(v: Var, e: Event, ns: seq<BayesNode>)
    requires MakeFactor(v, e, ns).Ok?
    ensures MakeFactor(v, e, ns).value.variables == Unbound([v] + NodeOf(ns, v).value.parents, e)
  {
  }

  /** Making a factor fails only for a variable outside the net or a
      missing table entry. */
  lemma MakeFactorFails(v: Var, e: Event, ns: seq<BayesNode>)
    requires MakeFactor(v, e, ns).Err?
    ensures MakeFactor(v, e, ns).error in {NoSuchVariable, KeyError}
  {
    MakeFactorSpec(v, e, ns);
  }

  /** The factor's variables are the node's variable and parents outside the
      evidence; on every extension of the evidence over them it reads the
      node's conditional probability of the event's value for the variable.
      It fails only for a variable outside the net or a missing table entry. */
  lemma MakeFactorSpec(v: Var, e: Event, ns: seq<BayesNode>)
    ensures MakeFactor(v, e, ns).Err? ==> MakeFactor(v, e, ns).error in {NoSuchVariable, KeyError}
    ensures MakeFactor(v, e, ns).Ok? ==>
      var node := NodeOf(ns, v).value;
      var f := MakeFactor(v, e, ns).value;
      && f.variables == Unbound([v] + node.parents, e)
      && forall ev :: ev in AllEvents(f.variables, ns, e).value ==>
           v in ev && CptP(node.cpt, node.parents, ev[v], ev).Ok? && FactorP(f, ev) == CptP(node.cpt, node.parents, ev[v], ev)
  {
    if NodeOf(ns, v).Ok? {
      var node := NodeOf(ns, v).value;
      var vars := Unbound([v] + node.parents, e);
      var g := NodeTable(node, v);
      BuildFactorOk(vars, ns, e, g);
      if BuildFactor(vars, ns, e, g).Ok? {
        AllEventsSound(vars, ns, e);
        forall ev | ev in AllEvents(vars, ns, e).value
          ensures v in ev && CptP(node.cpt, node.parents, ev[v], ev).Ok? && FactorP(MakeFactor(v, e, ns).value, ev) == CptP(node.cpt, node.parents, ev[v], ev)
        {
          assert v in vars || v in e;
          BuildFactorAt(vars, ns, e, g, ev);
        }
      }
    }
  }

  // ---------------------------------------------------------------------------
  // Factor.pointwise_product

  /** The variables of a product: those of the first factor, then the new
      ones of the second, each once. */
  function UnionVars(a: seq<Var>, b: seq<Var>): (r: seq<Var>)
    ensures NoDup(r)
    ensures forall x :: x in r ==> x in a || x in b
    ensures forall x :: x in a || x in b ==> x in r
  {
    DistinctNoDup(a + b);
    Distinct(a + b)
  }

  /** The entry `self.p(e) * other.p(e)`, the left lookup first. */
  function ProductEntry(f: Factor, g: Factor, ev: Event): Result<real> {
    var a :- FactorP(f, ev);
    var b :- FactorP(g, ev);
    Ok(Times(a, b))
  }

  /** The entries of the product, as a function of the event. */
  function ProductTable(f: Factor, g: Factor): Event -> Result<real> {
    (ev: Event) => ProductEntry(f, g, ev)
  }

  /** `f.pointwise_product(g, bn)`: a factor over the union of the variables
      holding, for every event over them, the product of the two lookups. */
  function PointwiseProduct(f: Factor, g: Factor, ns: seq<BayesNode>): Result<Factor> {
    BuildFactor(UnionVars(f.variables, g.variables), ns, map[], ProductTable(f, g))
  }

  /** The product's variables are the union of the factors' variables, each
      once; on every event over them it reads the product of what the two
      factors read. It fails only for a variable outside the net or a
      missing entry. */
  lemma PointwiseProductSpec(f: Factor, g: Factor, ns: seq<BayesNode>)
    ensures PointwiseProduct(f, g, ns).Err? ==> PointwiseProduct(f, g, ns).error in {NoSuchVariable, KeyError}
    ensures PointwiseProduct(f, g, ns).Ok? ==>
      var h := PointwiseProduct(f, g, ns).value;
      && h.variables == UnionVars(f.variables, g.variables)
      && forall ev :: ev in AllEvents(h.variables, ns, map[]).value ==>
           FactorP(f, ev).Ok? && FactorP(g, ev).Ok? && FactorP(h, ev) == Ok(FactorP(f, ev).value * FactorP(g, ev).value)
  {
    var vars := UnionVars(f.variables, g.variables);
    var pe := ProductTable(f, g);
    BuildFactorOk(vars, ns, map[], pe);
    if BuildFactor(vars, ns, map[], pe).Ok? {
      forall ev | ev in AllEvents(vars, ns, map[]).value
        ensures FactorP(f, ev).Ok? && FactorP(g, ev).Ok? && FactorP(PointwiseProduct(f, g, ns).value, ev) == Ok(FactorP(f, ev).value * FactorP(g, ev).value)
      {
        ProductAt(f, g, ns, ev);
      }
    }
  }

  /** The product does not depend on which factor comes first: both orders
      succeed together, over the same variables, and read the same value on
      every event over them. */
  lemma ProductCommutes(f: Factor, g: Factor, ns: seq<BayesNode>)
    ensures PointwiseProduct(f, g, ns).Ok? <==> PointwiseProduct(g, f, ns).Ok?
    ensures PointwiseProduct(f, g, ns).Ok? ==>
      var h, h' := PointwiseProduct(f, g, ns).value, PointwiseProduct(g, f, ns).value;
      && (forall x :: x in h.variables <==> x in h'.variables)
      && forall ev :: ev in AllEvents(h.variables, ns, map[]).value ==> FactorP(h, ev) == FactorP(h', ev)
  {
    var u1, u2 := UnionVars(f.variables, g.variables), UnionVars(g.variables, f.variables);
    BuildFactorOk(u1, ns, map[], ProductTable(f, g));
    BuildFactorOk(u2, ns, map[], ProductTable(g, f));
    if forall x :: x in u1 ==> x in VarsOf(ns) {
      AllEventsReordered(u1, u2, ns, map[]);
      AllEventsReordered(u2, u1, ns, map[]);
      forall ev | ev in AllEvents(u1, ns, map[]).value
        ensures ProductTable(f, g)(ev).Ok? <==> ProductTable(g, f)(ev).Ok?
      {
        assert ProductTable(f, g)(ev) == ProductEntry(f, g, ev);
        assert ProductTable(g, f)(ev) == ProductEntry(g, f, ev);
      }
      if PointwiseProduct(f, g, ns).Ok? {
        PointwiseProductSpec(f, g, ns);
        PointwiseProductSpec(g, f, ns);
      }
    }
  }

  /** The masses of a table's entries, in table order. */
  function Masses(rows: seq<(seq<Val>, real)>): (r: seq<real>)
    ensures |r| == |rows| && forall i :: 0 <= i < |rows| ==> r[i] == rows[i].1
  {
    seq(|rows|, i requires 0 <= i < |rows| => rows[i].1)
  }

  /** The mass a table gives a key, 0 for a key it does not hold. */
  function MassAt(m: map<seq<Val>, real>, t: seq<Val>): real {
    if t in m then m[t] else 0.0
  }

  /** The masses a table gives the keys `ts`, in order. */
  function MassesAt(m: map<seq<Val>, real>, ts: seq<seq<Val>>): (r: seq<real>)
    ensures |r| == |ts| && forall i :: 0 <= i < |ts| ==> r[i] == MassAt(m, ts[i])
  {
    seq(|ts|, i requires 0 <= i < |ts| => MassAt(m, ts[i]))
  }

  /** The mass `mf` gives the first `n` values of `t` times the mass `mg`
      gives the rest. */
  function PairMass(mf: map<seq<Val>, real>, mg: map<seq<Val>, real>, n: nat, t: seq<Val>): real {
    if n <= |t| then Times(MassAt(mf, t[..n]), MassAt(mg, t[n..])) else 0.0
  }

  /** `PairMass` of every tuple of `ts`, in order. */
  function PairedMasses(mf: map<seq<Val>, real>, mg: map<seq<Val>, real>, n: nat, ts: seq<seq<Val>>): (r: seq<real>)
    ensures |r| == |ts| && forall i :: 0 <= i < |ts| ==> r[i] == PairMass(mf, mg, n, ts[i])
  {
    seq(|ts|, i requires 0 <= i < |ts| => PairMass(mf, mg, n, ts[i]))
  }

  lemma PairedConcat(mf: map<seq<Val>, real>, mg: map<seq<Val>, real>, n: nat, ts1: seq<seq<Val>>, ts2: seq<seq<Val>>)
    ensures Sum(PairedMasses(mf, mg, n, ts1 + ts2)) == Sum(PairedMasses(mf, mg, n, ts1)) + Sum(PairedMasses(mf, mg, n, ts2))
  {
    var r1, r2 := PairedMasses(mf, mg, n, ts1), PairedMasses(mf, mg, n, ts2);
    forall i | 0 <= i < |ts1 + ts2| ensures PairedMasses(mf, mg, n, ts1 + ts2)[i] == (r1 + r2)[i] {
      if i >= |ts1| {
        assert (ts1 + ts2)[i] == ts2[i - |ts1|];
      }
    }
    assert PairedMasses(mf, mg, n, ts1 + ts2) == r1 + r2;
    SumConcat(r1, r2);
  }

  /** The pair mass of `t + u` split after `t`. */
  lemma PairMassAppend(mf: map<seq<Val>, real>, mg: map<seq<Val>, real>, t: seq<Val>, u: seq<Val>)
    ensures PairMass(mf, mg, |t|, t + u) == MassAt(mf, t) * MassAt(mg, u)
  {
    assert (t + u)[..|t|] == t && (t + u)[|t|..] == u;
  }

  /** The pairs sharing the first key `t` sum to its mass times the second sum. */
  lemma PairedHead(mf: map<seq<Val>, real>, mg: map<seq<Val>, real>, n: nat, t: seq<Val>, us: seq<seq<Val>>)
    requires |t| == n
    ensures Sum(PairedMasses(mf, mg, n, AppendAll(t, us))) == Times(MassAt(mf, t), Sum(MassesAt(mg, us)))
  {
    var r, m, c := PairedMasses(mf, mg, n, AppendAll(t, us)), MassesAt(mg, us), MassAt(mf, t);
    assert |r| == |m|;
    forall j | 0 <= j < |r| ensures r[j] == c * m[j] {
      PairMassAppend(mf, mg, t, us[j]);
    }
    SumScale(r, m, c);
  }

  /** Summing the products over every pair of keys factorises into the
      product of the two sums. */
  lemma {:induction false} PairedSum(mf: map<seq<Val>, real>, mg: map<seq<Val>, real>, n: nat, ts: seq<seq<Val>>, us: seq<seq<Val>>)
    requires forall t :: t in ts ==> |t| == n
    ensures Sum(PairedMasses(mf, mg, n, Pairs(ts, us))) == Times(Sum(MassesAt(mf, ts)), Sum(MassesAt(mg, us)))
  {
    if ts != [] {
      var a, sa, sb := MassAt(mf, ts[0]), Sum(MassesAt(mf, ts[1..])), Sum(MassesAt(mg, us));
      assert forall t :: t in ts[1..] ==> t in ts;
      PairedSum(mf, mg, n, ts[1..], us);
      assert ts[0] in ts;
      PairedHead(mf, mg, n, ts[0], us);
      PairedSplit(mf, mg, n, ts, us);
      assert MassesAt(mf, ts)[1..] == MassesAt(mf, ts[1..]);
      assert Sum(MassesAt(mf, ts)) == a + sa;
      Distribute(Sum(MassesAt(mf, ts)), a, sa, sb);
    }
  }

  lemma PairedSplit(mf: map<seq<Val>, real>, mg: map<seq<Val>, real>, n: nat, ts: seq<seq<Val>>, us: seq<seq<Val>>)
    requires ts != []
    ensures Sum(PairedMasses(mf, mg, n, Pairs(ts, us)))
      == Sum(PairedMasses(mf, mg, n, AppendAll(ts[0], us))) + Sum(PairedMasses(mf, mg, n, Pairs(ts[1..], us)))
  {
    PairedConcat(mf, mg, n, AppendAll(ts[0], us), Pairs(ts[1..], us));
  }

  lemma Distribute(x: real, a: real, b: real, c: real)
    requires x == a + b
    ensures Times(x, c) == Times(a, c) + Times(b, c)
  {
  }

  /** A factor as `make_factor` and `pointwise_product` build it over no
      evidence: its table lists the tuples of the product of its variables'
      domains, in the order `all_events` yields them. */
  predicate Tabulated(f: Factor, ns: seq<BayesNode>) {
    && Domains(f.variables, ns).Ok?
    && |f.rows| == |Product(Domains(f.variables, ns).value)|
    && forall i :: 0 <= i < |f.rows| ==> f.rows[i].0 == Product(Domains(f.variables, ns).value)[i]
  }

  /** Every domain of the listed variables lists each of its values once. */
  predicate DistinctDomains(vars: seq<Var>, ns: seq<BayesNode>) {
    forall x :: x in vars ==> DomainOf(ns, x).Ok? && NoDup(DomainOf(ns, x).value)
  }

  /** A table built over no evidence and repeat-free variables is tabulated. */
  lemma BuildTabulated(vars: seq<Var>, ns: seq<BayesNode>, g: Event -> Result<real>)
    requires NoDup(vars) && BuildFactor(vars, ns, map[], g).Ok?
    ensures Tabulated(BuildFactor(vars, ns, map[], g).value, ns)
  {
    var ds := Domains(vars, ns).value;
    var ts := Product(ds);
    var evs := AllEvents(vars, ns, map[]).value;
    AllEventsKeyed(vars, ns, map[], evs);
    RowsOk(evs, vars, g);
    var rows := Rows(evs, vars, g).value;
    forall i | 0 <= i < |rows| ensures rows[i].0 == ts[i] {
      assert ts[i] in ts;
      FromProduct(ds, ts[i]);
      assert evs[i] == ZipEvent(vars, ts[i]);
      ZipProject(vars, ts[i], 0, |vars|);
      assert vars[0..|vars|] == vars && ts[i][0..|vars|] == ts[i];
    }
  }

  /** A product is always tabulated: its variables never repeat. */
  lemma ProductTabulated(f: Factor, g: Factor, ns: seq<BayesNode>)
    requires PointwiseProduct(f, g, ns).Ok?
    ensures Tabulated(PointwiseProduct(f, g, ns).value, ns)
  {
    BuildTabulated(UnionVars(f.variables, g.variables), ns, ProductTable(f, g));
  }

  /** A tabulated factor's entries are the masses its table gives the
      tuples of the product, in order. */
  lemma TabulatedMasses(f: Factor, ns: seq<BayesNode>)
    requires Tabulated(f, ns) && DistinctDomains(f.variables, ns)
    ensures Masses(f.rows) == MassesAt(ToMap(f.rows), Product(Domains(f.variables, ns).value))
  {
    var ds := Domains(f.variables, ns).value;
    ProductNoDup(ds);
    forall i | 0 <= i < |f.rows| ensures Masses(f.rows)[i] == MassesAt(ToMap(f.rows), Product(ds))[i] {
      ToMapAt(f.rows, i);
    }
  }

  /** A tabulated factor reads, for an event whose values for its variables
      form a tuple of the product, the mass its table gives that tuple. */
  lemma TabulatedLookup(f: Factor, ns: seq<BayesNode>, ev: Event)
    requires Tabulated(f, ns) && Binds(ev, f.variables)
    requires Project(ev, f.variables) in Product(Domains(f.variables, ns).value)
    ensures FactorP(f, ev) == Ok(MassAt(ToMap(f.rows), Project(ev, f.variables)))
  {
    var ts := Product(Domains(f.variables, ns).value);
    var i :| 0 <= i < |ts| && ts[i] == Project(ev, f.variables);
    assert f.rows[i].0 == Project(ev, f.variables);
  }

  /** On the event zipping disjoint variables with a tuple of their product,
      the product's entry is the first factor's mass of the tuple's first part
      times the second factor's mass of the rest. */
  lemma ProductEntryAt(f: Factor, g: Factor, ns: seq<BayesNode>, t: seq<Val>)
    requires Tabulated(f, ns) && Tabulated(g, ns) && NoDup(f.variables + g.variables)
    requires |t| == |f.variables + g.variables| && t in Product(Domains(f.variables + g.variables, ns).value)
    ensures ProductEntry(f, g, ZipEvent(f.variables + g.variables, t))
      == Ok(PairMass(ToMap(f.rows), ToMap(g.rows), |f.variables|, t))
  {
    var a, b := f.variables, g.variables;
    var u, na := a + b, |a|;
    DomainsConcat(a, b, ns);
    ProductSplit(Domains(a, ns).value, Domains(b, ns).value, t);
    var ev := ZipEvent(u, t);
    ZipProject(u, t, 0, na);
    ZipProject(u, t, na, |u|);
    assert u[0..na] == a && u[na..|u|] == b && t[0..na] == t[..na] && t[na..|u|] == t[na..];
    TabulatedLookup(f, ns, ev);
    TabulatedLookup(g, ns, ev);
  }

  /** The k-th event of the product's variables has the pair mass of the
      k-th tuple of their domains. */
  lemma ProductRowAt(f: Factor, g: Factor, ns: seq<BayesNode>, k: nat)
    requires Tabulated(f, ns) && Tabulated(g, ns) && NoDup(f.variables + g.variables)
    requires k < |Product(Domains(f.variables + g.variables, ns).value)|
    ensures AllEvents(f.variables + g.variables, ns, map[]).Ok?
    ensures k < |AllEvents(f.variables + g.variables, ns, map[]).value|
    ensures var t := Product(Domains(f.variables + g.variables, ns).value)[k];
      ProductEntry(f, g, AllEvents(f.variables + g.variables, ns, map[]).value[k])
      == Ok(PairMass(ToMap(f.rows), ToMap(g.rows), |f.variables|, t))
  {
    var a, b := f.variables, g.variables;
    var u := a + b;
    DomainsConcat(a, b, ns);
    var ts := Product(Domains(u, ns).value);
    var evs := AllEvents(u, ns, map[]).value;
    assert ts[k] in ts;
    ProductSplit(Domains(a, ns).value, Domains(b, ns).value, ts[k]);
    assert evs[k] == ZipEvent(u, ts[k]);
    ProductEntryAt(f, g, ns, ts[k]);
  }

  /** Over disjoint variables, the product succeeds and its entries are the
      pair masses of the tuples of the product of the two domain lists. */
  lemma ProductMasses(f: Factor, g: Factor, ns: seq<BayesNode>)
    requires Tabulated(f, ns) && Tabulated(g, ns) && NoDup(f.variables + g.variables)
    ensures PointwiseProduct(f, g, ns).Ok?
    ensures Masses(PointwiseProduct(f, g, ns).value.rows)
      == PairedMasses(ToMap(f.rows), ToMap(g.rows), |f.variables|, Product(Domains(f.variables + g.variables, ns).value))
  {
    var a, b := f.variables, g.variables;
    var u, na := a + b, |a|;
    DistinctOfNoDup(u);
    assert UnionVars(a, b) == u;
    DomainsConcat(a, b, ns);
    var ts := Product(Domains(u, ns).value);
    var mf, mg := ToMap(f.rows), ToMap(g.rows);
    var pt := ProductTable(f, g);
    var evs := AllEvents(u, ns, map[]).value;
    forall k | 0 <= k < |evs| ensures pt(evs[k]) == Ok(PairMass(mf, mg, na, ts[k])) {
      ProductRowAt(f, g, ns, k);
    }
    AllEventsKeyed(u, ns, map[], evs);
    RowsOk(evs, u, pt);
  }

  /** For two tables over disjoint variables, each listing every tuple of
      its variables' domains once, the entries of their product sum to the
      product of their sums. */
  lemma ProductSum(f: Factor, g: Factor, ns: seq<BayesNode>)
    requires Tabulated(f, ns) && Tabulated(g, ns)
    requires NoDup(f.variables + g.variables) && DistinctDomains(f.variables + g.variables, ns)
    ensures PointwiseProduct(f, g, ns).Ok?
    ensures Sum(Masses(PointwiseProduct(f, g, ns).value.rows)) == Sum(Masses(f.rows)) * Sum(Masses(g.rows))
  {
    ProductSumTimes(f, g, ns);
  }

  /** `ProductSum` with the product written as `Times`, which keeps the
      solver away from non-linear arithmetic on the sums. */
  lemma ProductSumTimes(f: Factor, g: Factor, ns: seq<BayesNode>)
    requires Tabulated(f, ns) && Tabulated(g, ns)
    requires NoDup(f.variables + g.variables) && DistinctDomains(f.variables + g.variables, ns)
    ensures PointwiseProduct(f, g, ns).Ok?
    ensures Sum(Masses(PointwiseProduct(f, g, ns).value.rows)) == Times(Sum(Masses(f.rows)), Sum(Masses(g.rows)))
  {
    var a, b := f.variables, g.variables;
    var dsa, dsb := Domains(a, ns).value, Domains(b, ns).value;
    var mf, mg := ToMap(f.rows), ToMap(g.rows);
    DomainsConcat(a, b, ns);
    ProductConcat(dsa, dsb);
    ProductMasses(f, g, ns);
    var h := PointwiseProduct(f, g, ns).value;
    assert Masses(h.rows) == PairedMasses(mf, mg, |a|, Pairs(Product(dsa), Product(dsb)));
    assert DistinctDomains(a, ns) && DistinctDomains(b, ns);
    TabulatedMasses(f, ns);
    TabulatedMasses(g, ns);
    forall t | t in Product(dsa) ensures |t| == |a| {
      FromProduct(dsa, t);
    }
    PairedSum(mf, mg, |a|, Product(dsa), Product(dsb));
  }

  lemma ProductAt(f: Factor, g: Factor, ns: seq<BayesNode>, ev: Event)
    requires PointwiseProduct(f, g, ns).Ok?
    requires ev in AllEvents(UnionVars(f.variables, g.variables), ns, map[]).value
    ensures FactorP(f, ev).Ok? && FactorP(g, ev).Ok?
    ensures FactorP(PointwiseProduct(f, g, ns).value, ev) == Ok(FactorP(f, ev).value * FactorP(g, ev).value)
  {
    var vars := UnionVars(f.variables, g.variables);
    BuildFactorAt(vars, ns, map[], ProductTable(f, g), ev);
    assert ProductTable(f, g)(ev) == ProductEntry(f, g, ev);
    ProductEntryOk(f, g, ev);
  }

  lemma ProductEntryOk(f: Factor, g: Factor, ev: Event)
    requires ProductEntry(f, g, ev).Ok?
    ensures FactorP(f, ev).Ok? && FactorP(g, ev).Ok?
    ensures ProductEntry(f, g, ev) == Ok(FactorP(f, ev).value * FactorP(g, ev).value)
  {
    var a := FactorP(f, ev).value;
    var b := FactorP(g, ev).value;
    assert ProductEntry(f, g, ev) == Ok(Times(a, b));
  }

  // ---------------------------------------------------------------------------
  // Factor.sum_out

  /** The lookups `self.p({**e, var: val})` of `f`, as a function of `val`. */
  function Lookups(f: Factor, v: Var, ev: Event): Val -> Result<real> {
    (d: Val) => FactorP(f, ev[v := d])
  }

  /** `sum(h(val) for val in ds)`, the terms evaluated left to right; the
      first failing term ends it. */
  function SumOver(h: Val -> Result<real>, ds: seq<Val>): Result<real> {
    if ds == [] then Ok(0.0)
    else
      var a :- h(ds[0]);
      var rest :- SumOver(h, ds[1..]);
      Ok(a + rest)
  }

  /** The terms `h(val)` for the values of `ds`. */
  function Terms(h: Val -> Result<real>, ds: seq<Val>): (r: seq<real>)
    requires forall i :: 0 <= i < |ds| ==> h(ds[i]).Ok?
    ensures |r| == |ds| && forall i :: 0 <= i < |ds| ==> h(ds[i]) == Ok(r[i])
  {
    seq(|ds|, i requires 0 <= i < |ds| => h(ds[i]).value)
  }

  /** The sum succeeds exactly when every term does, and is then the sum of
      the terms; otherwise it fails with the error of a failing term. */
  lemma {:induction false} SumOverIsSum(h: Val -> Result<real>, ds: seq<Val>)
    ensures SumOver(h, ds).Ok? <==> forall i :: 0 <= i < |ds| ==> h(ds[i]).Ok?
    ensures SumOver(h, ds).Ok? ==> SumOver(h, ds).value == Sum(Terms(h, ds))
    ensures SumOver(h, ds).Err? ==> exists i :: 0 <= i < |ds| && h(ds[i]) == Err(SumOver(h, ds).error)
  {
    if ds != [] {
      var tail := ds[1..];
      SumOverIsSum(h, tail);
      if h(ds[0]).Err? {
      } else if SumOver(h, tail).Err? {
        var i :| 0 <= i < |tail| && h(tail[i]) == Err(SumOver(h, tail).error);
        assert tail[i] == ds[i + 1];
      } else {
        assert forall i :: 0 < i < |ds| ==> ds[i] == tail[i - 1];
        assert Terms(h, ds) == [Terms(h, ds)[0]] + Terms(h, tail);
      }
    }
  }

  /** The entry of `sum_out`: the variable's domain is looked up in the net
      for every event. */
  function SumOutEntry(f: Factor, v: Var, ns: seq<BayesNode>, ev: Event): Result<real> {
    var ds :- DomainOf(ns, v);
    SumOver(Lookups(f, v, ev), ds)
  }

  /** The entries of the summed-out factor, as a function of the event. */
  function SumOutTable(f: Factor, v: Var, ns: seq<BayesNode>): Event -> Result<real> {
    (ev: Event) => SumOutEntry(f, v, ns, ev)
  }

  /** `f.sum_out(var, bn)`: a factor over the other variables holding, for
      every event over them, the sum of `f` over the values of `var`. */
  function FactorSumOut(f: Factor, v: Var, ns: seq<BayesNode>): Result<Factor> {
    BuildFactor(Without(f.variables, v), ns, map[], SumOutTable(f, v, ns))
  }

  /** The result's variables are the factor's other than `var`; on every
      event over them it reads the sum, over the domain of `var`, of what
      the factor reads with `var` set to each value. */
  lemma FactorSumOutSpec(f: Factor, v: Var, ns: seq<BayesNode>)
    ensures FactorSumOut(f, v, ns).Err? ==> FactorSumOut(f, v, ns).error in {NoSuchVariable, KeyError}
    ensures FactorSumOut(f, v, ns).Ok? ==>
      var h := FactorSumOut(f, v, ns).value;
      && h.variables == Without(f.variables, v)
      && forall ev :: ev in AllEvents(h.variables, ns, map[]).value ==>
           && DomainOf(ns, v).Ok?
           && (forall i :: 0 <= i < |DomainOf(ns, v).value| ==> FactorP(f, ev[v := DomainOf(ns, v).value[i]]).Ok?)
           && FactorP(h, ev) == Ok(Sum(Terms(Lookups(f, v, ev), DomainOf(ns, v).value)))
  {
    var vars := Without(f.variables, v);
    var se := SumOutTable(f, v, ns);
    BuildFactorOk(vars, ns, map[], se);
    if BuildFactor(vars, ns, map[], se).Err? {
      if BuildFactor(vars, ns, map[], se).error != NoSuchVariable {
        var ev :| ev in AllEvents(vars, ns, map[]).value && se(ev) == Err(BuildFactor(vars, ns, map[], se).error);
        SumOutEntryErr(f, v, ns, ev);
      }
    } else {
      forall ev | ev in AllEvents(vars, ns, map[]).value
        ensures && DomainOf(ns, v).Ok?
                && (forall i :: 0 <= i < |DomainOf(ns, v).value| ==> FactorP(f, ev[v := DomainOf(ns, v).value[i]]).Ok?)
                && FactorP(FactorSumOut(f, v, ns).value, ev) == Ok(Sum(Terms(Lookups(f, v, ev), DomainOf(ns, v).value)))
      {
        SumOutAt(f, v, ns, ev);
      }
    }
  }

  /** A failing entry of `sum_out` fails for a variable outside the net or
      a missing entry. */
  lemma SumOutEntryErr(f: Factor, v: Var, ns: seq<BayesNode>, ev: Event)
    requires SumOutEntry(f, v, ns, ev).Err?
    ensures SumOutEntry(f, v, ns, ev).error in {NoSuchVariable, KeyError}
  {
    if DomainOf(ns, v).Ok? {
      var h := Lookups(f, v, ev);
      var ds := DomainOf(ns, v).value;
      SumOverIsSum(h, ds);
      var i :| 0 <= i < |ds| && h(ds[i]) == Err(SumOver(h, ds).error);
      assert h(ds[i]) == FactorP(f, ev[v := ds[i]]);
    }
  }

  /** One entry of a summed-out factor. */
  lemma SumOutAt(f: Factor, v: Var, ns: seq<BayesNode>, ev: Event)
    requires FactorSumOut(f, v, ns).Ok?
    requires ev in AllEvents(Without(f.variables, v), ns, map[]).value
    ensures DomainOf(ns, v).Ok?
    ensures forall i :: 0 <= i < |DomainOf(ns, v).value| ==> FactorP(f, ev[v := DomainOf(ns, v).value[i]]).Ok?
    ensures FactorP(FactorSumOut(f, v, ns).value, ev) == Ok(Sum(Terms(Lookups(f, v, ev), DomainOf(ns, v).value)))
  {
    var h := Lookups(f, v, ev);
    BuildFactorAt(Without(f.variables, v), ns, map[], SumOutTable(f, v, ns), ev);
    assert SumOutTable(f, v, ns)(ev) == SumOutEntry(f, v, ns, ev);
    var ds := DomainOf(ns, v).value;
    SumOverIsSum(h, ds);
    assert forall i :: 0 <= i < |ds| ==> h(ds[i]) == FactorP(f, ev[v := ds[i]]);
  }

  // ---------------------------------------------------------------------------
  // pointwise_product over a list

  /** The variables of a list, as a set. */
  function VarSet(vs: seq<Var>): (r: set<Var>)
    ensures forall x :: x in r <==> x in vs
  {
    set x | x in vs
  }

  /** The variables the factors of `fs` mention. */
  function VarsIn(fs: seq<Factor>): set<Var> {
    if fs == [] then {}
    else VarsIn(fs[..|fs| - 1]) + VarSet(fs[|fs| - 1].variables)
  }

  /** A factor's variables are among those of the list holding it. */
  lemma {:induction false} VarsInMember(fs: seq<Factor>, i: nat, x: Var)
    requires i < |fs| && x in fs[i].variables
    ensures x in VarsIn(fs)
  {
    if i < |fs| - 1 {
      VarsInMember(fs[..|fs| - 1], i, x);
    }
  }

  /** Every variable of the list is a variable of one of its factors. */
  lemma {:induction false} VarsInWitness(fs: seq<Factor>, x: Var)
    requires x in VarsIn(fs)
    ensures exists i :: 0 <= i < |fs| && x in fs[i].variables
  {
    var n := |fs| - 1;
    if x !in fs[n].variables {
      VarsInWitness(fs[..n], x);
      var i :| 0 <= i < n && x in fs[..n][i].variables;
      assert fs[..n][i] == fs[i];
    }
  }

  /** `reduce(lambda f, g: f.pointwise_product(g, bn), factors)`: the
      factors multiplied from the left; a single factor is returned as it
      is, and an empty list is a TypeError. */
  function ProductAll(fs: seq<Factor>, ns: seq<BayesNode>): Result<Factor> {
    if fs == [] then Err(TypeError)
    else if |fs| == 1 then Ok(fs[0])
    else
      var acc :- ProductAll(fs[..|fs| - 1], ns);
      PointwiseProduct(acc, fs[|fs| - 1], ns)
  }

  /** The product mentions exactly the variables of the factors; it fails
      with a TypeError exactly on an empty list, and otherwise only for a
      variable outside the net or a missing entry. */
  lemma {:induction false} ProductAllSpec(fs: seq<Factor>, ns: seq<BayesNode>)
    ensures ProductAll(fs, ns) == Err(TypeError) <==> fs == []
    ensures ProductAll(fs, ns).Err? ==> ProductAll(fs, ns).error in {TypeError, NoSuchVariable, KeyError}
    ensures ProductAll(fs, ns).Ok? ==> forall x :: x in ProductAll(fs, ns).value.variables <==> x in VarsIn(fs)
  {
    if |fs| == 1 {
      assert fs[..0] == [];
    } else if |fs| > 1 {
      var n := |fs| - 1;
      ProductAllSpec(fs[..n], ns);
      if ProductAll(fs[..n], ns).Ok? {
        PointwiseProductSpec(ProductAll(fs[..n], ns).value, fs[n], ns);
      }
    }
  }

  // ---------------------------------------------------------------------------
  // Factor.normalize

  /** `{k: v for ((k,), v) in cpt.items()}` over the keys `ks` of the table
      `m`, in order: each key must be a 1-tuple, or unpacking it is a
      ValueError. */
  function Unpack(ks: seq<seq<Val>>, m: map<seq<Val>, real>): Result<seq<(Val, real)>>
    requires forall k :: k in ks ==> k in m
  {
    if ks == [] then Ok([])
    else if |ks[0]| != 1 then Err(ValueError)
    else
      var rest :- Unpack(ks[1..], m);
      Ok([(ks[0][0], m[ks[0]])] + rest)
  }

  /** The unpacked items of a factor's table, in the table's order. */
  function Items(f: Factor): Result<seq<(Val, real)>> {
    Unpack(FirstKeys(f.rows), ToMap(f.rows))
  }

  /** Unpacking succeeds exactly when every key is a 1-tuple, and the dict
      it builds then gives the element of each key the key's entry. */
  lemma {:induction false} UnpackSpec(ks: seq<seq<Val>>, m: map<seq<Val>, real>)
    requires forall k :: k in ks ==> k in m
    ensures Unpack(ks, m).Ok? <==> forall i :: 0 <= i < |ks| ==> |ks[i]| == 1
    ensures Unpack(ks, m).Err? ==> Unpack(ks, m).error == ValueError
    ensures Unpack(ks, m).Ok? ==>
      && |Unpack(ks, m).value| == |ks|
      && forall i :: 0 <= i < |ks| ==> Unpack(ks, m).value[i] == (ks[i][0], m[ks[i]])
  {
    if ks != [] {
      var tail := ks[1..];
      assert forall i :: 0 <= i < |tail| ==> tail[i] == ks[i + 1];
      UnpackSpec(tail, m);
    }
  }

  /** A factor over one variable whose keys are 1-tuples normalises to the
      distribution whose value `k` carries the entry of key `(k,)`. */
  lemma ItemsSpec(f: Factor)
    ensures Items(f).Ok? <==> forall k :: k in ToMap(f.rows) ==> |k| == 1
    ensures Items(f).Err? ==> Items(f).error == ValueError
    ensures Items(f).Ok? ==>
      && (Items(f).value == [] <==> f.rows == [])
      && (forall k :: k in ToMap(f.rows) ==> k[0] in ToMap(Items(f).value) && ToMap(Items(f).value)[k[0]] == ToMap(f.rows)[k])
      && (forall x :: x in ToMap(Items(f).value) ==> [x] in ToMap(f.rows))
  {
    var ks := FirstKeys(f.rows);
    var m := ToMap(f.rows);
    assert forall k :: k in ks <==> k in m;
    UnpackSpec(ks, m);
    if Items(f).Ok? {
      var pairs := Items(f).value;
      if f.rows != [] {
        assert f.rows[0].0 in ks;
      }
      UnpackedLookup(ks, m, pairs);
      forall k | k in m ensures k[0] in ToMap(pairs) && ToMap(pairs)[k[0]] == m[k] {
        var i :| 0 <= i < |ks| && ks[i] == k;
      }
    }
  }

  /** The dict of the unpacked items of distinct 1-tuple keys gives the
      element of each key the key's entry, and has no other key. */
  lemma UnpackedLookup(ks: seq<seq<Val>>, m: map<seq<Val>, real>, pairs: seq<(Val, real)>)
    requires NoDup(ks) && forall k :: k in ks ==> k in m
    requires |pairs| == |ks| && forall i :: 0 <= i < |ks| ==> |ks[i]| == 1 && pairs[i] == (ks[i][0], m[ks[i]])
    ensures forall i :: 0 <= i < |ks| ==> ks[i][0] in ToMap(pairs) && ToMap(pairs)[ks[i][0]] == m[ks[i]]
    ensures forall x :: x in ToMap(pairs) ==> [x] in m
  {
    UnpackedDistinct(ks, m, pairs);
    forall i | 0 <= i < |ks| ensures ks[i][0] in ToMap(pairs) && ToMap(pairs)[ks[i][0]] == m[ks[i]] {
      ToMapAt(pairs, i);
    }
    UnpackedKeys(ks, m, pairs);
  }

  /** Distinct 1-tuples have distinct elements. */
  lemma UnpackedDistinct(ks: seq<seq<Val>>, m: map<seq<Val>, real>, pairs: seq<(Val, real)>)
    requires NoDup(ks) && forall k :: k in ks ==> k in m
    requires |pairs| == |ks| && forall i :: 0 <= i < |ks| ==> |ks[i]| == 1 && pairs[i] == (ks[i][0], m[ks[i]])
    ensures forall a, b :: 0 <= a < b < |pairs| ==> pairs[a].0 != pairs[b].0
  {
    forall a, b | 0 <= a < b < |pairs| ensures pairs[a].0 != pairs[b].0 {
      assert ks[a] == [ks[a][0]] && ks[b] == [ks[b][0]];
    }
  }

  /** Every element of the unpacked dict is that of a 1-tuple key. */
  lemma UnpackedKeys(ks: seq<seq<Val>>, m: map<seq<Val>, real>, pairs: seq<(Val, real)>)
    requires forall k :: k in ks ==> k in m
    requires |pairs| == |ks| && forall i :: 0 <= i < |ks| ==> |ks[i]| == 1 && pairs[i] == (ks[i][0], m[ks[i]])
    ensures forall x :: x in ToMap(pairs) ==> [x] in m
  {
    forall x | x in ToMap(pairs) ensures [x] in m {
      var i :| 0 <= i < |pairs| && pairs[i].0 == x;
      assert ks[i] == [ks[i][0]] && ks[i] in ks;
    }
  }

  /** `f.normalize()`: a factor down to one variable becomes the normalised
      distribution of that variable over the elements of its 1-tuple keys. */
  method FactorNormalize(f: Factor) returns (r: Result<ProbDist<Val>>)
    ensures |f.variables| != 1 ==> r == Err(AssertionError)
    ensures |f.variables| == 1 && Items(f).Err? ==> r == Err(ValueError)
    ensures |f.variables| == 1 && Items(f).Ok? ==>
      var items := Items(f).value;
      && (r.Err? <==> items != [] && Mass(FirstKeys(items), ToMap(items)) == 0.0)
      && (r.Err? ==> r.error == ZeroDivisionError)
      && (r.Ok? ==> fresh(r.value) && r.value.Valid() && r.value.varname == f.variables[0])
      && (r.Ok? ==> r.value.values == FirstKeys(items) && r.value.prob == Normalized(FirstKeys(items), ToMap(items)))
  {
    if |f.variables| != 1 {
      return Err(AssertionError);
    }
    var items := Items(f);
    if items.Err? {
      ItemsSpec(f);
      return Err(ValueError);
    }
    r := ProbDist.FromFreqs(f.variables[0], items.value);
  }
}
