/** Exact inference by enumeration over a net: `enumerate_all`, proved equal
    to the sum, over every extension of the evidence, of the product of the
    table entries of the listed variables (the chain rule), and
    `enumeration_ask`, which normalises those sums over the query's domain. */
module Enumeration {
  import opened Common
  import opened Distributions
  import opened Network
  import opened Events

  // ---------------------------------------------------------------------------
  // enumerate_all

  /** `enumerate_all(variables, e, bn)`: 1 for no variables; for an evidence
      variable its entry times the rest; for a hidden one the sum over its
      domain. A variable without a node, or a table entry that cannot be
      read, raises. */
  function EnumerateAll(vars: seq<Var>, e: Event, ns: seq<BayesNode>): (r: Result<real>)
    ensures r.Err? ==> r.error == NoSuchVariable || r.error == KeyError
    decreases |vars|, 1, 0
  {
    if vars == [] then Ok(1.0)
    else
      var node :- NodeOf(ns, vars[0]);
      if vars[0] in e then
        var p :- CptP(node.cpt, node.parents, e[vars[0]], e);
        var rest :- EnumerateAll(vars[1..], e, ns);
        Ok(Times(p, rest))
      else
        SumHidden(vars[0], node, node.domain, vars[1..], e, ns)
  }

  /** `sum(Ynode.p(y, e) * enumerate_all(rest, {**e, Y: y}, bn) for y in ys)`,
      the terms evaluated left to right. */
  function SumHidden(y: Var, node: BayesNode, ys: seq<Val>, rest: seq<Var>, e: Event, ns: seq<BayesNode>): (r: Result<real>)
    ensures r.Err? ==> r.error == NoSuchVariable || r.error == KeyError
    decreases |rest| + 1, 0, |ys|
  {
    if ys == [] then Ok(0.0)
    else
      var p :- CptP(node.cpt, node.parents, ys[0], e);
      var sub :- EnumerateAll(rest, e[y := ys[0]], ns);
      var tail :- SumHidden(y, node, ys[1..], rest, e, ns);
      Ok(Times(p, sub) + tail)
  }

  // ---------------------------------------------------------------------------
  // The reference: a sum of chain-rule products

  /** The entry the net gives `y`'s value in `ev`; 0 when it cannot be read. */
  function Cond(ns: seq<BayesNode>, y: Var, ev: Event): real {
    match NodeOf(ns, y)
    case Err(_) => 0.0
    case Ok(node) =>
      if y in ev && CptP(node.cpt, node.parents, ev[y], ev).Ok? then CptP(node.cpt, node.parents, ev[y], ev).value
      else 0.0
  }

  /** The net's entries as a function of a variable and an event. */
  function Entries(ns: seq<BayesNode>): (Var, Event) -> real {
    (y: Var, ev: Event) => Cond(ns, y, ev)
  }

  /** The product of the entries `f` gives the listed variables in `ev`. */
  function Weight(vars: seq<Var>, ev: Event, f: (Var, Event) -> real): real {
    if vars == [] then 1.0 else f(vars[0], ev) * Weight(vars[1..], ev, f)
  }

  /** The weight of each event of a list. */
  function Weights(vars: seq<Var>, evs: seq<Event>, f: (Var, Event) -> real): (ws: seq<real>)
    ensures |ws| == |evs| && forall i :: 0 <= i < |evs| ==> ws[i] == Weight(vars, evs[i], f)
  {
    seq(|evs|, i requires 0 <= i < |evs| => Weight(vars, evs[i], f))
  }

  /** The summed weights of a list of events. */
  function TotalWeight(vars: seq<Var>, evs: seq<Event>, f: (Var, Event) -> real): real {
    Sum(Weights(vars, evs, f))
  }

  /** The domain of a variable of the net, none for a variable without a node. */
  function DomainOrNone(ns: seq<BayesNode>, y: Var): seq<Val> {
    match DomainOf(ns, y)
    case Ok(d) => d
    case Err(_) => []
  }

  /** Every event extending `e` by a value from its domain for each listed
      variable that `e` leaves open. */
  function Extensions(vars: seq<Var>, e: Event, ns: seq<BayesNode>): seq<Event>
    decreases |vars|, 1, 0
  {
    if vars == [] then [e]
    else if vars[0] in e then Extensions(vars[1..], e, ns)
    else ExtendEach(vars[0], DomainOrNone(ns, vars[0]), vars[1..], e, ns)
  }

  /** The extensions of `e` with `y` set to each value of `ys` in turn. */
  function ExtendEach(y: Var, ys: seq<Val>, rest: seq<Var>, e: Event, ns: seq<BayesNode>): seq<Event>
    decreases |rest| + 1, 0, |ys|
  {
    if ys == [] then [] else Extensions(rest, e[y := ys[0]], ns) + ExtendEach(y, ys[1..], rest, e, ns)
  }

  /** The sum over every extension of the evidence of the chain-rule product. */
  function Marginal(vars: seq<Var>, e: Event, ns: seq<BayesNode>): real {
    TotalWeight(vars, Extensions(vars, e, ns), Entries(ns))
  }

  // ---------------------------------------------------------------------------
  // Facts used by the proof

  /** Every extension extends the evidence. */
  lemma {:induction false} ExtensionsExtend(vars: seq<Var>, e: Event, ns: seq<BayesNode>)
    ensures forall ev :: ev in Extensions(vars, e, ns) ==> Extends(ev, e)
    decreases |vars|, 1, 0
  {
    if vars != [] {
      if vars[0] in e {
        ExtensionsExtend(vars[1..], e, ns);
      } else {
        ExtendEachExtend(vars[0], DomainOrNone(ns, vars[0]), vars[1..], e, ns);
      }
    }
  }

  lemma {:induction false} ExtendEachExtend(y: Var, ys: seq<Val>, rest: seq<Var>, e: Event, ns: seq<BayesNode>)
    requires y !in e
    ensures forall ev :: ev in ExtendEach(y, ys, rest, e, ns) ==> Extends(ev, e)
    decreases |rest| + 1, 0, |ys|
  {
    if ys != [] {
      ExtensionsExtend(rest, e[y := ys[0]], ns);
      ExtendEachExtend(y, ys[1..], rest, e, ns);
    }
  }

  /** A table entry that can be read from an event reads the same from any
      event extending it. */
  lemma CptPLocal(cpt: Cpt, parents: seq<Var>, v: Val, e1: Event, e2: Event)
    requires CptP(cpt, parents, v, e1).Ok? && Extends(e2, e1)
    ensures CptP(cpt, parents, v, e2) == CptP(cpt, parents, v, e1)
  {
    assert Project(e2, parents) == Project(e1, parents);
  }

  lemma TotalWeightConcat(vars: seq<Var>, a: seq<Event>, b: seq<Event>, f: (Var, Event) -> real)
    ensures TotalWeight(vars, a + b, f) == TotalWeight(vars, a, f) + TotalWeight(vars, b, f)
  {
    assert Weights(vars, a + b, f) == Weights(vars, a, f) + Weights(vars, b, f);
    SumConcat(Weights(vars, a, f), Weights(vars, b, f));
  }

  /** A first variable whose entry is the same `c` in every event factors out of the sum. */
  lemma TotalWeightFactor(y: Var, rest: seq<Var>, evs: seq<Event>, f: (Var, Event) -> real, c: real)
    requires forall ev :: ev in evs ==> f(y, ev) == c
    ensures TotalWeight([y] + rest, evs, f) == Times(c, TotalWeight(rest, evs, f))
  {
    var a, b := Weights([y] + rest, evs, f), Weights(rest, evs, f);
    assert ([y] + rest)[1..] == rest;
    forall i | 0 <= i < |evs| ensures a[i] == c * b[i] {
      assert evs[i] in evs;
    }
    SumScale(a, b, c);
  }

  /** The entry of a variable the evidence sets is the same in every extension. */
  lemma EntryOfExtensions(y: Var, node: BayesNode, v: Val, rest: seq<Var>, e: Event, ev1: Event, ns: seq<BayesNode>, p: real)
    requires NodeOf(ns, y) == Ok(node) && CptP(node.cpt, node.parents, v, e) == Ok(p)
    requires Extends(ev1, e) && y in ev1 && ev1[y] == v
    ensures forall ev :: ev in Extensions(rest, ev1, ns) ==> Entries(ns)(y, ev) == p
  {
    ExtensionsExtend(rest, ev1, ns);
    forall ev | ev in Extensions(rest, ev1, ns) ensures Entries(ns)(y, ev) == p {
      assert Extends(ev, e);
      CptPLocal(node.cpt, node.parents, v, e, ev);
    }
  }

  /** The extensions of `ev1`, weighted over `y` and then `rest`, when `y`'s
      entry is `p` in each: `p` times the marginal of `rest`. */
  lemma BlockWeight(y: Var, rest: seq<Var>, ev1: Event, ns: seq<BayesNode>, p: real)
    requires forall ev :: ev in Extensions(rest, ev1, ns) ==> Entries(ns)(y, ev) == p
    ensures TotalWeight([y] + rest, Extensions(rest, ev1, ns), Entries(ns)) == Times(p, Marginal(rest, ev1, ns))
  {
    TotalWeightFactor(y, rest, Extensions(rest, ev1, ns), Entries(ns), p);
  }

  // ---------------------------------------------------------------------------
  // The theorem

  /** `enumerate_all` computes the marginal: the sum over every extension of
      the evidence of the product of the listed variables' entries. */
  lemma {:induction false} EnumerateAllIsMarginal(vars: seq<Var>, e: Event, ns: seq<BayesNode>)
    requires EnumerateAll(vars, e, ns).Ok?
    ensures EnumerateAll(vars, e, ns).value == Marginal(vars, e, ns)
    decreases |vars|, 1, 0
  {
    if vars == [] {
      assert Weights(vars, [e], Entries(ns)) == [1.0];
      assert Sum([1.0]) == 1.0 + Sum([]);
    } else {
      var y, rest := vars[0], vars[1..];
      var node := NodeOf(ns, y).value;
      assert vars == [y] + rest;
      if y in e {
        EnumerateAllIsMarginal(rest, e, ns);
        var p := CptP(node.cpt, node.parents, e[y], e).value;
        EntryOfExtensions(y, node, e[y], rest, e, e, ns, p);
        BlockWeight(y, rest, e, ns, p);
      } else {
        assert DomainOrNone(ns, y) == node.domain;
        SumHiddenIsMarginal(y, node, node.domain, rest, e, ns);
      }
    }
  }

  lemma {:induction false} SumHiddenIsMarginal(y: Var, node: BayesNode, ys: seq<Val>, rest: seq<Var>,
                                               e: Event, ns: seq<BayesNode>)
    requires NodeOf(ns, y) == Ok(node) && y !in e
    requires SumHidden(y, node, ys, rest, e, ns).Ok?
    ensures SumHidden(y, node, ys, rest, e, ns).value == TotalWeight([y] + rest, ExtendEach(y, ys, rest, e, ns), Entries(ns))
    decreases |rest| + 1, 0, |ys|
  {
    if ys != [] {
      var v := ys[0];
      var ev1 := e[y := v];
      EnumerateAllIsMarginal(rest, ev1, ns);
      SumHiddenIsMarginal(y, node, ys[1..], rest, e, ns);
      var p := CptP(node.cpt, node.parents, v, e).value;
      EntryOfExtensions(y, node, v, rest, e, ev1, ns, p);
      BlockWeight(y, rest, ev1, ns, p);
      TotalWeightConcat([y] + rest, Extensions(rest, ev1, ns), ExtendEach(y, ys[1..], rest, e, ns), Entries(ns));
    }
  }

  // ---------------------------------------------------------------------------
  // enumeration_ask

  /** What the query computes for a value `v` of `x`: `enumerate_all` of
      `vars` with the evidence extended by `x = v`. */
  function Query(x: Var, e: Event, vars: seq<Var>, ns: seq<BayesNode>): Val -> Result<real> {
    (v: Val) => EnumerateAll(vars, e[x := v], ns)
  }

  /** The marginal of each value of `xs` for the query variable `x`. */
  function Posterior(x: Var, e: Event, vars: seq<Var>, ns: seq<BayesNode>, xs: seq<Val>): (m: map<Val, real>)
    ensures forall v :: v in xs ==> v in m
  {
    map v | v in xs :: Marginal(vars, e[x := v], ns)
  }

  /** The query's column fails only as `enumerate_all` does, and otherwise
      holds exactly the marginals of the values. */
  lemma ColumnIsPosterior(x: Var, e: Event, vars: seq<Var>, ns: seq<BayesNode>, xs: seq<Val>)
    ensures Tabulated(xs, Query(x, e, vars, ns)).Err? ==>
      Tabulated(xs, Query(x, e, vars, ns)).error in {NoSuchVariable, KeyError}
    ensures Tabulated(xs, Query(x, e, vars, ns)).Ok? ==>
      Tabulated(xs, Query(x, e, vars, ns)).value == Posterior(x, e, vars, ns, xs)
  {
    var h := Query(x, e, vars, ns);
    TabulatedOk(xs, h);
    if Tabulated(xs, h).Err? {
      TabulatedErr(xs, h);
      var i :| 0 <= i < |xs| && h(xs[i]) == Err(Tabulated(xs, h).error) && forall j :: 0 <= j < i ==> h(xs[j]).Ok?;
      assert h(xs[i]) == EnumerateAll(vars, e[x := xs[i]], ns);
    } else {
      forall v | v in xs
        ensures Tabulated(xs, h).value[v] == Marginal(vars, e[x := v], ns)
      {
        EnumerateAllIsMarginal(vars, e[x := v], ns);
      }
    }
  }

  /** The column the query needs: the query variable outside the evidence,
      its domain, and `enumerate_all` for each value, in order. */
  function AskColumn(x: Var, e: Event, vars: seq<Var>, ns: seq<BayesNode>): (r: Result<map<Val, real>>)
    ensures x in e ==> r == Err(AssertionError)
    ensures x !in e && x !in VarsOf(ns) ==> r == Err(NoSuchVariable)
    ensures x !in e && x in VarsOf(ns) ==> r == Tabulated(DomainOf(ns, x).value, Query(x, e, vars, ns))
  {
    if x in e then Err(AssertionError)
    else
      var xs :- DomainOf(ns, x);
      Tabulated(xs, Query(x, e, vars, ns))
  }

  /** `enumeration_ask(X, e, bn)`: the query variable must be outside the
      evidence; each value of its domain, in order, gets `enumerate_all` of
      the net's variables with the evidence extended by that value, and the
      distribution is normalised. The answer is the normalised marginals. */
  method EnumerationAsk(x: Var, e: Event, bn: BayesNet) returns (r: Result<ProbDist<Val>>)
    ensures AskColumn(x, e, bn.variables, bn.nodes).Err? ==> r == Err(AskColumn(x, e, bn.variables, bn.nodes).error)
    ensures AskColumn(x, e, bn.variables, bn.nodes).Ok? ==>
      var xs := DomainOf(bn.nodes, x).value;
      var m := Posterior(x, e, bn.variables, bn.nodes, xs);
      && (r.Err? <==> xs != [] && Mass(Distinct(xs), m) == 0.0)
      && (r.Err? ==> r.error == ZeroDivisionError)
      && (r.Ok? ==> fresh(r.value) && r.value.varname == x && r.value.NormalizedFrom(Distinct(xs), m))
  {
    if x in e {
      return Err(AssertionError);
    }
    var q := new ProbDist<Val>(x);
    var xs :- bn.VariableValues(x);
    var filled := Fill(q, xs, Query(x, e, bn.variables, bn.nodes));
    if filled.Fail? {
      return Err(filled.error);
    }
    ColumnIsPosterior(x, e, bn.variables, bn.nodes, xs);
    var out := q.Normalize();
    if out.Fail? {
      return Err(out.error);
    }
    return Ok(q);
  }
}
