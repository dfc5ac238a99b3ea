/** Variable elimination: `elimination_ask` and the module-level `sum_out`
    and `is_hidden` of the probability module. */
module Elimination {
  import opened Common
  import opened Distributions
  import opened Network
  import opened Factors

  // ---------------------------------------------------------------------------
  // is_hidden

  /** The query of `is_hidden`: one variable, or a list of them. */
  datatype Query = Single(x: Var) | Several(xs: seq<Var>)

  /** The variables a query asks about. */
  function Names(q: Query): seq<Var> {
    match q
    case Single(x) => [x]
    case Several(xs) => xs
  }

  /** `is_hidden(var, X, e)`: a variable is hidden exactly when it is neither
      asked about nor observed. */
  function IsHidden(v: Var, q: Query, e: Event): (r: bool)
    ensures r <==> v !in Names(q) && v !in e
  {
    match q
    case Several(xs) => v !in xs && v !in e
    case Single(x) => v != x && v !in e
  }

  // ---------------------------------------------------------------------------
  // sum_out

  /** The factors that do not mention `v`, in order. */
  function Untouched(fs: seq<Factor>, v: Var): seq<Factor> {
    if fs == [] then []
    else
      var last := fs[|fs| - 1];
      Untouched(fs[..|fs| - 1], v) + (if v in last.variables then [] else [last])
  }

  /** The factors that mention `v`, in order. */
  function Mentioning(fs: seq<Factor>, v: Var): seq<Factor> {
    if fs == [] then []
    else
      var last := fs[|fs| - 1];
      Mentioning(fs[..|fs| - 1], v) + (if v in last.variables then [last] else [])
  }

  /** The two lists split the factors between them: each factor lands in
      exactly one of them, as often as it occurs. */
  lemma {:induction false} Partition(fs: seq<Factor>, v: Var)
    ensures multiset(Untouched(fs, v)) + multiset(Mentioning(fs, v)) == multiset(fs)
    ensures forall f :: f in Untouched(fs, v) ==> v !in f.variables
    ensures forall f :: f in Mentioning(fs, v) ==> v in f.variables
  {
    if fs != [] {
      var n := |fs| - 1;
      Partition(fs[..n], v);
      assert fs == fs[..n] + [fs[n]];
    }
  }

  /** `VarsIn` distributes over concatenation. */
  lemma {:induction false} VarsInConcat(a: seq<Factor>, b: seq<Factor>)
    ensures VarsIn(a + b) == VarsIn(a) + VarsIn(b)
  {
    if b == [] {
      assert a + b == a;
    } else {
      var n := |b| - 1;
      assert (a + b)[..|a + b| - 1] == a + b[..n];
      VarsInConcat(a, b[..n]);
    }
  }

  /** The untouched factors and the factors mentioning `v` together mention
      the variables of all factors, and the untouched ones never `v`. */
  lemma {:induction false} PartitionVars(fs: seq<Factor>, v: Var)
    ensures VarsIn(fs) == VarsIn(Untouched(fs, v)) + VarsIn(Mentioning(fs, v))
    ensures v !in VarsIn(Untouched(fs, v))
  {
    if fs != [] {
      var n := |fs| - 1;
      var last := fs[n];
      PartitionVars(fs[..n], v);
      var u := if v in last.variables then [] else [last];
      var m := if v in last.variables then [last] else [];
      VarsInConcat(Untouched(fs[..n], v), u);
      VarsInConcat(Mentioning(fs[..n], v), m);
      assert [last][..0] == [];
    }
  }

  /** What `sum_out(var, factors, bn)` returns: the factors that do not
      mention `var`, followed by the product of those that do with `var`
      summed out. */
  function Eliminated(v: Var, fs: seq<Factor>, ns: seq<BayesNode>): Result<seq<Factor>> {
    var p :- ProductAll(Mentioning(fs, v), ns);
    var s :- FactorSumOut(p, v, ns);
    Ok(Untouched(fs, v) + [s])
  }

  /** Summing out removes `v` and keeps every other variable; it is a
      TypeError exactly when no factor mentions `v`. */
  lemma EliminatedSpec(v: Var, fs: seq<Factor>, ns: seq<BayesNode>)
    ensures Eliminated(v, fs, ns) == Err(TypeError) <==> Mentioning(fs, v) == []
    ensures Eliminated(v, fs, ns).Err? ==> Eliminated(v, fs, ns).error in {TypeError, NoSuchVariable, KeyError}
    ensures Eliminated(v, fs, ns).Ok? ==> VarsIn(Eliminated(v, fs, ns).value) == VarsIn(fs) - {v}
    ensures Eliminated(v, fs, ns).Ok? ==> Eliminated(v, fs, ns).value != []
  {
    var ms := Mentioning(fs, v);
    ProductAllSpec(ms, ns);
    if ProductAll(ms, ns).Ok? {
      var p := ProductAll(ms, ns).value;
      FactorSumOutSpec(p, v, ns);
      if FactorSumOut(p, v, ns).Ok? {
        var s := FactorSumOut(p, v, ns).value;
        PartitionVars(fs, v);
        VarsInConcat(Untouched(fs, v), [s]);
        assert [s][..0] == [];
        assert VarsIn([s]) == VarSet(s.variables);
      }
    }
  }

  /** `sum_out(var, factors, bn)`: one pass splits the factors, then the
      product of those mentioning `var` is summed over it. */
  method SumOut(v: Var, fs: seq<Factor>, ns: seq<BayesNode>) returns (r: Result<seq<Factor>>)
    ensures r == Eliminated(v, fs, ns)
  {
    var result: seq<Factor> := [];
    var varFactors: seq<Factor> := [];
    var i := 0;
    while i < |fs|
      invariant 0 <= i <= |fs|
      invariant result == Untouched(fs[..i], v) && varFactors == Mentioning(fs[..i], v)
    {
      assert fs[..i + 1][..i] == fs[..i];
      if v in fs[i].variables {
        varFactors := varFactors + [fs[i]];
      } else {
        result := result + [fs[i]];
      }
      i := i + 1;
    }
    assert fs[..i] == fs;
    var p :- ProductAll(varFactors, ns);
    var s :- FactorSumOut(p, v, ns);
    return Ok(result + [s]);
  }

  // ---------------------------------------------------------------------------
  // elimination_ask

  /** The factor made for the node at position `i` of a well-formed net
      mentions only that variable and earlier ones, none of them observed,
      and mentions the variable itself unless it is observed. */
  lemma MadeFactorVars(v: Var, e: Event, ns: seq<BayesNode>, i: nat)
    requires WellFormed(ns) && i < |ns| && VarsOf(ns)[i] == v
    requires MakeFactor(v, e, ns).Ok?
    ensures VarSet(MakeFactor(v, e, ns).value.variables) <= VarSet(VarsOf(ns)[..i]) + {v}
    ensures VarSet(MakeFactor(v, e, ns).value.variables) !! e.Keys
    ensures v !in e ==> v in MakeFactor(v, e, ns).value.variables
  {
    NodeOfAt(ns, i);
    MakeFactorVars(v, e, ns);
    assert forall x :: x in ns[i].parents ==> x in VarsOf(ns)[..i];
  }

  /** Adding a factor adds its variables. */
  lemma VarsInSnoc(fs: seq<Factor>, f: Factor)
    ensures VarsIn(fs + [f]) == VarsIn(fs) + VarSet(f.variables)
  {
    assert (fs + [f])[..|fs|] == fs;
  }

  /** What holds of the factors once the variables from position `i` on have
      been processed: they mention no observed variable, only the query
      variable and unprocessed ones, the query variable once it has been
      processed, and there is at least one once a variable has been. */
  ghost predicate Pending(factors: seq<Factor>, vars: seq<Var>, i: nat, X: Var, e: Event)
    requires i <= |vars|
  {
    && VarsIn(factors) <= VarSet(vars[..i]) + {X}
    && VarsIn(factors) <= VarSet(vars)
    && VarsIn(factors) !! e.Keys
    && (X in vars[i..] ==> X in VarsIn(factors))
    && (i < |vars| ==> factors != [])
  }

  /** Positions of a list split at `i`, as sets. */
  lemma SplitAt(vars: seq<Var>, i: nat)
    requires i < |vars|
    ensures VarSet(vars[..i + 1]) == VarSet(vars[..i]) + {vars[i]}
    ensures VarSet(vars[i..]) == VarSet(vars[i + 1..]) + {vars[i]}
    ensures VarSet(vars[..i]) <= VarSet(vars) && vars[i] in VarSet(vars)
  {
    assert vars[..i + 1] == vars[..i] + [vars[i]];
    assert vars[i..] == [vars[i]] + vars[i + 1..];
  }

  /** One step of `elimination_ask` for a variable that is not hidden:
      adding a factor over it and earlier variables, none observed, keeps
      `Pending` one position earlier. */
  lemma StepKept(X: Var, e: Event, vars: seq<Var>, i: nat, factors: seq<Factor>, f: Factor)
    requires i < |vars| && X !in e
    requires Pending(factors, vars, i + 1, X, e)
    requires VarSet(f.variables) <= VarSet(vars[..i]) + {vars[i]} && VarSet(f.variables) !! e.Keys
    requires vars[i] !in e ==> vars[i] in f.variables
    requires !IsHidden(vars[i], Single(X), e)
    ensures Pending(factors + [f], vars, i, X, e)
  {
    SplitAt(vars, i);
    VarsInSnoc(factors, f);
  }

  /** One step of `elimination_ask` for a hidden variable: once a factor
      over it is added, summing it out keeps `Pending` one position
      earlier. */
  lemma StepHidden(X: Var, e: Event, vars: seq<Var>, i: nat, factors: seq<Factor>, f: Factor, result: seq<Factor>)
    requires i < |vars| && X !in e
    requires Pending(factors, vars, i + 1, X, e)
    requires VarSet(f.variables) <= VarSet(vars[..i]) + {vars[i]} && VarSet(f.variables) !! e.Keys
    requires IsHidden(vars[i], Single(X), e)
    requires VarsIn(result) == VarsIn(factors + [f]) - {vars[i]} && result != []
    ensures Pending(result, vars, i, X, e)
  {
    SplitAt(vars, i);
    VarsInSnoc(factors, f);
  }

  /** A factor that mentions `v` is among those that do. */
  lemma MentionedBy(fs: seq<Factor>, v: Var, k: nat)
    requires k < |fs| && v in fs[k].variables
    ensures Mentioning(fs, v) != []
  {
    Partition(fs, v);
    assert fs[k] in multiset(fs);
  }

  /** Once every variable has been processed, the product of the factors
      mentions the query variable alone, and nothing at all when the query
      variable is not in the net. */
  lemma Finished(X: Var, e: Event, vars: seq<Var>, factors: seq<Factor>, p: Factor)
    requires Pending(factors, vars, 0, X, e)
    requires forall x :: x in p.variables <==> x in VarsIn(factors)
    ensures |p.variables| == 1 ==> p.variables[0] == X && X in vars
  {
    assert vars[..0] == [];
    if |p.variables| == 1 {
      assert p.variables[0] in VarsIn(factors);
    }
  }

  /** `elimination_ask(X, e, bn)`: the factors of the variables, taken in
      reverse topological order, with every hidden variable summed out as
      soon as its factor is added; the product of what remains, normalised.
      A variable outside the net has no distribution; in a net with a
      variable the reduction never runs out of factors; a result is a
      distribution of `X` that sums to one. */
  method EliminationAsk(X: Var, e: Event, bn: BayesNet) returns (r: Result<ProbDist<Val>>)
    requires bn.Valid()
    ensures X in e ==> r == Err(AssertionError)
    ensures X !in bn.variables ==> r.Err?
    ensures bn.variables != [] ==> r != Err(TypeError)
    ensures r.Ok? ==> fresh(r.value) && r.value.Valid() && r.value.varname == X
    ensures r.Ok? && r.value.values != [] ==> r.value.Total() == 1.0
  {
    if X in e {
      return Err(AssertionError);
    }
    var vars := bn.variables;
    var ns := bn.nodes;
    assert WellFormed(ns) && vars == VarsOf(ns);
    var factors: seq<Factor> := [];
    var i := |vars|;
    while i > 0
      invariant 0 <= i <= |vars|
      invariant Pending(factors, vars, i, X, e)
    {
      i := i - 1;
      var v := vars[i];
      var made := MakeFactor(v, e, ns);
      if made.Err? {
        MakeFactorFails(v, e, ns);
        return Err(made.error);
      }
      var f := made.value;
      MadeFactorVars(v, e, ns, i);
      if IsHidden(v, Single(X), e) {
        MentionedBy(factors + [f], v, |factors|);
        EliminatedSpec(v, factors + [f], ns);
        var result :- SumOut(v, factors + [f], ns);
        StepHidden(X, e, vars, i, factors, f, result);
        factors := result;
      } else {
        StepKept(X, e, vars, i, factors, f);
        factors := factors + [f];
      }
    }
    ProductAllSpec(factors, ns);
    var product := ProductAll(factors, ns);
    if product.Err? {
      return Err(product.error);
    }
    var p := product.value;
    Finished(X, e, vars, factors, p);
    r := FactorNormalize(p);
    if r.Ok? && r.value.values != [] {
      ItemsSpec(p);
      NormalizedSumsToOne(FirstKeys(Items(p).value), ToMap(Items(p).value));
    }
  }
}
