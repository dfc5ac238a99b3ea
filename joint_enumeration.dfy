/** Inference by enumeration over a full joint table: `enumerate_joint`,
    proved equal to the mass of the entries consistent with the evidence, and
    `enumerate_joint_ask`, which normalises those masses over the query's
    values. */
module JointEnumeration {
  import opened Common
  import opened Distributions

  // ---------------------------------------------------------------------------
  // enumerate_joint

  /** `enumerate_joint(variables, e, P)`, on the table's variables, masses
      and seen values: `P[e]` when no variable is left, else the sum over the
      values seen for the first variable, left to right. Reading `P[e]`
      raises KeyError when `e` misses a variable of the table. */
  function EnumerateJoint<V(==)>(vars: seq<Var>, e: map<Var, V>,
                                 variables: seq<Var>, prob: map<seq<V>, real>, vals: map<Var, seq<V>>): (r: Result<real>)
    ensures r.Err? ==> r.error == KeyError
    decreases |vars|, 1, 0
  {
    if vars == [] then TableGet(variables, prob, Dict(e))
    else SumJoint(vars[0], ValuesIn(vals, vars[0]), vars[1..], e, variables, prob, vals)
  }

  /** `sum([enumerate_joint(rest, {**e, Y: y}, P) for y in ys])`. */
  function SumJoint<V(==)>(y: Var, ys: seq<V>, rest: seq<Var>, e: map<Var, V>,
                           variables: seq<Var>, prob: map<seq<V>, real>, vals: map<Var, seq<V>>): (r: Result<real>)
    ensures r.Err? ==> r.error == KeyError
    decreases |rest| + 1, 0, |ys|
  {
    if ys == [] then Ok(0.0)
    else
      var a :- EnumerateJoint(rest, e[y := ys[0]], variables, prob, vals);
      var b :- SumJoint(y, ys[1..], rest, e, variables, prob, vals);
      Ok(a + b)
  }

  // ---------------------------------------------------------------------------
  // The reference: the mass of the consistent entries

  /** A key of the table agrees with `e` on every variable `e` binds. */
  predicate Matches<V(==)>(k: seq<V>, variables: seq<Var>, e: map<Var, V>)
    requires |k| == |variables|
  {
    forall i :: 0 <= i < |variables| && variables[i] in e ==> k[i] == e[variables[i]]
  }

  /** The summed mass of the listed keys that agree with `e`. */
  function MassWhere<V(==)>(keys: seq<seq<V>>, prob: map<seq<V>, real>, variables: seq<Var>, e: map<Var, V>): real
    requires forall k :: k in keys ==> k in prob && |k| == |variables|
  {
    if keys == [] then 0.0
    else (if Matches(keys[0], variables, e) then prob[keys[0]] else 0.0) + MassWhere(keys[1..], prob, variables, e)
  }

  /** The summed mass of the listed keys that agree with `e` and give the
      variable at `iy` one of the values `ws`. */
  function MassIn<V(==)>(keys: seq<seq<V>>, prob: map<seq<V>, real>, variables: seq<Var>, e: map<Var, V>, iy: nat, ws: seq<V>): real
    requires iy < |variables|
    requires forall k :: k in keys ==> k in prob && |k| == |variables|
  {
    if keys == [] then 0.0
    else
      (if Matches(keys[0], variables, e) && keys[0][iy] in ws then prob[keys[0]] else 0.0)
        + MassIn(keys[1..], prob, variables, e, iy, ws)
  }

  /** Binding a variable `e` leaves free, at its only position, narrows the
      agreeing keys to those with that value there. */
  lemma MatchesExtend<V>(k: seq<V>, variables: seq<Var>, e: map<Var, V>, iy: nat, v: V)
    requires |k| == |variables| && iy < |variables| && NoDup(variables) && variables[iy] !in e
    ensures Matches(k, variables, e[variables[iy] := v]) <==> Matches(k, variables, e) && k[iy] == v
  {
    var e' := e[variables[iy] := v];
    if Matches(k, variables, e) && k[iy] == v {
      forall i | 0 <= i < |variables| && variables[i] in e' ensures k[i] == e'[variables[i]] {
        if i != iy {
          assert variables[i] != variables[iy];
        }
      }
    }
  }

  /** Splitting the allowed values into the first and the rest splits the mass. */
  lemma {:induction false} MassInCons<V>(keys: seq<seq<V>>, prob: map<seq<V>, real>, variables: seq<Var>,
                                         e: map<Var, V>, iy: nat, ws: seq<V>)
    requires iy < |variables| && NoDup(variables) && variables[iy] !in e && ws != [] && ws[0] !in ws[1..]
    requires forall k :: k in keys ==> k in prob && |k| == |variables|
    ensures MassIn(keys, prob, variables, e, iy, ws)
         == MassWhere(keys, prob, variables, e[variables[iy] := ws[0]]) + MassIn(keys, prob, variables, e, iy, ws[1..])
  {
    if keys != [] {
      MatchesExtend(keys[0], variables, e, iy, ws[0]);
      MassInCons(keys[1..], prob, variables, e, iy, ws);
    }
  }

  /** No allowed value, no mass. */
  lemma {:induction false} MassInNone<V>(keys: seq<seq<V>>, prob: map<seq<V>, real>, variables: seq<Var>,
                                         e: map<Var, V>, iy: nat)
    requires iy < |variables|
    requires forall k :: k in keys ==> k in prob && |k| == |variables|
    ensures MassIn(keys, prob, variables, e, iy, []) == 0.0
  {
    if keys != [] {
      MassInNone(keys[1..], prob, variables, e, iy);
    }
  }

  /** When the allowed values cover every key's value at `iy`, nothing is excluded. */
  lemma {:induction false} MassInAll<V>(keys: seq<seq<V>>, prob: map<seq<V>, real>, variables: seq<Var>,
                                        e: map<Var, V>, iy: nat, ws: seq<V>)
    requires iy < |variables|
    requires forall k :: k in keys ==> k in prob && |k| == |variables|
    requires forall k :: k in keys ==> k[iy] in ws
    ensures MassIn(keys, prob, variables, e, iy, ws) == MassWhere(keys, prob, variables, e)
  {
    if keys != [] {
      MassInAll(keys[1..], prob, variables, e, iy, ws);
    }
  }

  /** With every variable bound, only the key of the bound values agrees, and
      it is listed at most once. */
  lemma {:induction false} MassWhereOne<V>(keys: seq<seq<V>>, prob: map<seq<V>, real>, variables: seq<Var>,
                                           e: map<Var, V>, key: seq<V>)
    requires forall k :: k in keys ==> k in prob && |k| == |variables|
    requires NoDup(keys)
    requires |key| == |variables| && forall i :: 0 <= i < |variables| ==> variables[i] in e && key[i] == e[variables[i]]
    ensures MassWhere(keys, prob, variables, e) == if key in keys then prob[key] else 0.0
  {
    if keys != [] {
      var k := keys[0];
      NoDupTail(keys);
      MassWhereOne(keys[1..], prob, variables, e, key);
      if Matches(k, variables, e) {
        assert k == key;
      } else {
        assert k != key;
      }
    }
  }

  // ---------------------------------------------------------------------------
  // The theorem

  /** The variables left to enumerate are exactly the table's variables the
      evidence leaves free, each once. */
  ghost predicate Remaining<V>(vars: seq<Var>, e: map<Var, V>, variables: seq<Var>) {
    && NoDup(vars)
    && (forall y :: y in vars ==> y in variables && y !in e)
    && (forall y :: y in variables ==> y in vars || y in e)
  }

  /** The variables after the first, once the first is bound to some value. */
  ghost predicate RemainingAfter<V>(y: Var, rest: seq<Var>, e: map<Var, V>, variables: seq<Var>) {
    && NoDup(rest) && y !in rest && y !in e && y in variables
    && (forall z :: z in rest ==> z in variables && z !in e)
    && (forall z :: z in variables ==> z in rest || z in e || z == y)
  }

  lemma RemainingSplit<V>(vars: seq<Var>, e: map<Var, V>, variables: seq<Var>)
    requires vars != [] && Remaining(vars, e, variables)
    ensures RemainingAfter(vars[0], vars[1..], e, variables)
  {
    assert vars[0] in vars;
    forall a, b | 0 <= a < b < |vars[1..]| ensures vars[1..][a] != vars[1..][b] {
      assert vars[1..][a] == vars[a + 1] && vars[1..][b] == vars[b + 1];
    }
    forall j | 0 <= j < |vars[1..]| ensures vars[1..][j] != vars[0] {
      assert vars[1..][j] == vars[j + 1];
    }
    forall z | z in vars[1..] ensures z in variables && z !in e {
      var j :| 0 <= j < |vars[1..]| && vars[1..][j] == z;
      assert vars[j + 1] == z;
    }
    forall z | z in variables ensures z in vars[1..] || z in e || z == vars[0] {
      if z in vars && z != vars[0] {
        var j :| 0 <= j < |vars| && vars[j] == z;
        assert vars[1..][j - 1] == z;
      }
    }
  }

  lemma RemainingBind<V>(y: Var, rest: seq<Var>, e: map<Var, V>, variables: seq<Var>, v: V)
    requires RemainingAfter(y, rest, e, variables)
    ensures Remaining(rest, e[y := v], variables)
  {
  }

  /** `enumerate_joint` sums the entries of the table consistent with the
      evidence, when its variables are the table's remaining ones. */
  lemma {:induction false} EnumerateJointIsMass<V>(vars: seq<Var>, e: map<Var, V>, variables: seq<Var>,
                                                   prob: map<seq<V>, real>, order: seq<seq<V>>, vals: map<Var, seq<V>>)
    requires TableValid(variables, prob, order, vals) && NoDup(variables) && Remaining(vars, e, variables)
    ensures EnumerateJoint(vars, e, variables, prob, vals) == Ok(MassWhere(order, prob, variables, e))
    decreases |vars|, 1, 0
  {
    if vars == [] {
      var key := Project(e, variables);
      MassWhereOne(order, prob, variables, e, key);
    } else {
      var y := vars[0];
      RemainingSplit(vars, e, variables);
      var iy :| 0 <= iy < |variables| && variables[iy] == y;
      SumJointIsMass(y, iy, ValuesIn(vals, y), vars[1..], e, variables, prob, order, vals);
      MassInAll(order, prob, variables, e, iy, ValuesIn(vals, y));
    }
  }

  lemma {:induction false} SumJointIsMass<V>(y: Var, iy: nat, ys: seq<V>, rest: seq<Var>, e: map<Var, V>, variables: seq<Var>,
                                             prob: map<seq<V>, real>, order: seq<seq<V>>, vals: map<Var, seq<V>>)
    requires TableValid(variables, prob, order, vals) && NoDup(variables)
    requires iy < |variables| && variables[iy] == y && NoDup(ys)
    requires RemainingAfter(y, rest, e, variables)
    ensures SumJoint(y, ys, rest, e, variables, prob, vals) == Ok(MassIn(order, prob, variables, e, iy, ys))
    decreases |rest| + 1, 0, |ys|
  {
    if ys == [] {
      MassInNone(order, prob, variables, e, iy);
    } else {
      RemainingBind(y, rest, e, variables, ys[0]);
      EnumerateJointIsMass(rest, e[y := ys[0]], variables, prob, order, vals);
      NoDupTail(ys);
      SumJointIsMass(y, iy, ys[1..], rest, e, variables, prob, order, vals);
      MassInCons(order, prob, variables, e, iy, ys);
      SumJointStep(y, ys, rest, e, variables, prob, vals, MassWhere(order, prob, variables, e[y := ys[0]]),
                   MassIn(order, prob, variables, e, iy, ys[1..]), MassIn(order, prob, variables, e, iy, ys));
    }
  }

  /** One step of the sum: the first term and the rest add up. */
  lemma SumJointStep<V>(y: Var, ys: seq<V>, rest: seq<Var>, e: map<Var, V>,
                        variables: seq<Var>, prob: map<seq<V>, real>, vals: map<Var, seq<V>>, a: real, b: real, c: real)
    requires ys != [] && c == a + b
    requires EnumerateJoint(rest, e[y := ys[0]], variables, prob, vals) == Ok(a)
    requires SumJoint(y, ys[1..], rest, e, variables, prob, vals) == Ok(b)
    ensures SumJoint(y, ys, rest, e, variables, prob, vals) == Ok(c)
  {
  }

  lemma NoDupTail<T>(s: seq<T>)
    requires s != [] && NoDup(s)
    ensures NoDup(s[1..]) && s[0] !in s[1..]
  {
    forall a, b | 0 <= a < b < |s[1..]| ensures s[1..][a] != s[1..][b] {
      assert s[1..][a] == s[a + 1] && s[1..][b] == s[b + 1];
    }
    forall j | 0 <= j < |s[1..]| ensures s[1..][j] != s[0] {
      assert s[1..][j] == s[j + 1];
    }
  }

  // ---------------------------------------------------------------------------
  // enumerate_joint_ask

  /** The hidden variables of a query: the table's variables other than `x`
      and outside the evidence, in order. */
  function Hidden<V>(variables: seq<Var>, x: Var, e: map<Var, V>): (ys: seq<Var>)
    ensures forall y :: y in ys ==> y in variables && y != x && y !in e
    ensures forall y :: y in variables && y != x && y !in e ==> y in ys
    ensures NoDup(variables) ==> NoDup(ys)
  {
    if variables == [] then []
    else
      var rest := Hidden(variables[1..], x, e);
      assert NoDup(variables) ==> variables[0] !in variables[1..] && NoDup(variables[1..]) by {
        if NoDup(variables) { NoDupTail(variables); }
      }
      if variables[0] != x && variables[0] !in e then [variables[0]] + rest else rest
  }

  /** The query is well posed: `x` is a variable of a table without repeated
      variables, and is not in the evidence. */
  predicate WellPosed<V>(x: Var, e: map<Var, V>, variables: seq<Var>) {
    x !in e && x in variables && NoDup(variables)
  }

  /** The hidden variables are the ones left once `x` is bound too. */
  lemma HiddenRemaining<V>(x: Var, e: map<Var, V>, variables: seq<Var>, v: V)
    requires WellPosed(x, e, variables)
    ensures Remaining(Hidden(variables, x, e), e[x := v], variables)
  {
  }

  /** The mass consistent with the evidence and each value of `xs` for `x`. */
  function JointPosterior<V(==)>(x: Var, e: map<Var, V>, keys: seq<seq<V>>, prob: map<seq<V>, real>, variables: seq<Var>,
                                 xs: seq<V>): (m: map<V, real>)
    requires forall k :: k in keys ==> k in prob && |k| == |variables|
    ensures forall v :: v in xs ==> v in m
  {
    map v | v in xs :: MassWhere(keys, prob, variables, e[x := v])
  }

  /** What the query computes for a value `v` of `x`: `enumerate_joint` of the
      hidden variables with the evidence extended by `x = v`. */
  function JointQuery<V(==)>(x: Var, e: map<Var, V>, hidden: seq<Var>,
                             variables: seq<Var>, prob: map<seq<V>, real>, vals: map<Var, seq<V>>): V -> Result<real> {
    (v: V) => EnumerateJoint(hidden, e[x := v], variables, prob, vals)
  }

  /** The query's column can only fail with a KeyError. */
  lemma JointColumnErr<V>(x: Var, e: map<Var, V>, hidden: seq<Var>, variables: seq<Var>, prob: map<seq<V>, real>,
                          vals: map<Var, seq<V>>, xs: seq<V>)
    ensures Tabulated(xs, JointQuery(x, e, hidden, variables, prob, vals)).Err? ==>
      Tabulated(xs, JointQuery(x, e, hidden, variables, prob, vals)).error == KeyError
  {
    var h := JointQuery(x, e, hidden, variables, prob, vals);
    if Tabulated(xs, h).Err? {
      TabulatedErr(xs, h);
      var i :| 0 <= i < |xs| && h(xs[i]) == Err(Tabulated(xs, h).error) && forall j :: 0 <= j < i ==> h(xs[j]).Ok?;
      assert h(xs[i]) == EnumerateJoint(hidden, e[x := xs[i]], variables, prob, vals);
    }
  }

  /** For a well-posed query the column does not fail and holds the
      consistent mass of each value. */
  lemma JointColumnIsPosterior<V>(x: Var, e: map<Var, V>, variables: seq<Var>, prob: map<seq<V>, real>,
                                  order: seq<seq<V>>, vals: map<Var, seq<V>>, xs: seq<V>)
    requires TableValid(variables, prob, order, vals) && WellPosed(x, e, variables)
    ensures Tabulated(xs, JointQuery(x, e, Hidden(variables, x, e), variables, prob, vals)) == Ok(JointPosterior(x, e, order, prob, variables, xs))
  {
    var hidden := Hidden(variables, x, e);
    var h := JointQuery(x, e, hidden, variables, prob, vals);
    forall v | v in xs
      ensures h(v) == Ok(MassWhere(order, prob, variables, e[x := v]))
    {
      HiddenRemaining(x, e, variables, v);
      EnumerateJointIsMass(hidden, e[x := v], variables, prob, order, vals);
    }
    TabulatedOk(xs, h);
    var m := Tabulated(xs, h).value;
    assert m == JointPosterior(x, e, order, prob, variables, xs);
  }

  /** The column of any query on a valid table: a KeyError at worst, and the
      consistent masses when the query is well posed. */
  lemma JointColumn<V>(x: Var, e: map<Var, V>, variables: seq<Var>, prob: map<seq<V>, real>,
                       order: seq<seq<V>>, vals: map<Var, seq<V>>, xs: seq<V>)
    requires TableValid(variables, prob, order, vals)
    ensures Tabulated(xs, JointQuery(x, e, Hidden(variables, x, e), variables, prob, vals)).Err? ==>
      Tabulated(xs, JointQuery(x, e, Hidden(variables, x, e), variables, prob, vals)).error == KeyError
    ensures WellPosed(x, e, variables) ==>
      Tabulated(xs, JointQuery(x, e, Hidden(variables, x, e), variables, prob, vals)) == Ok(JointPosterior(x, e, order, prob, variables, xs))
  {
    JointColumnErr(x, e, Hidden(variables, x, e), variables, prob, vals, xs);
    if WellPosed(x, e, variables) {
      JointColumnIsPosterior(x, e, variables, prob, order, vals, xs);
    }
  }

  /** `enumerate_joint_ask(X, e, P)`: the query variable must be outside the
      evidence; each value seen for it, in order, gets `enumerate_joint` of
      the hidden variables with the evidence extended by that value, and the
      distribution is normalised. For a well-posed query the answer is the
      normalised mass of the consistent entries. */
  method EnumerateJointAsk<V(==)>(x: Var, e: map<Var, V>, P: JointProbDist<V>) returns (r: Result<ProbDist<V>>)
    requires P.Valid()
    ensures x in e ==> r == Err(AssertionError)
    ensures r.Err? ==> r.error == AssertionError || r.error == KeyError || r.error == ZeroDivisionError
    ensures WellPosed(x, e, P.variables) ==>
      var xs := P.Values(x);
      var m := JointPosterior(x, e, P.order, P.prob, P.variables, xs);
      && (r.Err? <==> xs != [] && Mass(xs, m) == 0.0)
      && (r.Err? ==> r.error == ZeroDivisionError)
      && (r.Ok? ==> fresh(r.value) && r.value.varname == x && r.value.NormalizedFrom(xs, m))
    ensures x !in e && x !in P.variables ==>
      r.Ok? && fresh(r.value) && r.value.varname == x && r.value.values == [] && r.value.prob == map[]
  {
    if x in e {
      return Err(AssertionError);
    }
    var q := new ProbDist<V>(x);
    var hidden := Hidden(P.variables, x, e);
    var xs := P.Values(x);
    var filled := Fill(q, xs, JointQuery(x, e, hidden, P.variables, P.prob, P.vals));
    JointColumn(x, e, P.variables, P.prob, P.order, P.vals, xs);
    if filled.Fail? {
      return Err(filled.error);
    }
    DistinctOfNoDup(xs);
    var out := q.Normalize();
    if out.Fail? {
      return Err(out.error);
    }
    return Ok(q);
  }
  // ---------------------------------------------------------------------------
  // The doctest of `enumerate_joint_ask`

  /** The keys of the doctest's table, in the order they are set. */
  function AskKeys(): seq<seq<int>> {
    [[0, 0], [0, 1], [1, 1], [2, 1]]
  }

  /** The doctest's masses: `P[0,0] = 0.25; P[0,1] = 0.5; P[1,1] = P[2,1] = 0.125`. */
  function AskProb(): map<seq<int>, real> {
    map[[0, 0] := 0.25, [0, 1] := 0.5, [1, 1] := 0.125, [2, 1] := 0.125]
  }

  /** On the doctest's two variables, a key agrees with an event binding
      both exactly when it holds their values. */
  lemma MatchesPair(k: seq<int>, e: map<Var, int>)
    requires |k| == 2 && "X" in e && "Y" in e
    ensures Matches(k, ["X", "Y"], e) <==> k[0] == e["X"] && k[1] == e["Y"]
  {
    var vs := ["X", "Y"];
    assert vs[0] == "X" && vs[1] == "Y";
  }

  /** The mass consistent with `Y = 1` and each value of `X`. */
  lemma AskMasses()
    ensures JointPosterior("X", map["Y" := 1], AskKeys(), AskProb(), ["X", "Y"], [0, 1, 2])
      == map[0 := 0.5, 1 := 0.125, 2 := 0.125]
  {
    var ks, vs := AskKeys(), ["X", "Y"];
    assert ks[1..] == [[0, 1], [1, 1], [2, 1]] && ks[1..][1..] == [[1, 1], [2, 1]];
    assert ks[1..][1..][1..] == [[2, 1]] && ks[1..][1..][1..][1..] == [];
    forall v | v in [0, 1, 2]
      ensures MassWhere(ks, AskProb(), vs, map["Y" := 1]["X" := v])
        == if v == 0 then 0.5 else 0.125
    {
      var e := map["Y" := 1]["X" := v];
      assert e["X"] == v && e["Y"] == 1;
      MatchesPair(ks[0], e);
      MatchesPair(ks[1], e);
      MatchesPair(ks[2], e);
      MatchesPair(ks[3], e);
      assert MassWhere(ks[1..][1..][1..], AskProb(), vs, e) == if v == 2 then 0.125 else 0.0;
      assert MassWhere(ks[1..][1..], AskProb(), vs, e) == if v == 0 then 0.0 else 0.125;
      assert MassWhere(ks[1..], AskProb(), vs, e) == if v == 0 then 0.5 else 0.125;
    }
  }

  /** Normalising those masses, which total 0.75. */
  lemma AskNormalized()
    ensures Normalized([0, 1, 2], map[0 := 0.5, 1 := 0.125, 2 := 0.125])
      == map[0 := 2.0 / 3.0, 1 := 1.0 / 6.0, 2 := 1.0 / 6.0]
  {
    var m := map[0 := 0.5, 1 := 0.125, 2 := 0.125];
    assert [0, 1, 2][1..] == [1, 2] && [1, 2][1..] == [2] && [2][1..] == [];
    assert Mass([0, 1, 2], m) == 0.75;
  }

  /** Recording a key of the doctest's table notes its `X` value, then its `Y` value. */
  lemma SeenPair(vals: map<Var, seq<int>>, x: int, y: int)
    ensures AddSeen(vals, ["X", "Y"], [x, y]) == Note(Note(vals, "X", x), "Y", y)
  {
    assert ["X", "Y"][..1] == ["X"] && [x, y][..1] == [x];
    assert ["X"][..0] == [] && [x][..0] == [];
    assert AddSeen(vals, ["X"], [x]) == Note(vals, "X", x);
  }

  /** Recording a key of a table over `X` and `Y` once both have values:
      each value is appended to its variable's list unless already there. */
  lemma SeenStep(vals: map<Var, seq<int>>, x: int, y: int, xs': seq<int>, ys': seq<int>)
    requires vals.Keys == {"X", "Y"}
    requires xs' == if x in vals["X"] then vals["X"] else vals["X"] + [x]
    requires ys' == if y in vals["Y"] then vals["Y"] else vals["Y"] + [y]
    ensures AddSeen(vals, ["X", "Y"], [x, y]) == map["X" := xs', "Y" := ys']
  {
    assert "X" != "Y" by { assert "X"[0] != "Y"[0]; }
    SeenPair(vals, x, y);
  }

  /** The values each variable takes, noted key by key in insertion order. */
  lemma AskSeen()
    ensures AddSeen(AddSeen(AddSeen(AddSeen(map[], ["X", "Y"], [0, 0]), ["X", "Y"], [0, 1]),
                            ["X", "Y"], [1, 1]), ["X", "Y"], [2, 1])
      == map["X" := [0, 1, 2], "Y" := [0, 1]]
  {
    assert "X" != "Y" by { assert "X"[0] != "Y"[0]; }
    var m0: map<Var, seq<int>> := map[];
    var m1 := map["X" := [0], "Y" := [0]];
    assert AddSeen(m0, ["X", "Y"], [0, 0]) == m1 by {
      SeenPair(m0, 0, 0);
      assert [] + [0] == [0];
      assert Note(m0, "X", 0) == map["X" := [0]];
    }
    assert [0] + [1] == [0, 1] && [0, 1] + [2] == [0, 1, 2];
    SeenStep(m1, 0, 1, [0], [0, 1]);
    SeenStep(map["X" := [0], "Y" := [0, 1]], 1, 1, [0, 1], [0, 1]);
    SeenStep(map["X" := [0, 1], "Y" := [0, 1]], 2, 1, [0, 1, 2], [0, 1]);
  }

  /** `P[x, y] = p` on a table over `X` and `Y`. */
  method SetPair(P: JointProbDist<int>, x: int, y: int, p: real)
    requires P.Valid() && P.variables == ["X", "Y"]
    modifies P
    ensures P.Valid()
    ensures P.prob == old(P.prob)[[x, y] := p]
    ensures P.vals == AddSeen(old(P.vals), ["X", "Y"], [x, y])
    ensures P.order == if [x, y] in old(P.order) then old(P.order) else old(P.order) + [[x, y]]
  {
    var _ := P.Set(Tuple([x, y]), p);
  }

  /** The order of first insertion of the doctest's four keys. */
  lemma AskOrder(o1: seq<seq<int>>, o2: seq<seq<int>>, o3: seq<seq<int>>, o4: seq<seq<int>>)
    requires o1 == if [0, 0] in [] then [] else [[0, 0]]
    requires o2 == if [0, 1] in o1 then o1 else o1 + [[0, 1]]
    requires o3 == if [1, 1] in o2 then o2 else o2 + [[1, 1]]
    requires o4 == if [2, 1] in o3 then o3 else o3 + [[2, 1]]
    ensures o4 == AskKeys()
  {
    assert [0, 1] != [0, 0] by { assert [0, 1][1] != [0, 0][1]; }
    assert [1, 1] !in o2 by { assert [1, 1][0] != [0, 0][0] && [1, 1][0] != [0, 1][0]; }
    assert [2, 1] !in o3 by { assert [2, 1][0] !in {0, 1}; }
  }

  /** The table of the `enumerate_joint_ask` doctest, set key by key. */
  method AskTable() returns (P: JointProbDist<int>)
    ensures fresh(P) && P.Valid() && P.variables == ["X", "Y"]
    ensures P.order == AskKeys() && P.prob == AskProb()
    ensures P.vals == map["X" := [0, 1, 2], "Y" := [0, 1]]
  {
    P := new JointProbDist<int>(["X", "Y"]);
    SetPair(P, 0, 0, 0.25);
    ghost var o1 := P.order;
    SetPair(P, 0, 1, 0.5);
    ghost var o2 := P.order;
    SetPair(P, 1, 1, 0.125);
    ghost var o3 := P.order;
    SetPair(P, 2, 1, 0.125);
    AskOrder(o1, o2, o3, P.order);
    AskSeen();
  }

  /** The doctest of `enumerate_joint_ask`: on the table above, `X` given
      `Y = 1` has the values 0, 1 and 2 with probabilities 2/3, 1/6 and 1/6. */
  method JointAskExample() returns (r: Result<ProbDist<int>>)
    ensures r.Ok? && r.value.varname == "X" && r.value.values == [0, 1, 2]
      && r.value.prob == map[0 := 2.0 / 3.0, 1 := 1.0 / 6.0, 2 := 1.0 / 6.0]
  {
    var P := AskTable();
    assert P.Values("X") == [0, 1, 2];
    AskMasses();
    AskNormalized();
    r := EnumerateJointAsk("X", map["Y" := 1], P);
  }
}
