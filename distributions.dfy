/** Discrete distributions: `ProbDist` over the values of one variable and
    `JointProbDist` over value tuples of several, with `event_values`, which
    turns a tuple or a variable-to-value dict into the tuple that keys a joint
    table. */
module Distributions {
  import opened Common

  // ---------------------------------------------------------------------------
  // Masses and normalisation

  /** The sum of the masses `m` gives to the values `vs`, in order. */
  function Mass<V(==)>(vs: seq<V>, m: map<V, real>): real
    requires forall v :: v in vs ==> v in m
  {
    if vs == [] then 0.0 else m[vs[0]] + Mass(vs[1..], m)
  }

  /** Every mass of `m` divided by `t`. */
  function Scaled<V(==)>(m: map<V, real>, t: real): (r: map<V, real>)
    requires t != 0.0
    ensures r.Keys == m.Keys
  {
    map v | v in m :: m[v] / t
  }

  /** The masses `normalize` leaves behind: unchanged when they already sum
      to 1 or when there is nothing to divide, else each over the total. */
  function Normalized<V(==)>(vs: seq<V>, m: map<V, real>): (r: map<V, real>)
    requires forall v :: v in vs ==> v in m
    ensures r.Keys == m.Keys
  {
    var t := Mass(vs, m);
    if t == 1.0 || t == 0.0 then m else Scaled(m, t)
  }

  /** Dividing every mass by `t` divides their sum by `t`. */
  lemma {:induction false} MassScaled<V>(vs: seq<V>, m: map<V, real>, t: real)
    requires t != 0.0
    requires forall v :: v in vs ==> v in m
    ensures Mass(vs, Scaled(m, t)) == Mass(vs, m) / t
  {
    if vs != [] {
      MassScaled(vs[1..], m, t);
    }
  }

  /** After normalisation the masses of a non-empty listing with a non-zero
      total sum to exactly 1. */
  lemma NormalizedSumsToOne<V>(vs: seq<V>, m: map<V, real>)
    requires forall v :: v in vs ==> v in m
    requires Mass(vs, m) != 0.0
    ensures Mass(vs, Normalized(vs, m)) == 1.0
  {
    var t := Mass(vs, m);
    if t != 1.0 {
      MassScaled(vs, m, t);
    }
  }

  /** The distinct keys of a list of (key, value) pairs, in first-occurrence order. */
  function FirstKeys<K(==), W>(pairs: seq<(K, W)>): (ks: seq<K>)
    ensures NoDup(ks)
    ensures forall k :: k in ks ==> exists i :: 0 <= i < |pairs| && pairs[i].0 == k
    ensures forall i :: 0 <= i < |pairs| ==> pairs[i].0 in ks
  {
    if pairs == [] then []
    else
      var ks0 := FirstKeys(pairs[..|pairs| - 1]);
      var k := pairs[|pairs| - 1].0;
      assert forall k' :: k' in ks0 ==> exists i :: 0 <= i < |pairs| && pairs[i].0 == k' by {
        forall k' | k' in ks0 ensures exists i :: 0 <= i < |pairs| && pairs[i].0 == k' {
          var i :| 0 <= i < |pairs| - 1 && pairs[..|pairs| - 1][i].0 == k';
          assert pairs[i].0 == k';
        }
      }
      assert forall i :: 0 <= i < |pairs| - 1 ==> pairs[i].0 in ks0 by {
        forall i | 0 <= i < |pairs| - 1 ensures pairs[i].0 in ks0 {
          assert pairs[..|pairs| - 1][i] == pairs[i];
        }
      }
      if k in ks0 then ks0 else ks0 + [k]
  }

  // ---------------------------------------------------------------------------
  // ProbDist

  /** A discrete distribution of one named variable: a mass per value and the
      values in the order they were first assigned. */
  class ProbDist<V(==)> {
    const varname: string
    var prob: map<V, real>
    var values: seq<V>

    /** `values` lists each key of `prob` exactly once. */
    ghost predicate Valid()
      reads this
    {
      && NoDup(values)
      && (forall v :: v in prob ==> v in values)
      && (forall v :: v in values ==> v in prob)
    }

    constructor (varname: string)
      ensures Valid() && this.varname == varname
      ensures prob == map[] && values == []
    {
      this.varname := varname;
      prob := map[];
      values := [];
    }

    /** The distribution lists the values `vs` and holds their masses `m`
        normalised, summing to 1 when there is at least one. */
    ghost predicate NormalizedFrom(vs: seq<V>, m: map<V, real>)
      reads this
      requires forall v :: v in vs ==> v in m
    {
      && Valid()
      && values == vs
      && prob == Normalized(vs, m)
      && (vs != [] ==> Total() == 1.0)
    }

    /** `P[v]`: the stored mass, or 0 for a value never assigned. */
    function Get(v: V): (p: real)
      reads this
      requires Valid()
      ensures v !in values ==> p == 0.0
      ensures v in values ==> p == prob[v]
    {
      if v in prob then prob[v] else 0.0
    }

    /** The sum of all masses, `sum(self.prob.values())`. */
    function Total(): real
      reads this
      requires Valid()
    {
      Mass(values, prob)
    }

    /** `P[v] = p`: stores the mass and lists `v` once, at the end, if it is new. */
    method Set(v: V, p: real)
      requires Valid()
      modifies this
      ensures Valid()
      ensures prob == old(prob)[v := p]
      ensures values == if v in old(values) then old(values) else old(values) + [v]
      ensures Get(v) == p
    {
      if v !in values {
        values := values + [v];
      }
      prob := prob[v := p];
    }

    /** Divides every mass by the total unless the total is already 1; a zero
        total over at least one value raises ZeroDivisionError at the first
        division, before anything is changed. */
    method Normalize() returns (r: Outcome)
      requires Valid()
      modifies this
      ensures Valid() && values == old(values)
      ensures r.Fail? <==> old(Total()) == 0.0 && values != []
      ensures r.Fail? ==> r.error == ZeroDivisionError && prob == old(prob)
      ensures r.Pass? ==> prob == Normalized(old(values), old(prob))
      ensures r.Pass? && values != [] ==> Total() == 1.0
    {
      var total := Total();
      if total == 1.0 {
        return Pass;
      }
      ghost var before := prob;
      var i := 0;
      while i < |values|
        invariant 0 <= i <= |values|
        invariant Valid() && values == old(values)
        invariant total == 0.0 ==> i == 0
        invariant prob.Keys == before.Keys
        invariant forall j :: 0 <= j < i ==> prob[values[j]] == before[values[j]] / total
        invariant forall j :: i <= j < |values| ==> prob[values[j]] == before[values[j]]
      {
        if total == 0.0 {
          assert prob == before;
          return Fail(ZeroDivisionError);
        }
        prob := prob[values[i] := prob[values[i]] / total];
        i := i + 1;
      }
      if values == [] {
        assert prob == before;
      } else {
        assert prob == Scaled(before, total) by {
          forall v | v in prob ensures prob[v] == before[v] / total {
            var j :| 0 <= j < |values| && values[j] == v;
          }
        }
        NormalizedSumsToOne(values, before);
      }
      r := Pass;
    }

    /** `ProbDist(varname, freqs)`: assigns every frequency in order, then
        normalises when there was at least one. */
    static method FromFreqs(varname: string, freqs: seq<(V, real)>) returns (r: Result<ProbDist<V>>)
      ensures r.Ok? ==> fresh(r.value) && r.value.Valid() && r.value.varname == varname
      ensures r.Ok? ==> r.value.values == FirstKeys(freqs)
      ensures r.Ok? ==> r.value.prob == Normalized(FirstKeys(freqs), ToMap(freqs))
      ensures r.Err? <==> freqs != [] && Mass(FirstKeys(freqs), ToMap(freqs)) == 0.0
      ensures r.Err? ==> r.error == ZeroDivisionError
    {
      var d := new ProbDist(varname);
      if freqs == [] {
        return Ok(d);
      }
      var i := 0;
      while i < |freqs|
        invariant 0 <= i <= |freqs|
        invariant fresh(d) && d.Valid() && d.varname == varname
        invariant d.prob == ToMap(freqs[..i]) && d.values == FirstKeys(freqs[..i])
      {
        d.Set(freqs[i].0, freqs[i].1);
        assert freqs[..i + 1][..i] == freqs[..i];
        i := i + 1;
      }
      assert freqs[..i] == freqs;
      var out := d.Normalize();
      if out.Fail? {
        return Err(out.error);
      }
      return Ok(d);
    }
  }

  // ---------------------------------------------------------------------------
  // Filling a distribution value by value

  /** The masses `h` gives the values `xs`, computed in order; the first value
      whose mass raises makes the whole raise that exception. */
  function Tabulated<V(==)>(xs: seq<V>, h: V -> Result<real>): Result<map<V, real>> {
    if xs == [] then Ok(map[])
    else
      var m :- Tabulated(xs[..|xs| - 1], h);
      var v := xs[|xs| - 1];
      var p :- h(v);
      Ok(m[v := p])
  }

  /** The table succeeds exactly when every mass does, and then maps each
      value of `xs`, and nothing else, to its mass. */
  lemma {:induction false} TabulatedOk<V>(xs: seq<V>, h: V -> Result<real>)
    ensures Tabulated(xs, h).Ok? <==> forall v :: v in xs ==> h(v).Ok?
    ensures Tabulated(xs, h).Ok? ==> forall v :: v in Tabulated(xs, h).value ==> v in xs
    ensures Tabulated(xs, h).Ok? ==> forall v :: v in xs ==> v in Tabulated(xs, h).value && Tabulated(xs, h).value[v] == h(v).value
  {
    if xs != [] {
      var n := |xs| - 1;
      TabulatedOk(xs[..n], h);
      assert xs == xs[..n] + [xs[n]];
    }
  }

  /** A failing table fails with the exception of the first value whose mass raises. */
  lemma {:induction false} TabulatedErr<V>(xs: seq<V>, h: V -> Result<real>)
    requires Tabulated(xs, h).Err?
    ensures exists i :: 0 <= i < |xs| && h(xs[i]) == Err(Tabulated(xs, h).error) && forall j :: 0 <= j < i ==> h(xs[j]).Ok?
  {
    var n := |xs| - 1;
    if Tabulated(xs[..n], h).Err? {
      TabulatedErr(xs[..n], h);
      var i :| 0 <= i < n && h(xs[..n][i]) == Err(Tabulated(xs[..n], h).error) && forall j :: 0 <= j < i ==> h(xs[..n][j]).Ok?;
      assert forall j :: 0 <= j < i ==> xs[..n][j] == xs[j];
    } else {
      TabulatedOk(xs[..n], h);
      assert forall j :: 0 <= j < n ==> xs[j] in xs[..n];
    }
  }

  /** A table failing on a prefix of `xs` fails, the same way, on all of `xs`. */
  lemma {:induction false} TabulatedPrefix<V>(xs: seq<V>, h: V -> Result<real>, i: nat)
    requires i <= |xs| && Tabulated(xs[..i], h).Err?
    ensures Tabulated(xs, h) == Tabulated(xs[..i], h)
  {
    if i < |xs| {
      var n := |xs| - 1;
      assert xs[..n][..i] == xs[..i];
      TabulatedPrefix(xs[..n], h, i);
    } else {
      assert xs[..i] == xs;
    }
  }

  /** The loop `for xi in xs: Q[xi] = h(xi)` of the inference procedures:
      each mass is stored as soon as it is computed, and the first exception
      ends the loop and propagates. On success the distribution lists the
      values of `xs` once each, in first-occurrence order, with their masses. */
  method Fill<V(==)>(q: ProbDist<V>, xs: seq<V>, h: V -> Result<real>) returns (r: Outcome)
    requires q.Valid() && q.values == [] && q.prob == map[]
    modifies q
    ensures q.Valid()
    ensures r.Fail? <==> Tabulated(xs, h).Err?
    ensures r.Fail? ==> r.error == Tabulated(xs, h).error
    ensures r.Pass? ==> q.values == Distinct(xs) && q.prob == Tabulated(xs, h).value
  {
    var i := 0;
    while i < |xs|
      invariant 0 <= i <= |xs|
      invariant q.Valid()
      invariant Tabulated(xs[..i], h).Ok?
      invariant q.values == Distinct(xs[..i]) && q.prob == Tabulated(xs[..i], h).value
    {
      var p := h(xs[i]);
      assert xs[..i + 1][..i] == xs[..i];
      if p.Err? {
        TabulatedPrefix(xs, h, i + 1);
        return Fail(p.error);
      }
      q.Set(xs[i], p.value);
      i := i + 1;
    }
    assert xs[..i] == xs;
    return Pass;
  }

  // ---------------------------------------------------------------------------
  // event_values

  /** An event as the library accepts it: a value tuple, or a dict from
      variable names to values. */
  datatype EventSpec<V> = Tuple(items: seq<V>) | Dict(bindings: map<Var, V>)

  /** The tuple of the values `d` gives the variables, in their order. */
  function Project<V>(d: map<Var, V>, variables: seq<Var>): (r: seq<V>)
    requires forall x :: x in variables ==> x in d
    ensures |r| == |variables|
    ensures forall i :: 0 <= i < |variables| ==> r[i] == d[variables[i]]
  {
    seq(|variables|, i requires 0 <= i < |variables| => d[variables[i]])
  }

  /** `event_values(event, variables)`: a tuple of the right length is returned
      as it is; otherwise the event is indexed by every variable in turn, which
      fails for a dict without one of them (KeyError) and for a tuple indexed
      by a name (TypeError), and gives the empty tuple when there are no
      variables to index by. */
  function EventValues<V>(event: EventSpec<V>, variables: seq<Var>): (r: Result<seq<V>>)
    ensures r.Ok? ==> |r.value| == |variables|
    ensures event.Tuple? ==> (r.Ok? <==> |event.items| == |variables| || variables == [])
    ensures event.Tuple? && |event.items| == |variables| ==> r == Ok(event.items)
    ensures event.Dict? ==> (r.Ok? <==> forall x :: x in variables ==> x in event.bindings)
    ensures event.Dict? && r.Ok? ==> forall i :: 0 <= i < |variables| ==> r.value[i] == event.bindings[variables[i]]
    ensures r.Err? ==> r.error == (if event.Tuple? then TypeError else KeyError)
  {
    match event
    case Tuple(t) =>
      if |t| == |variables| then Ok(t)
      else if variables == [] then Ok([])
      else Err(TypeError)
    case Dict(d) =>
      if forall x :: x in variables ==> x in d then Ok(Project(d, variables)) else Err(KeyError)
  }

  /** A dict and the tuple of its values in variable order name the same key. */
  lemma DictAndTupleAgree<V>(d: map<Var, V>, t: seq<V>, variables: seq<Var>)
    requires |t| == |variables|
    requires forall i :: 0 <= i < |variables| ==> variables[i] in d && d[variables[i]] == t[i]
    ensures EventValues(Dict(d), variables) == EventValues(Tuple(t), variables)
  {
    assert Project(d, variables) == t;
  }

  // ---------------------------------------------------------------------------
  // JointProbDist

  /** The values recorded for `x` (a defaultdict(list): none when absent). */
  function ValuesIn<V>(vals: map<Var, seq<V>>, x: Var): seq<V> {
    if x in vals then vals[x] else []
  }

  /** Records `y` as a value of `x` unless it is already recorded. */
  function Note<V(==)>(vals: map<Var, seq<V>>, x: Var, y: V): map<Var, seq<V>> {
    if y in ValuesIn(vals, x) then vals else vals[x := ValuesIn(vals, x) + [y]]
  }

  /** The bookkeeping loop of `__setitem__`: notes `ys[i]` for `xs[i]`, left to right. */
  function AddSeen<V(==)>(vals: map<Var, seq<V>>, xs: seq<Var>, ys: seq<V>): map<Var, seq<V>>
    requires |xs| == |ys|
  {
    if xs == [] then vals
    else Note(AddSeen(vals, xs[..|xs| - 1], ys[..|ys| - 1]), xs[|xs| - 1], ys[|ys| - 1])
  }

  /** `y` stands at a position of `xs` named `x` in the tuple `ys`. */
  ghost predicate Occurs<V>(xs: seq<Var>, ys: seq<V>, x: Var, y: V) {
    exists i :: 0 <= i < |xs| && i < |ys| && xs[i] == x && ys[i] == y
  }

  lemma OccursSnoc<V>(xs: seq<Var>, ys: seq<V>, x: Var, y: V)
    requires |xs| == |ys| > 0
    ensures Occurs(xs, ys, x, y) <==>
      Occurs(xs[..|xs| - 1], ys[..|ys| - 1], x, y) || (xs[|xs| - 1] == x && ys[|ys| - 1] == y)
  {
    var n := |xs| - 1;
    if Occurs(xs, ys, x, y) {
      var i :| 0 <= i < |xs| && i < |ys| && xs[i] == x && ys[i] == y;
      if i < n {
        assert xs[..n][i] == x && ys[..n][i] == y;
      }
    }
    if Occurs(xs[..n], ys[..n], x, y) {
      var i :| 0 <= i < n && xs[..n][i] == x && ys[..n][i] == y;
      assert xs[i] == x && ys[i] == y;
    }
  }

  /** After the bookkeeping a value is recorded for `x` exactly when it was
      before or the tuple gives it to `x`; lists stay duplicate-free and only grow. */
  lemma {:induction false} AddSeenValues<V>(vals: map<Var, seq<V>>, xs: seq<Var>, ys: seq<V>, x: Var)
    requires |xs| == |ys|
    requires NoDup(ValuesIn(vals, x))
    ensures NoDup(ValuesIn(AddSeen(vals, xs, ys), x))
    ensures ValuesIn(vals, x) <= ValuesIn(AddSeen(vals, xs, ys), x)
    ensures forall y :: y in ValuesIn(AddSeen(vals, xs, ys), x) <==> y in ValuesIn(vals, x) || Occurs(xs, ys, x, y)
  {
    if xs != [] {
      var n := |xs| - 1;
      AddSeenValues(vals, xs[..n], ys[..n], x);
      var prev := AddSeen(vals, xs[..n], ys[..n]);
      if xs[n] == x && ys[n] !in ValuesIn(prev, x) {
        assert ValuesIn(AddSeen(vals, xs, ys), x) == ValuesIn(prev, x) + [ys[n]];
      } else {
        assert ValuesIn(AddSeen(vals, xs, ys), x) == ValuesIn(prev, x);
      }
      forall y ensures Occurs(xs, ys, x, y) <==> Occurs(xs[..n], ys[..n], x, y) || (xs[n] == x && ys[n] == y) {
        OccursSnoc(xs, ys, x, y);
      }
    }
  }

  /** The bookkeeping loop of `__setitem__`, run on a copy of the value lists:
      for each position, the tuple's value is appended to its variable's list
      unless already there. */
  method NoteAll<V(==)>(vals: map<Var, seq<V>>, xs: seq<Var>, ys: seq<V>) returns (seen: map<Var, seq<V>>)
    requires |xs| == |ys|
    ensures seen == AddSeen(vals, xs, ys)
  {
    seen := vals;
    var i := 0;
    while i < |xs|
      invariant 0 <= i <= |xs|
      invariant seen == AddSeen(vals, xs[..i], ys[..i])
    {
      assert xs[..i + 1][..i] == xs[..i] && ys[..i + 1][..i] == ys[..i];
      seen := Note(seen, xs[i], ys[i]);
      i := i + 1;
    }
    assert xs[..i] == xs && ys[..i] == ys;
  }

  /** Recording values for other variables leaves the values of `x` alone. */
  lemma {:induction false} AddSeenElsewhere<V>(vals: map<Var, seq<V>>, xs: seq<Var>, ys: seq<V>, x: Var)
    requires |xs| == |ys| && x !in xs
    ensures ValuesIn(AddSeen(vals, xs, ys), x) == ValuesIn(vals, x)
  {
    if xs != [] {
      assert x !in xs[..|xs| - 1];
      AddSeenElsewhere(vals, xs[..|xs| - 1], ys[..|ys| - 1], x);
    }
  }

  /** The invariant of a joint table, on its parts: `order` lists the keys
      once each, every key has one entry per variable, and `vals[x]` lists,
      once each, every value some key gives to `x`, and nothing for a name
      that is not one of the variables. */
  ghost predicate TableValid<V>(variables: seq<Var>, prob: map<seq<V>, real>, order: seq<seq<V>>, vals: map<Var, seq<V>>) {
    && NoDup(order)
    && (forall k :: k in order ==> k in prob)
    && (forall k :: k in prob ==> k in order)
    && (forall k :: k in prob ==> |k| == |variables|)
    && (forall x :: NoDup(ValuesIn(vals, x)))
    && (forall x :: x !in variables ==> ValuesIn(vals, x) == [])
    && (forall k, i :: k in prob && 0 <= i < |variables| ==> k[i] in ValuesIn(vals, variables[i]))
  }

  /** Storing a mass under a key of the right length keeps the table invariant. */
  lemma StoreKeepsTableValid<V>(variables: seq<Var>, prob: map<seq<V>, real>, order: seq<seq<V>>,
                                vals: map<Var, seq<V>>, key: seq<V>, p: real)
    requires TableValid(variables, prob, order, vals)
    requires |key| == |variables|
    ensures TableValid(variables, prob[key := p], if key in order then order else order + [key],
                       AddSeen(vals, variables, key))
  {
    var prob', vals' := prob[key := p], AddSeen(vals, variables, key);
    forall x ensures NoDup(ValuesIn(vals', x))
      && (forall y :: y in ValuesIn(vals', x) <==> y in ValuesIn(vals, x) || Occurs(variables, key, x, y))
    {
      AddSeenValues(vals, variables, key, x);
    }
    forall x | x !in variables ensures ValuesIn(vals', x) == [] {
      AddSeenElsewhere(vals, variables, key, x);
    }
    forall k, j | k in prob' && 0 <= j < |variables| ensures k[j] in ValuesIn(vals', variables[j]) {
      if k == key {
        assert Occurs(variables, key, variables[j], k[j]);
      } else {
        assert k in prob;
      }
    }
  }

  /** A joint table's lookup, on its variables and masses: the mass of the
      key `event_values` gives, 0 if never set. */
  function TableGet<V(==)>(variables: seq<Var>, prob: map<seq<V>, real>, values: EventSpec<V>): (r: Result<real>)
    ensures r.Err? <==> EventValues(values, variables).Err?
    ensures r.Err? ==> r.error == EventValues(values, variables).error
    ensures r.Ok? ==> r.value == (if EventValues(values, variables).value in prob then prob[EventValues(values, variables).value] else 0.0)
  {
    match EventValues(values, variables)
    case Err(e) => Err(e)
    case Ok(k) => Ok(if k in prob then prob[k] else 0.0)
  }

  /** A joint distribution over a fixed list of variables, keyed by value
      tuples; `vals` records, per variable, the values seen so far. */
  class JointProbDist<V(==)> {
    const variables: seq<Var>
    var prob: map<seq<V>, real>
    var vals: map<Var, seq<V>>
    /** The keys of `prob` in insertion order, as a Python dict keeps them. */
    ghost var order: seq<seq<V>>

    ghost predicate Valid()
      reads this
    {
      TableValid(variables, prob, order, vals)
    }

    constructor (variables: seq<Var>)
      ensures Valid() && this.variables == variables
      ensures prob == map[] && vals == map[] && order == []
    {
      this.variables := variables;
      prob := map[];
      vals := map[];
      order := [];
    }

    /** `P.values(x)`: the values seen for `x`, in first-seen order. */
    function Values(x: Var): (ys: seq<V>)
      reads this
      requires Valid()
      ensures NoDup(ys)
      ensures forall k, i :: k in prob && 0 <= i < |variables| && variables[i] == x ==> k[i] in ys
      ensures x !in variables ==> ys == []
    {
      ValuesIn(vals, x)
    }

    /** `P[values]`: the mass of the key `event_values` gives, 0 if never set. */
    function Get(values: EventSpec<V>): (r: Result<real>)
      reads this
      requires Valid()
      ensures r.Err? <==> EventValues(values, variables).Err?
      ensures r == TableGet(variables, prob, values)
      ensures r.Ok? && r.value != 0.0 ==> EventValues(values, variables).value in prob
    {
      TableGet(variables, prob, values)
    }

    /** `P[values] = p`: stores the mass under the normalised key and records
        each of its values for its variable. */
    method Set(values: EventSpec<V>, p: real) returns (r: Outcome)
      requires Valid()
      modifies this
      ensures Valid()
      ensures r.Fail? <==> EventValues(values, variables).Err?
      ensures r.Fail? ==> r.error == EventValues(values, variables).error
      ensures r.Fail? ==> prob == old(prob) && vals == old(vals)
      ensures r.Pass? ==> prob == old(prob)[EventValues(values, variables).value := p]
      ensures r.Pass? ==> vals == AddSeen(old(vals), variables, EventValues(values, variables).value)
      ensures r.Pass? ==> Get(values) == Ok(p)
      ensures r.Fail? ==> order == old(order)
      ensures r.Pass? ==> var key := EventValues(values, variables).value;
        order == if key in old(order) then old(order) else old(order) + [key]
    {
      var ev := EventValues(values, variables);
      if ev.Err? {
        return Fail(ev.error);
      }
      var key := ev.value;
      var seen := NoteAll(vals, variables, key);
      StoreKeepsTableValid(variables, prob, order, vals, key, p);
      prob := prob[key := p];
      if key !in order {
        order := order + [key];
      }
      vals := seen;
      r := Pass;
    }
  }

  /** The frequencies of the `ProbDist` doctest. */
  function ExampleFreqs(): seq<(string, real)> {
    [("lo", 125.0), ("med", 375.0), ("hi", 500.0)]
  }

  lemma ExampleFreqsKeys()
    ensures FirstKeys(ExampleFreqs()) == ["lo", "med", "hi"]
  {
    var one: seq<(string, real)> := [("lo", 125.0)];
    var two: seq<(string, real)> := [("lo", 125.0), ("med", 375.0)];
    assert one[..0] == [];
    assert FirstKeys(one) == ["lo"];
    assert two[..1] == one;
    assert "med" != "lo";
    assert FirstKeys(two) == ["lo", "med"];
    assert ExampleFreqs()[..2] == two;
    assert "hi" != "lo" && "hi" != "med";
  }

  lemma ExampleFreqsMap()
    ensures ToMap(ExampleFreqs()) == map["lo" := 125.0, "med" := 375.0, "hi" := 500.0]
  {
    var one: seq<(string, real)> := [("lo", 125.0)];
    var two: seq<(string, real)> := [("lo", 125.0), ("med", 375.0)];
    assert one[..0] == [];
    assert two[..1] == one;
    assert ExampleFreqs()[..2] == two;
  }

  lemma ExampleFreqsMass()
    ensures Mass(["lo", "med", "hi"], map["lo" := 125.0, "med" := 375.0, "hi" := 500.0]) == 1000.0
  {
    var m := map["lo" := 125.0, "med" := 375.0, "hi" := 500.0];
    assert ["lo", "med", "hi"][1..] == ["med", "hi"] && ["med", "hi"][1..] == ["hi"];
    assert Mass(["hi"], m) == 500.0;
    assert Mass(["med", "hi"], m) == 875.0;
  }

  /** The doctest of `ProbDist`: frequencies 125, 375 and 500 normalise to
      0.125, 0.375 and 0.5. */
  method FreqsExample() returns (lo: real, med: real, hi: real)
    ensures lo == 0.125 && med == 0.375 && hi == 0.5
  {
    ExampleFreqsKeys();
    ExampleFreqsMap();
    ExampleFreqsMass();
    var r := ProbDist.FromFreqs("X", ExampleFreqs());
    lo, med, hi := r.value.Get("lo"), r.value.Get("med"), r.value.Get("hi");
  }

  /** The doctest of `JointProbDist`: a tuple key and a dict key each read
      back what was stored under them. */
  method JointExample() returns (a: Result<real>, b: Result<real>)
    ensures a == Ok(0.25) && b == Ok(0.5)
  {
    var P := new JointProbDist<int>(["X", "Y"]);
    var _ := P.Set(Tuple([1, 1]), 0.25);
    a := P.Get(Tuple([1, 1]));
    var _ := P.Set(Dict(map["X" := 0, "Y" := 1]), 0.5);
    b := P.Get(Dict(map["X" := 0, "Y" := 1]));
  }

  /** A table over no variables keys every entry by the empty tuple, whatever
      the tuple it is given: `P = JointProbDist([]); P[(1,)] = 0.5` stores 0.5
      under `()`. */
  method NoVariablesExample() returns (a: Result<real>, b: Result<real>)
    ensures a == Ok(0.5) && b == Ok(0.5)
  {
    var P := new JointProbDist<int>([]);
    var _ := P.Set(Tuple([1]), 0.5);
    a := P.Get(Tuple([]));
    b := P.Get(Tuple([7, 7]));
  }
}
