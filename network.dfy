/** The Bayesian-network data model: conditional probability tables, the
    boolean table shorthands, nodes, and the net that keeps its nodes in
    topological order and records each node's children. */
module Network {
  import opened Common
  import opened Distributions

  /** A value of a network variable. Python's booleans are the integers 0
      (False) and 1 (True): they hash, compare and sort as those integers, so
      a table row `{True: p, False: 1 - p}` is the row `{1: p, 0: 1 - p}`. */
  type Val = int

  /** An assignment of values to variables (a Python dict). */
  type Event = map<Var, Val>

  /** A conditional probability table: parent-value tuple -> value -> probability. */
  type Cpt = map<seq<Val>, map<Val, real>>

  function FromBool(b: bool): Val {
    if b then 1 else 0
  }

  // ---------------------------------------------------------------------------
  // Domains

  /** `determine_domain`: the key set shared by every row; an empty table
      fails on its missing first row, rows with different keys fail the assert. */
  function DetermineDomain(cpt: Cpt): (r: Result<set<Val>>)
    ensures r.Ok? <==> cpt != map[] && forall k1, k2 :: k1 in cpt && k2 in cpt ==> cpt[k1].Keys == cpt[k2].Keys
    ensures r.Ok? ==> forall k :: k in cpt ==> cpt[k].Keys == r.value
    ensures r.Err? ==> r.error == (if cpt == map[] then AttributeError else AssertionError)
  {
    if cpt == map[] then Err(AttributeError)
    else
      var keys := set k, x | k in cpt && x in cpt[k] :: x;
      RowKeysUnion(cpt, keys);
      if forall k :: k in cpt ==> cpt[k].Keys == keys then Ok(keys) else Err(AssertionError)
  }

  /** Rows that all share their keys share them with the union of all rows. */
  lemma RowKeysUnion(cpt: Cpt, keys: set<Val>)
    requires keys == set k, x | k in cpt && x in cpt[k] :: x
    ensures (forall k1, k2 :: k1 in cpt && k2 in cpt ==> cpt[k1].Keys == cpt[k2].Keys) ==>
      forall k :: k in cpt ==> cpt[k].Keys == keys
  {
    if forall k1, k2 :: k1 in cpt && k2 in cpt ==> cpt[k1].Keys == cpt[k2].Keys {
      forall k | k in cpt ensures cpt[k].Keys == keys {
        forall x | x in keys ensures x in cpt[k] {
          var k' :| k' in cpt && x in cpt[k'];
        }
        forall x | x in cpt[k] ensures x in keys {
          assert k in cpt && x in cpt[k];
        }
      }
    }
  }

  /** A set of values without elements is the empty set. */
  lemma NoElementEmpty(s: set<Val>)
    ensures (forall y :: y !in s) ==> s == {}
  {
    if forall y :: y !in s {
      assert s <= {} && {} <= s;
    }
  }

  lemma {:induction false} MinExists(s: set<int>)
    requires s != {}
    ensures exists m :: m in s && forall x :: x in s ==> m <= x
  {
    NoElementEmpty(s);
    var y :| y in s;
    if s != {y} {
      MinExists(s - {y});
      var m :| m in s - {y} && forall x :: x in s - {y} ==> m <= x;
      var least := if y < m then y else m;
      forall x | x in s ensures least <= x {
        if x != y { assert x in s - {y}; }
      }
    } else {
      assert forall x :: x in s ==> y <= x;
    }
  }

  function MinOf(s: set<int>): (m: int)
    requires s != {}
    ensures m in s && forall x :: x in s ==> m <= x
  {
    MinExists(s);
    var m :| m in s && forall x :: x in s ==> m <= x; m
  }

  /** Python's `sorted` of a set of integers: strictly increasing, same elements. */
  function SortedDomain(s: set<Val>): (r: seq<Val>)
    ensures forall i, j :: 0 <= i < j < |r| ==> r[i] < r[j]
    ensures forall x :: x in r ==> x in s
    ensures forall x :: x in s ==> x in r
    ensures |r| == |s|
    decreases s
  {
    if s == {} then []
    else
      var m := MinOf(s);
      [m] + SortedDomain(s - {m})
  }

  // ---------------------------------------------------------------------------
  // The boolean table shorthands (BoolBayesNode._init_boolean_cpt)

  /** A key of a table as the caller wrote it: a bool, a number or a tuple. */
  datatype Key = KBool(b: bool) | KInt(i: int) | KTuple(items: seq<Key>)

  /** What a boolean node accepts for its table: a bare probability, or a dict
      (as its key/probability pairs in insertion order) keyed either by one
      parent's bool or by parent-value tuples. */
  datatype Shorthand = Number(p: real) | Table(entries: seq<(Key, real)>)

  /** The canonical row `{True: p, False: 1 - p}`. */
  function BoolRow(p: real): (row: map<Val, real>)
    ensures row.Keys == {0, 1} && row[1] == p && row[0] + row[1] == 1.0
  {
    map[1 := p, 0 := 1.0 - p]
  }

  /** What the validation accepts as a key: a tuple of `n` bools. */
  predicate IsBoolTuple(k: Key, n: nat) {
    k.KTuple? && |k.items| == n && forall i :: 0 <= i < n ==> k.items[i].KBool?
  }

  /** A tuple of bools as network values. */
  function BoolsOf(k: Key): (vs: seq<Val>)
    requires k.KTuple? && forall i :: 0 <= i < |k.items| ==> k.items[i].KBool?
    ensures |vs| == |k.items|
    ensures forall i :: 0 <= i < |vs| ==> vs[i] == FromBool(k.items[i].b)
  {
    seq(|k.items|, i requires 0 <= i < |k.items| => FromBool(k.items[i].b))
  }

  lemma BoolsOfInjective(k1: Key, k2: Key)
    requires k1.KTuple? && forall i :: 0 <= i < |k1.items| ==> k1.items[i].KBool?
    requires k2.KTuple? && forall i :: 0 <= i < |k2.items| ==> k2.items[i].KBool?
    requires BoolsOf(k1) == BoolsOf(k2)
    ensures k1 == k2
  {
    assert |k1.items| == |k2.items|;
    forall i | 0 <= i < |k1.items| ensures k1.items[i] == k2.items[i] {
      assert FromBool(k1.items[i].b) == FromBool(k2.items[i].b);
    }
    assert k1.items == k2.items;
  }

  /** The dict the shorthand expands to, before validation: a dict whose
      first key is a bool has every key `v` wrapped into the 1-tuple `(v,)`. */
  function Expand(entries: seq<(Key, real)>): map<Key, real> {
    if |entries| > 0 && entries[0].0.KBool? then
      ToMap(seq(|entries|, i requires 0 <= i < |entries| => (KTuple([entries[i].0]), entries[i].1)))
    else
      ToMap(entries)
  }

  /** The two asserts of the normaliser: every key is a tuple of `n` bools and
      every probability lies in [0, 1]. */
  predicate Validated(t: map<Key, real>, n: nat) {
    forall k :: k in t ==> IsBoolTuple(k, n) && 0.0 <= t[k] <= 1.0
  }

  /** The validated dict with each tuple of bools as a key of values and each
      probability `p` as the row `{True: p, False: 1 - p}`. */
  function Canonical(t: map<Key, real>, n: nat): (c: Cpt)
    requires Validated(t, n)
    ensures forall k :: k in t ==> BoolsOf(k) in c && c[BoolsOf(k)] == BoolRow(t[k])
    ensures forall v :: v in c ==>
      && |v| == n
      && (forall i :: 0 <= i < n ==> v[i] == 0 || v[i] == 1)
      && 1 in c[v] && 0.0 <= c[v][1] <= 1.0
      && c[v] == BoolRow(c[v][1])
  {
    CanonicalRows(t, n);
    CanonicalShape(t, n);
    Rewrap(t)
  }

  /** Each tuple key rewritten as values, each probability as its row. */
  function Rewrap(t: map<Key, real>): Cpt
    requires forall k :: k in t ==> k.KTuple? && forall i :: 0 <= i < |k.items| ==> k.items[i].KBool?
  {
    assert forall k1, k2 :: k1 in t && k2 in t && BoolsOf(k1) == BoolsOf(k2) ==> k1 == k2 by {
      forall k1, k2 | k1 in t && k2 in t && BoolsOf(k1) == BoolsOf(k2) ensures k1 == k2 {
        BoolsOfInjective(k1, k2);
      }
    }
    map k | k in t :: BoolsOf(k) := BoolRow(t[k])
  }

  lemma CanonicalRows(t: map<Key, real>, n: nat)
    requires Validated(t, n)
    ensures forall k :: k in t ==> BoolsOf(k) in Rewrap(t) && Rewrap(t)[BoolsOf(k)] == BoolRow(t[k])
  {
    var c := Rewrap(t);
    forall k | k in t ensures BoolsOf(k) in c && c[BoolsOf(k)] == BoolRow(t[k]) {
      forall k2 | k2 in t && BoolsOf(k2) == BoolsOf(k) ensures k2 == k {
        BoolsOfInjective(k, k2);
      }
    }
  }

  lemma CanonicalShape(t: map<Key, real>, n: nat)
    requires Validated(t, n)
    ensures forall v :: v in Rewrap(t) ==>
      && |v| == n
      && (forall i :: 0 <= i < n ==> v[i] == 0 || v[i] == 1)
      && 1 in Rewrap(t)[v] && 0.0 <= Rewrap(t)[v][1] <= 1.0
      && Rewrap(t)[v] == BoolRow(Rewrap(t)[v][1])
  {
    var c := Rewrap(t);
    forall v | v in c
      ensures |v| == n && (forall i :: 0 <= i < n ==> v[i] == 0 || v[i] == 1)
      ensures 1 in c[v] && 0.0 <= c[v][1] <= 1.0 && c[v] == BoolRow(c[v][1])
    {
      var k :| k in t && BoolsOf(k) == v;
      CanonicalRows(t, n);
    }
  }

  /** `_init_boolean_cpt(cpt, parents)`: expands the shorthand into
      `{tuple: {True: p, False: 1 - p}}` and asserts that every key is a tuple
      of `len(parents)` bools and every probability lies in [0, 1]. */
  function InitBooleanCpt(cpt: Shorthand, parents: seq<Var>): (r: Result<Cpt>)
    ensures r.Err? ==> r.error == AssertionError
  {
    match cpt
    case Number(p) =>
      if |parents| == 0 && 0.0 <= p <= 1.0 then Ok(map[[] := BoolRow(p)]) else Err(AssertionError)
    case Table(entries) =>
      var t := Expand(entries);
      if Validated(t, |parents|) then Ok(Canonical(t, |parents|)) else Err(AssertionError)
  }

  /** Every table the normaliser accepts is canonical: keys are tuples of
      `len(parents)` booleans, and each row is `{True: p, False: 1 - p}` for a
      probability `p`, so each row has the keys {False, True} and sums to 1. */
  lemma BooleanCptCanonical(cpt: Shorthand, parents: seq<Var>)
    requires InitBooleanCpt(cpt, parents).Ok?
    ensures var t := InitBooleanCpt(cpt, parents).value;
      forall k :: k in t ==>
        && |k| == |parents|
        && (forall i :: 0 <= i < |k| ==> k[i] == 0 || k[i] == 1)
        && 1 in t[k] && 0.0 <= t[k][1] <= 1.0
        && t[k] == BoolRow(t[k][1])
  {
  }

  /** A bare probability is accepted exactly for a parentless node with `p`
      in [0, 1], and becomes the single row `{(): {True: p, False: 1 - p}}`. */
  lemma NumberShorthand(p: real, parents: seq<Var>)
    ensures InitBooleanCpt(Number(p), parents).Ok? <==> |parents| == 0 && 0.0 <= p <= 1.0
    ensures InitBooleanCpt(Number(p), parents).Ok? ==>
      InitBooleanCpt(Number(p), parents).value == map[[] := map[1 := p, 0 := 1.0 - p]]
  {
  }

  /** The keys of a bool-keyed dict, each wrapped into a 1-tuple. */
  lemma ExpandBoolKeyedHas(entries: seq<(Key, real)>)
    requires |entries| > 0 && entries[0].0.KBool?
    requires forall i, j :: 0 <= i < j < |entries| ==> entries[i].0 != entries[j].0
    ensures forall i :: 0 <= i < |entries| ==>
      KTuple([entries[i].0]) in Expand(entries) && Expand(entries)[KTuple([entries[i].0])] == entries[i].1
  {
    var wrapped := seq(|entries|, i requires 0 <= i < |entries| => (KTuple([entries[i].0]), entries[i].1));
    assert Expand(entries) == ToMap(wrapped);
    forall i | 0 <= i < |entries|
      ensures KTuple([entries[i].0]) in Expand(entries) && Expand(entries)[KTuple([entries[i].0])] == entries[i].1
    {
      assert wrapped[i].0 == KTuple([entries[i].0]);
      ToMapAt(wrapped, i);
    }
  }

  lemma ExpandBoolKeyedOnly(entries: seq<(Key, real)>)
    requires |entries| > 0 && entries[0].0.KBool?
    ensures forall k :: k in Expand(entries) ==> exists i :: 0 <= i < |entries| && k == KTuple([entries[i].0])
  {
    var wrapped := seq(|entries|, i requires 0 <= i < |entries| => (KTuple([entries[i].0]), entries[i].1));
    assert Expand(entries) == ToMap(wrapped);
    forall k | k in Expand(entries) ensures exists i :: 0 <= i < |entries| && k == KTuple([entries[i].0]) {
      var i :| 0 <= i < |wrapped| && wrapped[i].0 == k;
    }
  }

  /** A dict keyed by bools is accepted exactly for a node with one parent when
      every key is a bool and every probability lies in [0, 1]. */
  lemma BoolKeyedShorthand(entries: seq<(Key, real)>, parents: seq<Var>)
    requires |entries| > 0 && entries[0].0.KBool?
    requires forall i, j :: 0 <= i < j < |entries| ==> entries[i].0 != entries[j].0
    ensures InitBooleanCpt(Table(entries), parents).Ok? <==>
      |parents| == 1 && forall i :: 0 <= i < |entries| ==> entries[i].0.KBool? && 0.0 <= entries[i].1 <= 1.0
  {
    BoolKeyedValidated(entries, |parents|);
  }

  /** An accepted bool-keyed dict gives the row of `(v,)` as
      `{True: p, False: 1 - p}` for the `p` given for `v`. */
  lemma BoolKeyedShorthandRows(entries: seq<(Key, real)>, parents: seq<Var>)
    requires |entries| > 0 && entries[0].0.KBool?
    requires forall i, j :: 0 <= i < j < |entries| ==> entries[i].0 != entries[j].0
    requires InitBooleanCpt(Table(entries), parents).Ok?
    ensures forall i :: 0 <= i < |entries| ==> entries[i].0.KBool?
    ensures forall i :: 0 <= i < |entries| ==>
      var t := InitBooleanCpt(Table(entries), parents).value;
      [FromBool(entries[i].0.b)] in t && t[[FromBool(entries[i].0.b)]] == BoolRow(entries[i].1)
  {
    BoolKeyedValidated(entries, |parents|);
    BoolKeyedRows(entries);
  }

  lemma BoolKeyedValidated(entries: seq<(Key, real)>, n: nat)
    requires |entries| > 0 && entries[0].0.KBool?
    requires forall i, j :: 0 <= i < j < |entries| ==> entries[i].0 != entries[j].0
    ensures Validated(Expand(entries), n) <==>
      n == 1 && forall i :: 0 <= i < |entries| ==> entries[i].0.KBool? && 0.0 <= entries[i].1 <= 1.0
  {
    var e := Expand(entries);
    if n == 1 && forall i :: 0 <= i < |entries| ==> entries[i].0.KBool? && 0.0 <= entries[i].1 <= 1.0 {
      ExpandBoolKeyedOnly(entries);
      ExpandBoolKeyedHas(entries);
      forall k | k in e ensures IsBoolTuple(k, n) && 0.0 <= e[k] <= 1.0 {
        var i :| 0 <= i < |entries| && k == KTuple([entries[i].0]);
        assert entries[i].0.KBool? && 0.0 <= entries[i].1 <= 1.0;
        assert e[k] == entries[i].1;
      }
    } else if Validated(e, n) {
      ExpandBoolKeyedHas(entries);
      forall i | 0 <= i < |entries| ensures entries[i].0.KBool? && 0.0 <= entries[i].1 <= 1.0 && n == 1 {
        var k := KTuple([entries[i].0]);
        assert k in e && IsBoolTuple(k, n);
        assert k.items[0] == entries[i].0;
      }
    }
  }

  lemma BoolKeyedRows(entries: seq<(Key, real)>)
    requires |entries| > 0 && entries[0].0.KBool?
    requires forall i, j :: 0 <= i < j < |entries| ==> entries[i].0 != entries[j].0
    requires forall i :: 0 <= i < |entries| ==> entries[i].0.KBool?
    requires Validated(Expand(entries), 1)
    ensures forall i :: 0 <= i < |entries| ==>
      var t := Canonical(Expand(entries), 1);
      [FromBool(entries[i].0.b)] in t && t[[FromBool(entries[i].0.b)]] == BoolRow(entries[i].1)
  {
    var e := Expand(entries);
    ExpandBoolKeyedHas(entries);
    var t := Canonical(e, 1);
    forall i | 0 <= i < |entries|
      ensures [FromBool(entries[i].0.b)] in t && t[[FromBool(entries[i].0.b)]] == BoolRow(entries[i].1)
    {
      var k := KTuple([entries[i].0]);
      assert k in e;
      assert BoolsOf(k) == [FromBool(entries[i].0.b)];
    }
  }

  /** A dict keyed by tuples is accepted exactly when every key is a tuple of
      `len(parents)` bools and every probability lies in [0, 1]; each key's
      row is then `{True: p, False: 1 - p}` for its `p`. */
  lemma TupleKeyedShorthand(entries: seq<(Key, real)>, parents: seq<Var>)
    requires !(|entries| > 0 && entries[0].0.KBool?)
    requires forall i, j :: 0 <= i < j < |entries| ==> entries[i].0 != entries[j].0
    ensures InitBooleanCpt(Table(entries), parents).Ok? <==>
      forall i :: 0 <= i < |entries| ==> IsBoolTuple(entries[i].0, |parents|) && 0.0 <= entries[i].1 <= 1.0
    ensures InitBooleanCpt(Table(entries), parents).Ok? ==>
      forall i :: 0 <= i < |entries| ==>
        var t := InitBooleanCpt(Table(entries), parents).value;
        BoolsOf(entries[i].0) in t && t[BoolsOf(entries[i].0)] == BoolRow(entries[i].1)
  {
    var e := ToMap(entries);
    assert Expand(entries) == e;
    forall i | 0 <= i < |entries| ensures entries[i].0 in e && e[entries[i].0] == entries[i].1 {
      ToMapAt(entries, i);
    }
    if forall i :: 0 <= i < |entries| ==> IsBoolTuple(entries[i].0, |parents|) && 0.0 <= entries[i].1 <= 1.0 {
      forall k | k in e ensures IsBoolTuple(k, |parents|) && 0.0 <= e[k] <= 1.0 {
        var i :| 0 <= i < |entries| && entries[i].0 == k;
      }
    }
  }

  /** A non-empty canonical boolean table has the domain {False, True}, which
      sorts to [False, True]. */
  lemma BooleanDomain(cpt: Shorthand, parents: seq<Var>)
    requires InitBooleanCpt(cpt, parents).Ok?
    requires InitBooleanCpt(cpt, parents).value != map[]
    ensures DetermineDomain(InitBooleanCpt(cpt, parents).value) == Ok({0, 1})
  {
    var t := InitBooleanCpt(cpt, parents).value;
    BooleanCptCanonical(cpt, parents);
    var k0 :| k0 in t;
    assert t[k0].Keys == {0, 1};
  }

  /** The boolean domain sorts to [False, True]. */
  lemma BooleanDomainSorted()
    ensures SortedDomain({0, 1}) == [0, 1]
  {
    var s := SortedDomain({0, 1});
    assert |s| == 2 && s[0] < s[1];
    assert s[0] in {0, 1} && s[1] in {0, 1};
  }

  /** The docstring example of `BoolBayesNode`, one parent: the bool-keyed
      shorthand {T: 0.2, F: 0.7} is accepted. */
  lemma BoolKeyedExample()
    ensures InitBooleanCpt(Table([(KBool(true), 0.2), (KBool(false), 0.7)]), ["P"]).Ok?
  {
    BoolKeyedValidated([(KBool(true), 0.2), (KBool(false), 0.7)], 1);
  }

  /** The docstring example of `BoolBayesNode`, two parents: the tuple-keyed
      shorthand over (P, Q) is accepted. */
  lemma TupleKeyedExample()
    ensures InitBooleanCpt(Table([(KTuple([KBool(true), KBool(true)]), 0.2), (KTuple([KBool(true), KBool(false)]), 0.3),
                                  (KTuple([KBool(false), KBool(true)]), 0.5), (KTuple([KBool(false), KBool(false)]), 0.7)]),
                           ["P", "Q"]).Ok?
  {
    var es := [(KTuple([KBool(true), KBool(true)]), 0.2), (KTuple([KBool(true), KBool(false)]), 0.3),
               (KTuple([KBool(false), KBool(true)]), 0.5), (KTuple([KBool(false), KBool(false)]), 0.7)];
    assert forall i :: 0 <= i < |es| ==> IsBoolTuple(es[i].0, 2) && 0.0 <= es[i].1 <= 1.0;
    TupleKeyedShorthand(es, ["P", "Q"]);
  }

  // ---------------------------------------------------------------------------
  // Nodes

  /** `BayesNode.p(value, event)`: the table entry for `value` in the row of
      the parents' values in `event`; a parent missing from the event, a row
      missing from the table or a value missing from the row is a KeyError. */
  function CptP(cpt: Cpt, parents: seq<Var>, value: Val, event: Event): (r: Result<real>)
    ensures r.Ok? <==>
      (forall x :: x in parents ==> x in event) && Project(event, parents) in cpt
      && value in cpt[Project(event, parents)]
    ensures r.Ok? ==> r.value == cpt[Project(event, parents)][value]
    ensures r.Err? ==> r.error == KeyError
  {
    match EventValues(Dict(event), parents)
    case Err(e) => Err(e)
    case Ok(k) => if k in cpt && value in cpt[k] then Ok(cpt[k][value]) else Err(KeyError)
  }

  /** The docstring example of `BayesNode.p`: on the node with parent
      Burglary and shorthand {T: 0.2, F: 0.625}, P(X=False | Burglary=False) is 0.375. */
  lemma NodePExample()
    ensures var t := InitBooleanCpt(Table([(KBool(true), 0.2), (KBool(false), 0.625)]), ["Burglary"]);
      t.Ok? && CptP(t.value, ["Burglary"], FromBool(false), map["Burglary" := FromBool(false), "Earthquake" := FromBool(true)]) == Ok(0.375)
  {
    var r := InitBooleanCpt(Table([(KBool(true), 0.2), (KBool(false), 0.625)]), ["Burglary"]);
    BurglaryRow();
    var ev := map["Burglary" := FromBool(false), "Earthquake" := FromBool(true)];
    assert Project(ev, ["Burglary"]) == [0];
    assert r.value[[0]][0] == 0.375;
  }

  /** The row of Burglary = False in the example's table. */
  lemma BurglaryRow()
    ensures var t := InitBooleanCpt(Table([(KBool(true), 0.2), (KBool(false), 0.625)]), ["Burglary"]);
      t.Ok? && [0] in t.value && t.value[[0]] == BoolRow(0.625)
  {
    var es := [(KBool(true), 0.2), (KBool(false), 0.625)];
    BoolKeyedShorthand(es, ["Burglary"]);
    BoolKeyedShorthandRows(es, ["Burglary"]);
    assert es[1].0.b == false;
  }

  /** The domain a node keeps: the values of its table's rows, sorted. */
  function NodeDomain(cpt: Cpt): seq<Val>
    requires DetermineDomain(cpt).Ok?
  {
    SortedDomain(DetermineDomain(cpt).value)
  }

  /** A conditional distribution P(variable | parents), part of a net. Only
      the list of children changes after construction. */
  class BayesNode {
    const variable: Var
    const parents: seq<Var>
    const cpt: Cpt
    const domain: seq<Val>
    var children: seq<BayesNode>

    constructor (variable: Var, parents: seq<Var>, cpt: Cpt)
      requires DetermineDomain(cpt).Ok?
      ensures this.variable == variable && this.parents == parents && this.cpt == cpt
      ensures domain == NodeDomain(cpt)
      ensures children == []
    {
      this.variable := variable;
      this.parents := parents;
      this.cpt := cpt;
      this.domain := NodeDomain(cpt);
      this.children := [];
    }

    /** `p(value, event)`. */
    function P(value: Val, event: Event): Result<real> {
      CptP(cpt, parents, value, event)
    }
  }

  /** A node's table as given to `create_node`: an explicit table, for a
      general net, or a boolean shorthand, for a boolean net. */
  datatype NodeTable = Explicit(cpt: Cpt) | Boolean(shorthand: Shorthand)

  /** The canonical table `create_node` builds before it determines the
      domain: a general node keeps an explicit table (a shorthand has no rows
      to take keys from); a boolean node expands its shorthand (an explicit
      table's rows are dicts, and `1 - dict` is a TypeError, unless the table
      is empty and so expands to nothing). */
  function NodeCpt(boolean: bool, parents: seq<Var>, table: NodeTable): (r: Result<Cpt>)
    ensures !boolean ==> (r.Ok? <==> table.Explicit?)
    ensures r.Ok? && !boolean ==> r.value == table.cpt
    ensures r.Ok? && boolean ==>
      (table.Boolean? && r == InitBooleanCpt(table.shorthand, parents)) || (table == Explicit(map[]) && r == Ok(map[]))
  {
    match table
    case Explicit(cpt) =>
      if !boolean then Ok(cpt) else if cpt == map[] then Ok(map[]) else Err(TypeError)
    case Boolean(s) =>
      if boolean then InitBooleanCpt(s, parents) else Err(AttributeError)
  }

  /** `create_node(X, parents, table)` of a general or a boolean net. */
  method CreateNode(boolean: bool, variable: Var, parents: seq<Var>, table: NodeTable) returns (r: Result<BayesNode>)
    ensures r.Ok? <==> NodeCpt(boolean, parents, table).Ok? && DetermineDomain(NodeCpt(boolean, parents, table).value).Ok?
    ensures r.Ok? ==> fresh(r.value) && r.value.children == []
    ensures r.Ok? ==> r.value.variable == variable && r.value.parents == parents
    ensures r.Ok? ==> r.value.cpt == NodeCpt(boolean, parents, table).value
  {
    var cpt :- NodeCpt(boolean, parents, table);
    var dom := DetermineDomain(cpt);
    if dom.Err? {
      return Err(dom.error);
    }
    var node := new BayesNode(variable, parents, cpt);
    return Ok(node);
  }

  // ---------------------------------------------------------------------------
  // The net

  /** The variables of a list of nodes, in order. */
  function VarsOf(ns: seq<BayesNode>): (vs: seq<Var>)
    ensures |vs| == |ns| && forall i :: 0 <= i < |ns| ==> vs[i] == ns[i].variable
  {
    seq(|ns|, i requires 0 <= i < |ns| => ns[i].variable)
  }

  /** The topological invariant: no variable twice, and every parent of a
      node is the variable of an earlier node. */
  predicate WellFormed(ns: seq<BayesNode>) {
    && NoDup(VarsOf(ns))
    && forall i, x :: 0 <= i < |ns| && x in ns[i].parents ==> x in VarsOf(ns)[..i]
  }

  /** `variable_node` as a function: the first node of the variable, if any. */
  function NodeOf(ns: seq<BayesNode>, x: Var): (r: Result<BayesNode>)
    ensures r.Ok? <==> x in VarsOf(ns)
    ensures r.Ok? ==> r.value in ns && r.value.variable == x
    ensures r.Err? ==> r.error == NoSuchVariable
  {
    if ns == [] then Err(NoSuchVariable)
    else if ns[0].variable == x then Ok(ns[0])
    else
      assert VarsOf(ns) == [ns[0].variable] + VarsOf(ns[1..]);
      NodeOf(ns[1..], x)
  }

  /** In a net without duplicate variables, the node found is the one at the
      variable's position. */
  lemma {:induction false} NodeOfAt(ns: seq<BayesNode>, i: nat)
    requires i < |ns| && NoDup(VarsOf(ns))
    ensures NodeOf(ns, ns[i].variable) == Ok(ns[i])
  {
    if i > 0 {
      assert VarsOf(ns)[0] != VarsOf(ns)[i];
      assert VarsOf(ns[1..]) == VarsOf(ns)[1..];
      NodeOfAt(ns[1..], i - 1);
    }
  }

  /** `variable_values` as a function: the sorted domain of the variable's node. */
  function DomainOf(ns: seq<BayesNode>, x: Var): (r: Result<seq<Val>>)
    ensures r.Ok? <==> x in VarsOf(ns)
    ensures r.Ok? ==> r.value == NodeOf(ns, x).value.domain
  {
    match NodeOf(ns, x)
    case Err(e) => Err(e)
    case Ok(n) => Ok(n.domain)
  }

  function Repeat<T>(x: T, n: nat): (r: seq<T>)
    ensures |r| == n && forall i :: 0 <= i < n ==> r[i] == x
  {
    seq(n, _ => x)
  }

  /** The children list each `add` leaves on the node of `x`: every later node
      once per occurrence of `x` among its parents, in order of addition. */
  ghost function ChildrenIn(x: Var, ns: seq<BayesNode>): seq<BayesNode> {
    if ns == [] then []
    else ChildrenIn(x, ns[..|ns| - 1]) + Repeat(ns[|ns| - 1], Count(ns[|ns| - 1].parents, x))
  }

  lemma ChildrenInSnoc(x: Var, ns: seq<BayesNode>, n: BayesNode)
    ensures ChildrenIn(x, ns + [n]) == ChildrenIn(x, ns) + Repeat(n, Count(n.parents, x))
  {
    assert (ns + [n])[..|ns|] == ns;
  }

  /** In a well-formed list, a variable with no node is nobody's parent and
      so has no children. */
  lemma {:induction false} NoChildrenOfAbsent(x: Var, ns: seq<BayesNode>)
    requires WellFormed(ns) && x !in VarsOf(ns)
    ensures ChildrenIn(x, ns) == []
  {
    if ns != [] {
      var n := |ns| - 1;
      assert VarsOf(ns[..n]) == VarsOf(ns)[..n];
      assert WellFormed(ns[..n]) by {
        forall i | 0 <= i < n ensures ns[..n][..i] == ns[..i] { }
      }
      NoChildrenOfAbsent(x, ns[..n]);
      CountZero(ns[n].parents, x);
    }
  }

  /** Appending a node with a new variable whose parents are all present
      keeps a list well-formed. */
  lemma WellFormedSnoc(ns: seq<BayesNode>, n: BayesNode)
    requires WellFormed(ns) && n.variable !in VarsOf(ns)
    requires forall x :: x in n.parents ==> x in VarsOf(ns)
    ensures WellFormed(ns + [n]) && VarsOf(ns + [n]) == VarsOf(ns) + [n.variable]
  {
    var ms := ns + [n];
    assert VarsOf(ms) == VarsOf(ns) + [n.variable];
    forall i, x | 0 <= i < |ms| && x in ms[i].parents ensures x in VarsOf(ms)[..i] {
      if i < |ns| {
        assert VarsOf(ms)[..i] == VarsOf(ns)[..i];
      } else {
        assert VarsOf(ms)[..i] == VarsOf(ns);
      }
    }
  }

  /** The children lists of a list of nodes. */
  ghost function ChildrenOf(ns: seq<BayesNode>): (cs: seq<seq<BayesNode>>)
    reads ns
    ensures |cs| == |ns| && forall j :: 0 <= j < |ns| ==> cs[j] == ns[j].children
  {
    seq(|ns|, j requires 0 <= j < |ns| reads ns => ns[j].children)
  }

  /** `after` is `base` with `child` appended to the list of each variable of
      `vars` once per mention of it in `mentions`. */
  ghost predicate Mentioned(base: seq<seq<BayesNode>>, after: seq<seq<BayesNode>>, mentions: seq<Var>,
                            vars: seq<Var>, child: BayesNode) {
    && |base| == |vars| && |after| == |vars|
    && forall j :: 0 <= j < |vars| ==> after[j] == base[j] + Repeat(child, Count(mentions, vars[j]))
  }

  /** With no mentions nothing is appended. */
  lemma MentionNone(base: seq<seq<BayesNode>>, vars: seq<Var>, child: BayesNode)
    requires |base| == |vars|
    ensures Mentioned(base, base, [], vars, child)
  {
    forall j | 0 <= j < |vars| ensures base[j] == base[j] + Repeat(child, Count([], vars[j])) {
      assert Repeat(child, 0) == [];
    }
  }

  /** One more mention of `parents[i]`, the variable of the `k`-th list,
      appends one more copy of the child to that list only. */
  lemma MentionStep(base: seq<seq<BayesNode>>, pre: seq<seq<BayesNode>>, parents: seq<Var>, i: nat,
                    vars: seq<Var>, k: nat, child: BayesNode)
    requires i < |parents| && k < |vars| && NoDup(vars) && vars[k] == parents[i]
    requires Mentioned(base, pre, parents[..i], vars, child)
    ensures Mentioned(base, pre[k := pre[k] + [child]], parents[..i + 1], vars, child)
  {
    var post := pre[k := pre[k] + [child]];
    forall j | 0 <= j < |vars|
      ensures post[j] == base[j] + Repeat(child, Count(parents[..i + 1], vars[j]))
    {
      CountSnoc(parents, i, vars[j]);
      var c := Count(parents[..i], vars[j]);
      if j == k {
        assert Repeat(child, c + 1) == Repeat(child, c) + [child];
        assert post[j] == (base[j] + Repeat(child, c)) + [child];
      } else {
        assert vars[j] != vars[k];
      }
    }
  }

  /** Appending `node` to a well-formed list whose children lists are those
      `ChildrenIn` describes, and linking it under each of its parents, gives
      the children lists `ChildrenIn` describes for the longer list. */
  lemma ChildrenAfterAdd(before: seq<BayesNode>, node: BayesNode, linked: seq<seq<BayesNode>>,
                         after: seq<seq<BayesNode>>)
    requires ChildrenIn(node.variable, before) == [] && node.variable !in node.parents
    requires |linked| == |before| + 1 && linked[|before|] == []
    requires forall j :: 0 <= j < |before| ==> linked[j] == ChildrenIn(before[j].variable, before)
    requires Mentioned(linked, after, node.parents, VarsOf(before + [node]), node)
    ensures forall j :: 0 <= j < |before| + 1 ==>
      after[j] == ChildrenIn((before + [node])[j].variable, before + [node])
    ensures after[|before|] == []
  {
    var ns := before + [node];
    forall j | 0 <= j < |ns| ensures after[j] == ChildrenIn(ns[j].variable, ns) {
      ChildrenAfterAddAt(before, node, linked, after, j);
    }
    assert VarsOf(ns)[|before|] == node.variable;
    CountZero(node.parents, node.variable);
    assert after[|before|] == [] + Repeat(node, 0);
  }

  /** `ChildrenAfterAdd` for the `j`-th list. */
  lemma ChildrenAfterAddAt(before: seq<BayesNode>, node: BayesNode, linked: seq<seq<BayesNode>>,
                           after: seq<seq<BayesNode>>, j: nat)
    requires ChildrenIn(node.variable, before) == [] && node.variable !in node.parents
    requires |linked| == |before| + 1 && linked[|before|] == []
    requires forall j :: 0 <= j < |before| ==> linked[j] == ChildrenIn(before[j].variable, before)
    requires Mentioned(linked, after, node.parents, VarsOf(before + [node]), node)
    requires j < |before| + 1
    ensures after[j] == ChildrenIn((before + [node])[j].variable, before + [node])
  {
    var ns := before + [node];
    ChildrenInSnoc(ns[j].variable, before, node);
    assert VarsOf(ns)[j] == ns[j].variable;
    if j < |before| {
      assert after[j] == ChildrenIn(before[j].variable, before) + Repeat(node, Count(node.parents, ns[j].variable));
    } else {
      CountZero(node.parents, node.variable);
      assert after[j] == [] + Repeat(node, 0);
    }
  }

  /** A Bayesian network: its nodes in insertion order and their variables. */
  class BayesNet {
    /** True for a `BoolBayesNet`, whose nodes take the boolean shorthands. */
    const boolean: bool
    var nodes: seq<BayesNode>
    var variables: seq<Var>

    /** Nodes are topologically ordered without duplicate variables,
        `variables[i]` is `nodes[i].variable`, and each node's children are
        the later nodes that name it as a parent. */
    ghost predicate Valid()
      reads this, nodes
    {
      && WellFormed(nodes)
      && variables == VarsOf(nodes)
      && forall i :: 0 <= i < |nodes| ==> nodes[i].children == ChildrenIn(nodes[i].variable, nodes)
    }

    constructor (boolean: bool)
      ensures Valid() && this.boolean == boolean && nodes == [] && variables == []
    {
      this.boolean := boolean;
      nodes := [];
      variables := [];
    }

    /** `variable_node(var)`: a linear search; raises when the variable is absent. */
    method VariableNode(x: Var) returns (r: Result<BayesNode>)
      ensures r == NodeOf(nodes, x)
    {
      var i := 0;
      while i < |nodes|
        invariant 0 <= i <= |nodes|
        invariant NodeOf(nodes, x) == NodeOf(nodes[i..], x)
      {
        if nodes[i].variable == x {
          return Ok(nodes[i]);
        }
        assert nodes[i..][1..] == nodes[i + 1..];
        i := i + 1;
      }
      return Err(NoSuchVariable);
    }

    /** `variable_values(var)`: the domain of the variable's node. */
    method VariableValues(x: Var) returns (r: Result<seq<Val>>)
      ensures r == DomainOf(nodes, x)
    {
      var n :- VariableNode(x);
      return Ok(n.domain);
    }

    /** `parent.children += [child]` for the `k`-th node, as seen on the
        children lists of all nodes. */
    method AppendChild(parent: BayesNode, child: BayesNode, ghost k: nat)
      requires k < |nodes| && nodes[k] == parent && NoDup(VarsOf(nodes))
      modifies parent
      ensures ChildrenOf(nodes) == old(ChildrenOf(nodes))[k := old(ChildrenOf(nodes))[k] + [child]]
    {
      forall j | 0 <= j < |nodes| && j != k ensures nodes[j] != nodes[k] {
        assert VarsOf(nodes)[j] != VarsOf(nodes)[k];
      }
      parent.children := parent.children + [child];
    }

    /** The loop at the end of `add`: appends `child` to the children of the
        node of each variable in `parents`, once per mention. */
    method AddChildren(parents: seq<Var>, child: BayesNode)
      requires NoDup(VarsOf(nodes))
      requires forall x :: x in parents ==> x in VarsOf(nodes)
      modifies nodes
      ensures Mentioned(old(ChildrenOf(nodes)), ChildrenOf(nodes), parents, VarsOf(nodes), child)
    {
      ghost var vars := VarsOf(nodes);
      ghost var base := ChildrenOf(nodes);
      MentionNone(base, vars, child);
      assert parents[..0] == [];
      var i := 0;
      while i < |parents|
        invariant 0 <= i <= |parents|
        invariant Mentioned(base, ChildrenOf(nodes), parents[..i], vars, child)
      {
        var p := VariableNode(parents[i]);
        ghost var k :| 0 <= k < |nodes| && vars[k] == parents[i];
        NodeOfAt(nodes, k);
        ghost var pre := ChildrenOf(nodes);
        MentionStep(base, pre, parents, i, vars, k, child);
        AppendChild(p.value, child, k);
        assert ChildrenOf(nodes) == pre[k := pre[k] + [child]];
        assert Mentioned(base, ChildrenOf(nodes), parents[..i + 1], vars, child);
        i := i + 1;
      }
      assert parents[..i] == parents;
    }

    /** The changes of a successful `add`: appends the node and links it
        under each of its parents. */
    method Append(node: BayesNode)
      requires Valid() && node.children == []
      requires node.variable !in variables && forall x :: x in node.parents ==> x in variables
      modifies this, nodes, node
      ensures Valid()
      ensures nodes == old(nodes) + [node] && variables == old(variables) + [node.variable]
      ensures node.children == []
    {
      ghost var before := nodes;
      WellFormedSnoc(before, node);
      NoChildrenOfAbsent(node.variable, before);
      CountZero(node.parents, node.variable);
      nodes := nodes + [node];
      variables := variables + [node.variable];
      ghost var linked := ChildrenOf(nodes);
      AddChildren(node.parents, node);
      ChildrenAfterAdd(before, node, linked, ChildrenOf(nodes));
    }

    /** `add(node_spec)`: builds the node, asserts that its variable is new
        and that its parents are present, appends it, and appends it to the
        children of each parent (once per mention). Nothing changes on failure. */
    method Add(variable: Var, parents: seq<Var>, table: NodeTable) returns (r: Outcome)
      requires Valid()
      modifies this, nodes
      ensures Valid()
      ensures r.Pass? <==>
        && NodeCpt(boolean, parents, table).Ok?
        && DetermineDomain(NodeCpt(boolean, parents, table).value).Ok?
        && variable !in old(variables)
        && forall x :: x in parents ==> x in old(variables)
      ensures r.Fail? ==> nodes == old(nodes) && variables == old(variables)
      ensures r.Fail? ==> forall n :: n in nodes ==> n.children == old(n.children)
      ensures r.Pass? ==> |nodes| == |old(nodes)| + 1 && nodes[..|old(nodes)|] == old(nodes)
      ensures r.Pass? ==> variables == old(variables) + [variable]
      ensures r.Pass? ==> var n := nodes[|old(nodes)|];
        fresh(n) && n.variable == variable && n.parents == parents
        && n.cpt == NodeCpt(boolean, parents, table).value && n.children == []
    {
      var created := CreateNode(boolean, variable, parents, table);
      if created.Err? {
        return Fail(created.error);
      }
      var node := created.value;
      if variable in variables || !(forall x :: x in parents ==> x in variables) {
        return Fail(AssertionError);
      }
      Append(node);
      r := Pass;
    }
  }
}
