/** Shared vocabulary of the model: the exceptions the library raises, the
    result type that carries them, and small facts about sequences and sums. */
module Common {

  /** The exception a Python operation of the library raises, by class. */
  datatype Error =
    | KeyError          // a missing dictionary key
    | AssertionError    // a failed `assert` precondition
    | ZeroDivisionError // a division by a zero total
    | IndexError        // a list or tuple index out of range
    | TypeError         // a value of the wrong shape (a tuple indexed by a name, `reduce` of nothing)
    | AttributeError    // a method called on a value that lacks it (`.keys()` of a number or of None)
    | ValueError        // a value that cannot be unpacked into the expected shape
    | NoSuchVariable    // `BayesNet.variable_node` on a variable that is not in the net

  /** A value or the exception that replaced it. */
  datatype Result<+T> = Ok(value: T) | Err(error: Error) {
    predicate IsFailure() { Err? }
    function PropagateFailure<U>(): Result<U> requires Err? { Err(error) }
    function Extract(): T requires Ok? { value }
  }

  /** Completion of a statement that returns nothing: it finished or it raised. */
  datatype Outcome = Pass | Fail(error: Error)

  /** A variable of a distribution or a network is named by a string. */
  type Var = string

  /** No element occurs twice. */
  predicate NoDup<T(==)>(s: seq<T>) {
    forall i, j :: 0 <= i < j < |s| ==> s[i] != s[j]
  }

  /** Python's `sum` of a list of numbers (exact, on reals). */
  function Sum(s: seq<real>): real {
    if s == [] then 0.0 else s[0] + Sum(s[1..])
  }

  lemma {:induction false} SumConcat(a: seq<real>, b: seq<real>)
    ensures Sum(a + b) == Sum(a) + Sum(b)
  {
    if a != [] {
      assert (a + b)[0] == a[0] && (a + b)[1..] == a[1..] + b;
      SumConcat(a[1..], b);
    } else {
      assert a + b == b;
    }
  }

  /** The product of two reals, as a function of its own so that a recursive
      definition built on it unfolds one multiplication at a time. */
  function Times(a: real, b: real): real {
    a * b
  }

  /** Scaling every term scales the sum. */
  lemma {:induction false} SumScale(a: seq<real>, b: seq<real>, c: real)
    requires |a| == |b| && forall i :: 0 <= i < |a| ==> a[i] == c * b[i]
    ensures Sum(a) == c * Sum(b)
  {
    if a != [] {
      SumScale(a[1..], b[1..], c);
      assert Sum(a) == c * b[0] + c * Sum(b[1..]);
    }
  }

  /** The elements of `s` in first-occurrence order, each once
      (`DistinctNoDup`, `DistinctOfNoDup`). */
  function Distinct<T(==)>(s: seq<T>): (r: seq<T>)
    ensures forall x :: x in r ==> x in s
    ensures forall x :: x in s ==> x in r
  {
    if s == [] then []
    else
      var r0 := Distinct(s[..|s| - 1]);
      var x := s[|s| - 1];
      assert s == s[..|s| - 1] + [x];
      if x in r0 then r0 else r0 + [x]
  }

  /** No element is listed twice. */
  lemma {:induction false} DistinctNoDup<T>(s: seq<T>)
    ensures NoDup(Distinct(s))
  {
    if s != [] {
      DistinctNoDup(s[..|s| - 1]);
    }
  }

  /** A list without repetitions is its own distinct listing. */
  lemma {:induction false} DistinctOfNoDup<T>(s: seq<T>)
    requires NoDup(s)
    ensures Distinct(s) == s
  {
    if s != [] {
      var n := |s| - 1;
      DistinctOfNoDup(s[..n]);
      assert s == s[..n] + [s[n]];
      assert s[n] !in s[..n] by {
        forall i | 0 <= i < n ensures s[..n][i] != s[n] {
          assert s[..n][i] == s[i];
        }
      }
    }
  }

  /** Number of occurrences of `x` in `s`. */
  function Count<T(==)>(s: seq<T>, x: T): nat {
    if s == [] then 0 else (if s[0] == x then 1 else 0) + Count(s[1..], x)
  }

  lemma {:induction false} CountZero<T>(s: seq<T>, x: T)
    ensures Count(s, x) == 0 <==> x !in s
  {
    if s != [] { CountZero(s[1..], x); }
  }

  lemma {:induction false} CountNoDup<T>(s: seq<T>, x: T)
    requires NoDup(s) && x in s
    ensures Count(s, x) == 1
  {
    if s[0] != x {
      CountNoDup(s[1..], x);
    } else {
      CountZero(s[1..], x);
    }
  }

  /** The elements of `s` other than `x`, in order. */
  function Without<T(==)>(s: seq<T>, x: T): (r: seq<T>)
    ensures forall y :: y in r ==> y in s && y != x
    ensures forall y :: y in s && y != x ==> y in r
    ensures |r| <= |s|
  {
    if s == [] then [] else (if s[0] == x then [] else [s[0]]) + Without(s[1..], x)
  }

  lemma {:induction false} CountWithout<T>(s: seq<T>, x: T, y: T)
    requires x != y
    ensures Count(Without(s, x), y) == Count(s, y)
  {
    if s != [] {
      CountWithout(s[1..], x, y);
      var head := if s[0] == x then [] else [s[0]];
      assert Without(s, x) == head + Without(s[1..], x);
      CountConcat(head, Without(s[1..], x), y);
    }
  }

  lemma {:induction false} CountConcat<T>(a: seq<T>, b: seq<T>, x: T)
    ensures Count(a + b, x) == Count(a, x) + Count(b, x)
  {
    if a != [] {
      assert (a + b)[0] == a[0] && (a + b)[1..] == a[1..] + b;
      CountConcat(a[1..], b, x);
    } else {
      assert a + b == b;
    }
  }

  lemma CountSnoc<T>(s: seq<T>, i: nat, x: T)
    requires i < |s|
    ensures Count(s[..i + 1], x) == Count(s[..i], x) + (if s[i] == x then 1 else 0)
  {
    assert s[..i + 1] == s[..i] + [s[i]];
    CountConcat(s[..i], [s[i]], x);
    assert [s[i]][1..] == [];
  }

  /** A Python dict built from key/value pairs in order: a later key overrides an earlier one. */
  function ToMap<K, W>(pairs: seq<(K, W)>): (m: map<K, W>)
    ensures forall k :: k in m ==> exists i :: 0 <= i < |pairs| && pairs[i].0 == k
    ensures forall i :: 0 <= i < |pairs| ==> pairs[i].0 in m
  {
    if pairs == [] then map[]
    else
      var last := pairs[|pairs| - 1];
      var m0 := ToMap(pairs[..|pairs| - 1]);
      assert forall k :: k in m0 ==> exists i :: 0 <= i < |pairs| && pairs[i].0 == k by {
        forall k | k in m0 ensures exists i :: 0 <= i < |pairs| && pairs[i].0 == k {
          var i :| 0 <= i < |pairs| - 1 && pairs[..|pairs| - 1][i].0 == k;
          assert pairs[i].0 == k;
        }
      }
      m0[last.0 := last.1]
  }

  /** With distinct keys, each pair is found in the dict it builds. */
  lemma {:induction false} ToMapAt<K, W>(pairs: seq<(K, W)>, i: nat)
    requires i < |pairs|
    requires forall a, b :: 0 <= a < b < |pairs| ==> pairs[a].0 != pairs[b].0
    ensures pairs[i].0 in ToMap(pairs) && ToMap(pairs)[pairs[i].0] == pairs[i].1
  {
    if i < |pairs| - 1 {
      ToMapAt(pairs[..|pairs| - 1], i);
    }
  }

  /** The value a dict built from pairs gives a key is the value of one of
      the pairs with that key. */
  lemma {:induction false} ToMapSome<K, W>(pairs: seq<(K, W)>, k: K)
    requires k in ToMap(pairs)
    ensures exists j :: 0 <= j < |pairs| && pairs[j].0 == k && pairs[j].1 == ToMap(pairs)[k]
  {
    var n := |pairs| - 1;
    if pairs[n].0 != k {
      ToMapSome(pairs[..n], k);
      var j :| 0 <= j < n && pairs[..n][j].0 == k && pairs[..n][j].1 == ToMap(pairs[..n])[k];
      assert pairs[j] == pairs[..n][j];
    }
  }

  /** When every pair with key `k` carries `w`, the dict gives `k` the value `w`. */
  lemma {:induction false} ToMapUniform<K, W>(pairs: seq<(K, W)>, k: K, w: W)
    requires k in ToMap(pairs)
    requires forall j :: 0 <= j < |pairs| && pairs[j].0 == k ==> pairs[j].1 == w
    ensures ToMap(pairs)[k] == w
  {
    ToMapSome(pairs, k);
  }
}
