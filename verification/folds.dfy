/** The loop shape that recurs throughout the transformer:

      m := {}
      for x in xs { m[key(x)] = val(x) }

    A later element overwrites an earlier one with the same key, so the entry that
    survives for a key is the one of the LAST element carrying it. */
module Folds {

  /** `xs[i]` is the last element of `xs` whose key is `key(xs[i])`. */
  ghost predicate IsLast<T, K>(xs: seq<T>, key: T -> K, i: int)
  {
    && 0 <= i < |xs|
    && forall j :: i < j < |xs| ==> key(xs[j]) != key(xs[i])
  }

  /** Some element of `xs` carries the key `k`. */
  ghost predicate HasKey<T, K>(xs: seq<T>, key: T -> K, k: K)
  {
    exists i :: 0 <= i < |xs| && key(xs[i]) == k
  }

  /** `m` is what the loop leaves after running over all of `xs`: exactly the keys of
      `xs`, each holding the value of the last element that carries it. */
  ghost predicate Assigned<T, K(!new), V>(xs: seq<T>, key: T -> K, val: T -> V, m: map<K, V>)
  {
    && (forall k :: k in m <==> HasKey(xs, key, k))
    && (forall i :: IsLast(xs, key, i) ==> key(xs[i]) in m && m[key(xs[i])] == val(xs[i]))
    && (forall k :: k in m ==> exists i :: IsLast(xs, key, i) && key(xs[i]) == k)
  }

  /** The map left by the loop above after it has run over all of `xs`:
      the map after `xs[..n-1]`, updated with the last element. */
  function Assign<T, K(!new), V>(xs: seq<T>, key: T -> K, val: T -> V): (m: map<K, V>)
    ensures forall k :: k in m <==> HasKey(xs, key, k)
    ensures forall i :: IsLast(xs, key, i) ==> key(xs[i]) in m && m[key(xs[i])] == val(xs[i])
    ensures forall k :: k in m ==> exists i :: IsLast(xs, key, i) && key(xs[i]) == k
    decreases |xs|
  {
    if |xs| == 0 then map[]
    else
      var n := |xs| - 1;
      var r := Assign(xs[..n], key, val);
      assert xs == xs[..n] + [xs[n]];
      AssignStep(xs[..n], xs[n], key, val, r);
      r[key(xs[n]) := val(xs[n])]
  }

  /** One iteration of the loop: if `r` is right for `p`, updating it with `x`
      makes it right for `p + [x]`. */
  lemma AssignStep<T, K(!new), V>(p: seq<T>, x: T, key: T -> K, val: T -> V, r: map<K, V>)
    requires Assigned(p, key, val, r)
    ensures Assigned(p + [x], key, val, r[key(x) := val(x)])
  {
    var xs := p + [x];
    var n := |p|;
    var m := r[key(x) := val(x)];
    assert xs[n] == x;
    assert forall j :: 0 <= j < n ==> xs[j] == p[j];
    forall k | k in m
      ensures HasKey(xs, key, k)
      ensures exists i :: IsLast(xs, key, i) && key(xs[i]) == k
    {
      if k == key(x) {
        assert IsLast(xs, key, n);
      } else {
        var i :| IsLast(p, key, i) && key(p[i]) == k;
        assert xs[i] == p[i];
        assert IsLast(xs, key, i);
      }
    }
    forall k | HasKey(xs, key, k)
      ensures k in m
    {
      var i :| 0 <= i < |xs| && key(xs[i]) == k;
      if i < n {
        assert xs[i] == p[i];
        assert HasKey(p, key, k);
      }
    }
    forall i | IsLast(xs, key, i)
      ensures key(xs[i]) in m && m[key(xs[i])] == val(xs[i])
    {
      if i < n {
        assert xs[i] == p[i];
        assert IsLast(p, key, i);
      }
    }
  }
}

/** The two-level variant, used for the paths map:

      m := {}
      for x in xs {
        if m[outer(x)] == nil { m[outer(x)] = {} }
        m[outer(x)][inner(x)] = val(x)
      }
*/
module NestedFolds {

  /** No element after `xs[i]` has both its outer and its inner key. */
  ghost predicate IsLastPair<T, A, B>(xs: seq<T>, outer: T -> A, inner: T -> B, i: int)
  {
    && 0 <= i < |xs|
    && forall j :: i < j < |xs| ==> outer(xs[j]) != outer(xs[i]) || inner(xs[j]) != inner(xs[i])
  }

  /** `r` is what the loop leaves after all of `xs`: exactly the outer keys of `xs`;
      under each, exactly the inner keys of the elements with that outer key; and
      under each pair, the value of the last element carrying both. */
  ghost predicate Nested<T, A(!new), B(!new), V>(
    xs: seq<T>, outer: T -> A, inner: T -> B, val: T -> V, r: map<A, map<B, V>>)
  {
    && (forall a :: a in r <==> exists i :: 0 <= i < |xs| && outer(xs[i]) == a)
    && (forall a, b :: a in r && b in r[a] ==>
          exists i :: 0 <= i < |xs| && outer(xs[i]) == a && inner(xs[i]) == b)
    && (forall i :: 0 <= i < |xs| ==> outer(xs[i]) in r && inner(xs[i]) in r[outer(xs[i])])
    && (forall i :: IsLastPair(xs, outer, inner, i) ==> r[outer(xs[i])][inner(xs[i])] == val(xs[i]))
  }

  /** Stores `v` under `a` and then `b`, creating the inner map when `a` is new. */
  function Put<A, B, V>(r: map<A, map<B, V>>, a: A, b: B, v: V): map<A, map<B, V>>
  {
    var row := if a in r then r[a] else map[];
    r[a := row[b := v]]
  }

  /** The map after `xs[..n-1]`, with the last element stored under its outer key
      (created when missing) and its inner key, replacing what was there. */
  function AssignNested<T, A(!new), B(!new), V>(
    xs: seq<T>, outer: T -> A, inner: T -> B, val: T -> V): (r: map<A, map<B, V>>)
    ensures Nested(xs, outer, inner, val, r)
    decreases |xs|
  {
    if |xs| == 0 then map[]
    else
      var n := |xs| - 1;
      var prev := AssignNested(xs[..n], outer, inner, val);
      NestedStep(xs, outer, inner, val, prev);
      Put(prev, outer(xs[n]), inner(xs[n]), val(xs[n]))
  }

  /** A single element gives a single route with a single entry. */
  lemma AssignNestedSingle<T, A(!new), B(!new), V>(x: T, outer: T -> A, inner: T -> B, val: T -> V)
    ensures AssignNested([x], outer, inner, val) == map[outer(x) := map[inner(x) := val(x)]]
  {
  }

  /** One iteration of the loop keeps `Nested`. */
  lemma NestedStep<T, A(!new), B(!new), V>(
    xs: seq<T>, outer: T -> A, inner: T -> B, val: T -> V, prev: map<A, map<B, V>>)
    requires |xs| > 0
    requires Nested(xs[..|xs| - 1], outer, inner, val, prev)
    ensures var x := xs[|xs| - 1];
      Nested(xs, outer, inner, val, Put(prev, outer(x), inner(x), val(x)))
  {
    var p, x := xs[..|xs| - 1], xs[|xs| - 1];
    assert xs == p + [x];
    var r := Put(prev, outer(x), inner(x), val(x));
    StepOuterKeys(p, x, outer, inner, val, prev, r);
    StepInnerKeys(p, x, outer, inner, val, prev, r);
    StepCover(p, x, outer, inner, val, prev, r);
    StepLast(p, x, outer, inner, val, prev, r);
  }

  lemma StepOuterKeys<T, A(!new), B(!new), V>(
    p: seq<T>, x: T, outer: T -> A, inner: T -> B, val: T -> V, prev: map<A, map<B, V>>,
    r: map<A, map<B, V>>)
    requires Nested(p, outer, inner, val, prev)
    requires r == Put(prev, outer(x), inner(x), val(x))
    ensures forall a :: a in r <==> exists i :: 0 <= i < |p + [x]| && outer((p + [x])[i]) == a
  {
    var xs := p + [x];
    assert xs[|p|] == x;
    assert forall j :: 0 <= j < |p| ==> xs[j] == p[j];
    forall a | a in r
      ensures exists i :: 0 <= i < |xs| && outer(xs[i]) == a
    {
      if a != outer(x) {
        var i :| 0 <= i < |p| && outer(p[i]) == a;
        assert outer(xs[i]) == a;
      }
    }
  }

  lemma StepInnerKeys<T, A(!new), B(!new), V>(
    p: seq<T>, x: T, outer: T -> A, inner: T -> B, val: T -> V, prev: map<A, map<B, V>>,
    r: map<A, map<B, V>>)
    requires Nested(p, outer, inner, val, prev)
    requires r == Put(prev, outer(x), inner(x), val(x))
    ensures forall a, b :: a in r && b in r[a] ==>
      exists i :: 0 <= i < |p + [x]| && outer((p + [x])[i]) == a && inner((p + [x])[i]) == b
  {
    var xs := p + [x];
    var n := |p|;
    assert xs[n] == x;
    assert forall j :: 0 <= j < n ==> xs[j] == p[j];
    forall a, b | a in r && b in r[a]
      ensures exists i :: 0 <= i < |xs| && outer(xs[i]) == a && inner(xs[i]) == b
    {
      if a == outer(x) && b == inner(x) {
        assert outer(xs[n]) == a && inner(xs[n]) == b;
      } else {
        assert a in prev && b in prev[a];
        var i :| 0 <= i < n && outer(p[i]) == a && inner(p[i]) == b;
        assert outer(xs[i]) == a && inner(xs[i]) == b;
      }
    }
  }

  lemma StepCover<T, A(!new), B(!new), V>(
    p: seq<T>, x: T, outer: T -> A, inner: T -> B, val: T -> V, prev: map<A, map<B, V>>,
    r: map<A, map<B, V>>)
    requires Nested(p, outer, inner, val, prev)
    requires r == Put(prev, outer(x), inner(x), val(x))
    ensures forall i :: 0 <= i < |p + [x]| ==>
      outer((p + [x])[i]) in r && inner((p + [x])[i]) in r[outer((p + [x])[i])]
  {
  }

  lemma StepLast<T, A(!new), B(!new), V>(
    p: seq<T>, x: T, outer: T -> A, inner: T -> B, val: T -> V, prev: map<A, map<B, V>>,
    r: map<A, map<B, V>>)
    requires Nested(p, outer, inner, val, prev)
    requires r == Put(prev, outer(x), inner(x), val(x))
    ensures forall i :: IsLastPair(p + [x], outer, inner, i) ==>
      r[outer((p + [x])[i])][inner((p + [x])[i])] == val((p + [x])[i])
  {
    var xs := p + [x];
    var n := |p|;
    assert xs[n] == x;
    assert forall j :: 0 <= j < n ==> xs[j] == p[j];
    forall i | IsLastPair(xs, outer, inner, i)
      ensures r[outer(xs[i])][inner(xs[i])] == val(xs[i])
    {
      if i < n {
        assert IsLastPair(p, outer, inner, i);
      }
    }
  }
}
