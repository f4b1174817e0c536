/** Lists of records identified by a key, as the form keeps its payees and
    its expense rows: append with a fresh key, and remove by key with
    `filter(item => item.id !== id)`. */
module Keyed {

  /** No record of `xs` carries key `k`. */
  predicate Fresh<T, K(==)>(xs: seq<T>, key: T -> K, k: K)
  {
    forall i :: 0 <= i < |xs| ==> key(xs[i]) != k
  }

  /** Keys identify records: no two positions share one. */
  predicate UniqueKeys<T, K(==)>(xs: seq<T>, key: T -> K)
  {
    forall i, j :: 0 <= i < j < |xs| ==> key(xs[i]) != key(xs[j])
  }

  /** The records whose key differs from `k`, in their original order. */
  function RemoveKey<T(==), K(==)>(xs: seq<T>, key: T -> K, k: K): (r: seq<T>)
    ensures |r| <= |xs|
    ensures forall i :: 0 <= i < |r| ==> r[i] in xs && key(r[i]) != k
    ensures forall i :: 0 <= i < |xs| && key(xs[i]) != k ==> xs[i] in r
  {
    if xs == [] then []
    else RemoveKey(xs[..|xs| - 1], key, k) + (if key(xs[|xs| - 1]) != k then [xs[|xs| - 1]] else [])
  }

  /** Removal distributes over concatenation: it never reorders records. */
  lemma {:induction false} RemoveConcat<T, K>(a: seq<T>, b: seq<T>, key: T -> K, k: K)
    ensures RemoveKey(a + b, key, k) == RemoveKey(a, key, k) + RemoveKey(b, key, k)
  {
    if b == [] {
      assert a + b == a;
    } else {
      var b' := b[..|b| - 1];
      assert (a + b)[..|a + b| - 1] == a + b';
      RemoveConcat(a, b', key, k);
    }
  }

  /** Removing a key nobody carries changes nothing. */
  lemma {:induction false} RemoveAbsent<T, K>(xs: seq<T>, key: T -> K, k: K)
    requires Fresh(xs, key, k)
    ensures RemoveKey(xs, key, k) == xs
  {
    if xs != [] {
      RemoveAbsent(xs[..|xs| - 1], key, k);
    }
  }

  /** Appending a record with a fresh key and removing that key restores the list. */
  lemma AddThenRemove<T, K>(xs: seq<T>, x: T, key: T -> K)
    requires Fresh(xs, key, key(x))
    ensures RemoveKey(xs + [x], key, key(x)) == xs
  {
    assert (xs + [x])[..|xs|] == xs;
    RemoveAbsent(xs, key, key(x));
  }

  /** Appending a record with a fresh key keeps keys unique. */
  lemma AppendFresh<T, K>(xs: seq<T>, x: T, key: T -> K)
    requires UniqueKeys(xs, key)
    requires Fresh(xs, key, key(x))
    ensures UniqueKeys(xs + [x], key)
  {
  }

  /** Removal keeps keys unique. */
  lemma {:induction false} RemoveKeepsUnique<T, K>(xs: seq<T>, key: T -> K, k: K)
    requires UniqueKeys(xs, key)
    ensures UniqueKeys(RemoveKey(xs, key, k), key)
  {
    if xs != [] {
      var p, x := xs[..|xs| - 1], xs[|xs| - 1];
      RemoveKeepsUnique(p, key, k);
      var rp := RemoveKey(p, key, k);
      if key(x) != k {
        forall i | 0 <= i < |rp|
          ensures key(rp[i]) != key(x)
        {
          assert rp[i] in p;
        }
      }
    }
  }

  /** With unique keys a removal drops at most one record, and exactly one
      when the key is present. */
  lemma {:induction false} RemoveDropsAtMostOne<T, K>(xs: seq<T>, key: T -> K, k: K)
    requires UniqueKeys(xs, key)
    ensures Fresh(xs, key, k) ==> |RemoveKey(xs, key, k)| == |xs|
    ensures !Fresh(xs, key, k) ==> |RemoveKey(xs, key, k)| == |xs| - 1
  {
    if xs != [] {
      var p, x := xs[..|xs| - 1], xs[|xs| - 1];
      RemoveDropsAtMostOne(p, key, k);
      if key(x) == k {
        assert Fresh(p, key, k);
      } else {
        assert Fresh(xs, key, k) <==> Fresh(p, key, k);
      }
    }
  }
}
