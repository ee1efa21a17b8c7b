/**
 * An insertion-ordered map, the behaviour of a JavaScript `Map`: iteration
 * follows the order in which keys were first inserted, re-setting a key keeps
 * its position, and deleting a key closes the gap.
 */
module OrderedMaps {

  /** No element occurs twice. */
  ghost predicate Distinct<T>(s: seq<T>)
  {
    forall i, j :: 0 <= i < j < |s| ==> s[i] != s[j]
  }

  /** The position of the first occurrence of `x` in `s`. */
  function FirstIndex<T(==)>(s: seq<T>, x: T): (r: nat)
    requires x in s
    ensures r < |s| && s[r] == x
    ensures forall k :: 0 <= k < r ==> s[k] != x
  {
    if s[0] == x then 0 else 1 + FirstIndex(s[1..], x)
  }

  /** The position of the last occurrence of `x` in `s`. */
  function LastIndex<T(==)>(s: seq<T>, x: T): (r: nat)
    requires x in s
    ensures r < |s| && s[r] == x
    ensures forall k :: r < k < |s| ==> s[k] != x
  {
    if s[|s| - 1] == x then |s| - 1 else LastIndex(s[..|s| - 1], x)
  }

  /** Any occurrence of `x` is at or after its first occurrence. */
  lemma FirstIndexAtMost<T>(s: seq<T>, x: T, p: nat)
    requires p < |s| && s[p] == x
    ensures FirstIndex(s, x) <= p
  {
  }

  /** If `x` is missing from the first `p` elements, its first occurrence is not among them. */
  lemma FirstIndexAtLeast<T>(s: seq<T>, x: T, p: nat)
    requires x in s && p <= |s| && x !in s[..p]
    ensures FirstIndex(s, x) >= p
  {
  }

  /** In a sequence without repetitions, the first occurrence of `s[q]` is at `q`. */
  lemma FirstIndexOfDistinct<T>(s: seq<T>, q: nat)
    requires Distinct(s) && q < |s|
    ensures FirstIndex(s, s[q]) == q
  {
  }

  /**
   * The elements of `r` are elements of `s` and appear in `r` in the order of
   * their first occurrences in `s`.
   */
  ghost predicate OrderedBy<T>(r: seq<T>, s: seq<T>)
  {
    && (forall y :: y in r ==> y in s)
    && forall i, j :: 0 <= i < j < |r| ==> r[i] in s && r[j] in s && FirstIndex(s, r[i]) < FirstIndex(s, r[j])
  }

  /** Extending an ordered sequence with an element that occurs later in `s` keeps it ordered. */
  lemma OrderedByAppend<T>(r: seq<T>, s: seq<T>, x: T)
    requires OrderedBy(r, s) && x in s
    requires forall y :: y in r ==> FirstIndex(s, y) < FirstIndex(s, x)
    ensures OrderedBy(r + [x], s)
  {
    var r' := r + [x];
    forall i, j | 0 <= i < j < |r'|
      ensures r'[i] in s && r'[j] in s && FirstIndex(s, r'[i]) < FirstIndex(s, r'[j])
    {
      if j == |r| {
        assert r'[i] == r[i] && r[i] in r;
      }
    }
  }

  /**
   * Appending the element at position `n` of `s`, when it does not occur
   * before `n`, to a sequence drawn from the first `n` elements keeps it
   * ordered.
   */
  lemma AppendInOrder<T>(r: seq<T>, s: seq<T>, n: nat)
    requires n < |s| && OrderedBy(r, s) && s[n] !in s[..n]
    requires forall y :: y in r ==> y in s[..n]
    ensures OrderedBy(r + [s[n]], s)
  {
    FirstIndexAtLeast(s, s[n], n);
    forall y | y in r ensures FirstIndex(s, y) < FirstIndex(s, s[n]) {
      var q :| 0 <= q < n && s[..n][q] == y;
      FirstIndexAtMost(s, y, q);
    }
    OrderedByAppend(r, s, s[n]);
  }

  /** AppendInOrder for the part of `r` after its first `a` elements. */
  lemma AppendInOrderAfter<T>(r: seq<T>, a: nat, s: seq<T>, n: nat)
    requires a <= |r| && n < |s| && OrderedBy(r[a..], s) && s[n] !in s[..n]
    requires forall y :: y in r[a..] ==> y in s[..n]
    ensures OrderedBy((r + [s[n]])[a..], s)
  {
    AppendInOrder(r[a..], s, n);
    assert (r + [s[n]])[a..] == r[a..] + [s[n]];
  }

  /** In a sequence without repetitions no element occurs before its own position. */
  lemma DistinctNotBefore<T>(s: seq<T>, n: nat)
    requires Distinct(s) && n < |s|
    ensures s[n] !in s[..n]
  {
  }

  /** `s` without any occurrence of `x`, the rest kept in order. */
  function Without<T(==)>(s: seq<T>, x: T): (r: seq<T>)
    ensures forall y :: y in r ==> y in s && y != x
    ensures forall y :: y in s && y != x ==> y in r
    ensures x !in s ==> r == s
    ensures Distinct(s) ==> Distinct(r)
  {
    if s == [] then []
    else if s[0] == x then Without(s[1..], x)
    else
      var rest := Without(s[1..], x);
      assert Distinct(s) ==> Distinct(s[1..]) && s[0] !in s[1..];
      [s[0]] + rest
  }

  /** Order by first occurrence in the tail of `s` is order in `s`, after its head. */
  lemma OrderedByTail<T>(r: seq<T>, s: seq<T>)
    requires s != [] && s[0] !in r && OrderedBy(r, s[1..])
    ensures OrderedBy(r, s)
    ensures forall y :: y in r ==> 0 < FirstIndex(s, y)
  {
    forall y | y in r ensures FirstIndex(s, y) == 1 + FirstIndex(s[1..], y) {
      assert y != s[0];
    }
  }

  /** The head of `s` may be put in front of elements that occur after it. */
  lemma OrderedByCons<T>(r: seq<T>, s: seq<T>)
    requires s != [] && OrderedBy(r, s)
    requires forall y :: y in r ==> 0 < FirstIndex(s, y)
    ensures OrderedBy([s[0]] + r, s)
  {
    var r' := [s[0]] + r;
    forall i, j | 0 <= i < j < |r'|
      ensures r'[i] in s && r'[j] in s && FirstIndex(s, r'[i]) < FirstIndex(s, r'[j])
    {
      assert r'[j] == r[j - 1] && r[j - 1] in r;
      if i == 0 {
        assert FirstIndex(s, r'[0]) == 0;
      } else {
        assert r'[i] == r[i - 1];
      }
    }
  }

  /** Removing an element from a sequence without repetitions keeps the order of the others. */
  lemma {:induction false} WithoutOrdered<T>(s: seq<T>, x: T)
    requires Distinct(s)
    ensures OrderedBy(Without(s, x), s)
  {
    if s != [] {
      assert Distinct(s[1..]) && s[0] !in s[1..];
      WithoutOrdered(s[1..], x);
      OrderedByTail(Without(s[1..], x), s);
      if s[0] != x {
        OrderedByCons(Without(s[1..], x), s);
      }
    }
  }

  /**
   * A map whose iteration order is `keys`. Valid() is the invariant a
   * JavaScript `Map` keeps: every key once, exactly the keys of `values`.
   */
  datatype OrderedMap<K(==), V> = OrderedMap(keys: seq<K>, values: map<K, V>)
  {
    ghost predicate Valid()
    {
      && Distinct(keys)
      && (forall k :: k in values ==> k in keys)
      && (forall k :: k in keys ==> k in values)
    }

    /** Every key in the iteration order has a value: the part of Valid() a lookup while iterating needs. */
    ghost predicate KeysHaveValues()
    {
      forall k :: k in keys ==> k in values
    }

    /**
     * `Map.set`: the value of `k` becomes `v`; a key already present keeps its
     * position, a new key is placed after all others.
     */
    function Put(k: K, v: V): (r: OrderedMap<K, V>)
      ensures r.values == values[k := v]
      ensures r.keys == if k in values then keys else keys + [k]
    {
      if k in values then OrderedMap(keys, values[k := v])
      else OrderedMap(keys + [k], values[k := v])
    }

    /**
     * `Map.delete`: `k` is gone, every other entry keeps its value and the
     * relative order of the remaining keys is unchanged; deleting an absent
     * key changes nothing.
     */
    function Remove(k: K): (r: OrderedMap<K, V>)
      requires Valid()
      ensures r.Valid()
      ensures r.values == values - {k}
      ensures OrderedBy(r.keys, keys)
      ensures k !in values ==> r == this
    {
      WithoutOrdered(keys, k);
      OrderedMap(Without(keys, k), values - {k})
    }
  }

  /** `Map.set` keeps every key once and exactly the keys of the map. */
  lemma PutValid<K, V>(m: OrderedMap<K, V>, k: K, v: V)
    requires m.Valid()
    ensures m.Put(k, v).Valid()
  {
  }

  /** `Map.delete` is idempotent: deleting a key a second time changes nothing. */
  lemma RemoveTwice<K, V>(m: OrderedMap<K, V>, k: K)
    requires m.Valid()
    ensures m.Remove(k).Remove(k) == m.Remove(k)
  {
  }

  /** A new, empty `Map`. */
  function Empty<K, V>(): (r: OrderedMap<K, V>)
    ensures r.Valid() && r.keys == [] && r.values == map[]
  {
    OrderedMap([], map[])
  }
}
