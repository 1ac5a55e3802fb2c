/** Python's `sorted`, as the repository uses it: a stable sort of the positions of a list
    by a key of at most two numbers. */
module StableSorting {

  /** A one-number key is the pair `(x, 0.0)`. */
  type Key = (real, real)

  predicate Less(a: Key, b: Key) {
    a.0 < b.0 || (a.0 == b.0 && a.1 < b.1)
  }

  /** Position `i` must come before position `j`: smaller key, or an equal key and an earlier position. */
  predicate Precedes(keys: seq<Key>, i: nat, j: nat)
    requires i < |keys| && j < |keys|
  {
    Less(keys[i], keys[j]) || (keys[i] == keys[j] && i < j)
  }

  predicate InRange(order: seq<nat>, n: nat) {
    forall k :: 0 <= k < |order| ==> order[k] < n
  }

  /** Every position below `n` occurs exactly once. */
  ghost predicate IsPermutation(order: seq<nat>, n: nat) {
    && |order| == n
    && InRange(order, n)
    && (forall i: nat :: i < n ==> i in order)
    && (forall a, b :: 0 <= a < b < |order| ==> order[a] != order[b])
  }

  ghost predicate Ordered(keys: seq<Key>, order: seq<nat>)
    requires InRange(order, |keys|)
  {
    forall a, b :: 0 <= a < b < |order| ==> Precedes(keys, order[a], order[b])
  }

  ghost predicate SortedUpTo(keys: seq<Key>, order: seq<nat>, n: nat) {
    && |order| == n <= |keys| && InRange(order, n)
    && Ordered(keys, order)
    && forall i: nat :: i < n ==> i in order
  }

  function Insert(keys: seq<Key>, order: seq<nat>, i: nat): (r: seq<nat>)
    requires i < |keys| && InRange(order, |keys|)
    ensures |r| == |order| + 1 && InRange(r, |keys|)
  {
    if order == [] || Less(keys[i], keys[order[0]]) then [i] + order
    else [order[0]] + Insert(keys, order[1..], i)
  }

  function OrderOfFirst(keys: seq<Key>, n: nat): (r: seq<nat>)
    requires n <= |keys|
    ensures |r| == n && InRange(r, |keys|)
  {
    if n == 0 then [] else Insert(keys, OrderOfFirst(keys, n - 1), n - 1)
  }

  /** The positions of `keys`, stably sorted. */
  function SortedIndices(keys: seq<Key>): (r: seq<nat>)
    ensures |r| == |keys| && InRange(r, |keys|)
  {
    OrderOfFirst(keys, |keys|)
  }

  lemma {:induction false} InsertedElements(keys: seq<Key>, order: seq<nat>, i: nat)
    requires i < |keys| && InRange(order, |keys|)
    ensures forall k :: k in Insert(keys, order, i) <==> k == i || k in order
  {
    if !(order == [] || Less(keys[i], keys[order[0]])) {
      InsertedElements(keys, order[1..], i);
      assert forall k :: k in order <==> k == order[0] || k in order[1..];
    }
  }

  lemma {:induction false} InsertKeepsOrder(keys: seq<Key>, order: seq<nat>, i: nat)
    requires i < |keys| && InRange(order, i) && Ordered(keys, order)
    ensures Ordered(keys, Insert(keys, order, i))
  {
    if !(order == [] || Less(keys[i], keys[order[0]])) {
      InsertKeepsOrder(keys, order[1..], i);
      InsertedElements(keys, order[1..], i);
      var rest := Insert(keys, order[1..], i);
      forall b | 0 <= b < |rest|
        ensures Precedes(keys, order[0], rest[b])
      {
        assert rest[b] in rest;
        assert rest[b] in order[1..] ==> Precedes(keys, order[0], rest[b]);
      }
    }
  }

  lemma {:induction false} OrderOfFirstSorts(keys: seq<Key>, n: nat)
    requires n <= |keys|
    ensures SortedUpTo(keys, OrderOfFirst(keys, n), n)
  {
    if n > 0 {
      OrderOfFirstSorts(keys, n - 1);
      var before := OrderOfFirst(keys, n - 1);
      InsertKeepsOrder(keys, before, n - 1);
      InsertedElements(keys, before, n - 1);
      var r := Insert(keys, before, n - 1);
      forall k | 0 <= k < |r|
        ensures r[k] < n
      {
        assert r[k] in r;
      }
    }
  }

  /** The result lists every position exactly once, in stable order of the keys. */
  lemma SortedIndicesSorts(keys: seq<Key>)
    ensures IsPermutation(SortedIndices(keys), |keys|)
    ensures Ordered(keys, SortedIndices(keys))
  {
    OrderOfFirstSorts(keys, |keys|);
    var r := SortedIndices(keys);
    forall a, b | 0 <= a < b < |r|
      ensures r[a] != r[b]
    {
      assert Precedes(keys, r[a], r[b]);
    }
  }

  lemma {:induction false} InsertLast(keys: seq<Key>, order: seq<nat>, i: nat)
    requires i < |keys| && InRange(order, |keys|)
    requires forall k :: 0 <= k < |order| ==> !Less(keys[i], keys[order[k]])
    ensures Insert(keys, order, i) == order + [i]
  {
    if order != [] { InsertLast(keys, order[1..], i); }
  }

  predicate Ascending(keys: seq<Key>) {
    forall i, k :: 0 <= i < k < |keys| ==> !Less(keys[k], keys[i])
  }

  /** What is in order already stays as it is. */
  lemma {:induction false} SortedAlready(keys: seq<Key>, n: nat)
    requires Ascending(keys) && n <= |keys|
    ensures OrderOfFirst(keys, n) == seq(n, i => i)
  {
    if n > 0 {
      SortedAlready(keys, n - 1);
      InsertLast(keys, OrderOfFirst(keys, n - 1), n - 1);
    }
  }
}
