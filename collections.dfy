/** Shared vocabulary: a result type for the pipeline's exceptions, occurrence
    counts over sequences, duplicate-free sequences, and the insertion-ordered
    dictionary (a sequence of key/value pairs) that Python's dict provides. */
module Collections {

  /** A value, or the error the source would raise instead. */
  datatype Result<T, E> = Success(value: T) | Failure(error: E)

  datatype Option<T> = None | Some(value: T)

  /** Number of occurrences of x in s (Python's list.count). */
  function Count<T(==)>(s: seq<T>, x: T): (n: nat)
    ensures n <= |s|
    ensures n > 0 <==> x in s
  {
    if s == [] then 0
    else Count(s[..|s| - 1], x) + (if s[|s| - 1] == x then 1 else 0)
  }

  lemma {:induction false} CountAppend<T>(a: seq<T>, b: seq<T>, x: T)
    ensures Count(a + b, x) == Count(a, x) + Count(b, x)
    decreases |b|
  {
    if b == [] {
      assert a + b == a;
    } else {
      assert (a + b)[..|a + b| - 1] == a + b[..|b| - 1];
      CountAppend(a, b[..|b| - 1], x);
    }
  }

  /** No element occurs twice. */
  ghost predicate Distinct<T>(s: seq<T>) {
    forall i, j :: 0 <= i < j < |s| ==> s[i] != s[j]
  }

  /** The elements of s, as a set. */
  function Elements<T>(s: seq<T>): set<T> {
    set x | x in s
  }

  lemma {:induction false} DistinctCard<T>(s: seq<T>)
    requires Distinct(s)
    ensures |Elements(s)| == |s|
  {
    if s != [] {
      var init := s[..|s| - 1];
      assert Distinct(init);
      DistinctCard(init);
      assert Elements(s) == Elements(init) + {s[|s| - 1]};
      assert s[|s| - 1] !in Elements(init);
    }
  }

  /** Some element of a non-empty set: the witness a `:|` choice needs. */
  lemma Pick<T>(s: set<T>) returns (x: T)
    requires s != {}
    ensures x in s
  {
    x :| x in s;
  }

  /** The sequence x, x, ..., x of length n. */
  function Repeat<T>(x: T, n: nat): (r: seq<T>)
    ensures |r| == n
    ensures forall i :: 0 <= i < n ==> r[i] == x
  {
    seq(n, _ => x)
  }

  lemma RepeatCount<T>(x: T, n: nat, y: T)
    ensures Count(Repeat(x, n), y) == if x == y then n else 0
  {
    if n > 0 {
      assert Repeat(x, n)[..n - 1] == Repeat(x, n - 1);
      RepeatCount(x, n - 1, y);
    }
  }

  // ---------------------------------------------------------------------------
  // Insertion-ordered dictionaries, as a sequence of (key, value) pairs.

  function KeysOf<K, V>(items: seq<(K, V)>): (ks: seq<K>)
    ensures |ks| == |items|
    ensures forall i :: 0 <= i < |items| ==> ks[i] == items[i].0
  {
    seq(|items|, i requires 0 <= i < |items| => items[i].0)
  }

  /** The dictionary invariant: each key occurs once. */
  ghost predicate DistinctKeys<K, V>(items: seq<(K, V)>) {
    forall i, j :: 0 <= i < j < |items| ==> items[i].0 != items[j].0
  }

  /** `d[k] = v`: a present key keeps its position and takes the new value;
      a new key goes to the end. */
  function Put<K(==), V>(items: seq<(K, V)>, k: K, v: V): (r: seq<(K, V)>)
    requires DistinctKeys(items)
    ensures k in KeysOf(items) ==> |r| == |items|
    ensures k !in KeysOf(items) ==> r == items + [(k, v)]
    ensures forall i :: 0 <= i < |items| ==>
              r[i] == if items[i].0 == k then (k, v) else items[i]
    ensures DistinctKeys(r)
  {
    if items == [] then [(k, v)]
    else if items[0].0 == k then [(k, v)] + items[1..]
    else
      assert KeysOf(items[1..]) == KeysOf(items)[1..];
      [items[0]] + Put(items[1..], k, v)
  }

  /** A present key's key set is unchanged by `d[k] = v`; a new key joins it. */
  lemma PutKeys<K, V>(items: seq<(K, V)>, k: K, v: V)
    requires DistinctKeys(items)
    ensures Elements(KeysOf(Put(items, k, v))) == Elements(KeysOf(items)) + {k}
  {
    var r := Put(items, k, v);
    if k in KeysOf(items) {
      assert KeysOf(r) == KeysOf(items);
    } else {
      assert KeysOf(r) == KeysOf(items) + [k];
    }
  }

  /** The dictionary left by `d[k] = v` for each pair in turn, from empty. */
  function DictOf<K(==), V>(pairs: seq<(K, V)>): (d: seq<(K, V)>)
    ensures DistinctKeys(d)
  {
    if pairs == [] then []
    else Put(DictOf(pairs[..|pairs| - 1]), pairs[|pairs| - 1].0, pairs[|pairs| - 1].1)
  }

  /** The dictionary's keys are the keys assigned. */
  lemma {:induction false} DictOfKeys<K, V>(pairs: seq<(K, V)>)
    ensures Elements(KeysOf(DictOf(pairs))) == Elements(KeysOf(pairs))
  {
    if pairs != [] {
      var init, last := pairs[..|pairs| - 1], pairs[|pairs| - 1];
      DictOfKeys(init);
      PutKeys(DictOf(init), last.0, last.1);
      KeysSnoc(pairs);
    }
  }

  lemma KeysSnoc<K, V>(pairs: seq<(K, V)>)
    requires pairs != []
    ensures Elements(KeysOf(pairs))
         == Elements(KeysOf(pairs[..|pairs| - 1])) + {pairs[|pairs| - 1].0}
  {
    assert KeysOf(pairs) == KeysOf(pairs[..|pairs| - 1]) + [pairs[|pairs| - 1].0];
  }

  /** Assigning distinct keys builds the pairs themselves, in order. */
  lemma {:induction false} DictOfDistinct<K, V>(pairs: seq<(K, V)>)
    requires Distinct(KeysOf(pairs))
    ensures DictOf(pairs) == pairs
  {
    if pairs != [] {
      var init, last := pairs[..|pairs| - 1], pairs[|pairs| - 1];
      assert KeysOf(init) == KeysOf(pairs)[..|pairs| - 1];
      DictOfDistinct(init);
      assert last.0 !in KeysOf(init) by {
        assert KeysOf(pairs)[|pairs| - 1] == last.0;
      }
    }
  }

  /** `d[k]` when present (for a dictionary each key occurs once). */
  function Get<K(==), V>(items: seq<(K, V)>, k: K): (r: Option<V>)
    ensures r.Some? <==> k in KeysOf(items)
    ensures r.Some? ==> (k, r.value) in items
  {
    if items == [] then None
    else if items[0].0 == k then Some(items[0].1)
    else
      assert KeysOf(items[1..]) == KeysOf(items)[1..];
      Get(items[1..], k)
  }

  /** In a sequence with distinct keys no pair occurs twice. */
  lemma {:induction false} DistinctKeysMultiplicity<K, V>(b: seq<(K, V)>, x: (K, V))
    requires DistinctKeys(b)
    ensures multiset(b)[x] <= 1
  {
    if b != [] {
      var init := b[..|b| - 1];
      assert b == init + [b[|b| - 1]];
      assert DistinctKeys(init);
      DistinctKeysMultiplicity(init, x);
      if x == b[|b| - 1] {
        assert x !in init;
      }
    }
  }

  /** A rearrangement of a dictionary's items still has distinct keys. */
  lemma DistinctKeysPerm<K, V>(a: seq<(K, V)>, b: seq<(K, V)>)
    requires multiset(a) == multiset(b) && DistinctKeys(b)
    ensures DistinctKeys(a)
  {
    forall i, j | 0 <= i < j < |a| ensures a[i].0 != a[j].0 {
      if a[i].0 == a[j].0 {
        assert a[i] in multiset(b) && a[j] in multiset(b);
        var bi :| 0 <= bi < |b| && b[bi] == a[i];
        var bj :| 0 <= bj < |b| && b[bj] == a[j];
        assert bi == bj;
        assert a == a[..j] + a[j..];
        assert a[i] in a[..j] && a[j] in a[j..];
        assert multiset(a)[a[i]] >= 2;
        DistinctKeysMultiplicity(b, a[i]);
      }
    }
  }

  /** A rearrangement has the same key set. */
  lemma KeysPerm<K, V>(a: seq<(K, V)>, b: seq<(K, V)>)
    requires multiset(a) == multiset(b)
    ensures Elements(KeysOf(a)) == Elements(KeysOf(b))
  {
    forall k | k in Elements(KeysOf(a)) ensures k in Elements(KeysOf(b)) {
      var i :| 0 <= i < |a| && a[i].0 == k;
      assert a[i] in multiset(b);
      var j :| 0 <= j < |b| && b[j] == a[i];
      assert KeysOf(b)[j] == k;
    }
    forall k | k in Elements(KeysOf(b)) ensures k in Elements(KeysOf(a)) {
      var j :| 0 <= j < |b| && b[j].0 == k;
      assert b[j] in multiset(a);
      var i :| 0 <= i < |a| && a[i] == b[j];
      assert KeysOf(a)[i] == k;
    }
  }
}
