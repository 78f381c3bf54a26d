/**
 * PHP's ordered arrays as sequences of key/value pairs. A PHP array keeps its
 * keys in first-insertion order; assigning to an existing key replaces the
 * value in place, assigning to a new key appends. `array_flip` is the
 * left-to-right series of such assignments with keys and values swapped.
 */
module PhpArray {
  import opened Wrappers

  type OrderedArray<K, V> = seq<(K, V)>

  function Keys<K, V>(a: OrderedArray<K, V>): seq<K> {
    seq(|a|, i requires 0 <= i < |a| => a[i].0)
  }

  /**
   * The distinct elements of `ks`, each at the position of its first
   * occurrence: the key order of an array filled by assigning to the keys
   * `ks` one after another.
   */
  function FirstOccurrences<K(==)>(ks: seq<K>): seq<K>
    decreases |ks|
  {
    if |ks| == 0 then []
    else
      var ks' := ks[..|ks| - 1];
      FirstOccurrences(ks') + (if ks[|ks| - 1] in ks' then [] else [ks[|ks| - 1]])
  }

  lemma FirstOccurrencesSnoc<K>(ks: seq<K>, k: K)
    ensures FirstOccurrences(ks + [k]) == FirstOccurrences(ks) + (if k in ks then [] else [k])
  {
    assert (ks + [k])[..|ks|] == ks;
  }

  /** An element occurs in its first occurrences exactly when it occurs at all. */
  lemma {:induction false} FirstOccurrencesElems<K>(ks: seq<K>, k: K)
    ensures k in FirstOccurrences(ks) <==> k in ks
    decreases |ks|
  {
    if |ks| > 0 {
      var ks' := ks[..|ks| - 1];
      FirstOccurrencesElems(ks', k);
      assert ks == ks' + [ks[|ks| - 1]];
    }
  }

  /** A sequence without repeats is its own first occurrences. */
  lemma {:induction false} FirstOccurrencesDistinct<K>(ks: seq<K>)
    requires forall i, j :: 0 <= i < j < |ks| ==> ks[i] != ks[j]
    ensures FirstOccurrences(ks) == ks
    decreases |ks|
  {
    if |ks| > 0 {
      var ks' := ks[..|ks| - 1];
      FirstOccurrencesDistinct(ks');
      assert ks[|ks| - 1] !in ks' by {
        forall i | 0 <= i < |ks'|
          ensures ks'[i] != ks[|ks| - 1]
        {
          assert ks'[i] == ks[i];
        }
      }
      assert ks == ks' + [ks[|ks| - 1]];
    }
  }

  /** `array_key_exists($k, $a)`. */
  predicate HasKey<K(==), V>(a: OrderedArray<K, V>, k: K) {
    exists i :: 0 <= i < |a| && a[i].0 == k
  }

  /** The keys of an array are the elements of its key sequence. */
  lemma KeysHasKey<K, V>(a: OrderedArray<K, V>, k: K)
    ensures HasKey(a, k) <==> k in Keys(a)
  {
    if k in Keys(a) {
      var i :| 0 <= i < |a| && Keys(a)[i] == k;
    }
    if HasKey(a, k) {
      var i :| 0 <= i < |a| && a[i].0 == k;
      assert Keys(a)[i] == k;
    }
  }

  /** A key of a non-empty array is its first key or a key of the rest. */
  lemma HasKeyFirst<K, V>(a: OrderedArray<K, V>, k: K)
    requires |a| > 0
    ensures HasKey(a, k) <==> a[0].0 == k || HasKey(a[1..], k)
  {
    if HasKey(a[1..], k) {
      var i :| 0 <= i < |a[1..]| && a[1..][i].0 == k;
      assert a[i + 1].0 == k;
    }
    if HasKey(a, k) && a[0].0 != k {
      var i :| 0 <= i < |a| && a[i].0 == k;
      assert a[1..][i - 1].0 == k;
    }
  }

  /** Every key occurs once, as in any PHP array. */
  ghost predicate UniqueKeys<K, V>(a: OrderedArray<K, V>) {
    forall i, j :: 0 <= i < j < |a| ==> a[i].0 != a[j].0
  }

  /** `$a[$k] ?? null`. */
  function Lookup<K(==), V>(a: OrderedArray<K, V>, k: K): (r: Option<V>)
    ensures r.None? <==> !HasKey(a, k)
    ensures r.Some? ==> exists i :: 0 <= i < |a| && a[i] == (k, r.value)
    ensures UniqueKeys(a) ==> forall i :: 0 <= i < |a| && a[i].0 == k ==> r == Some(a[i].1)
    decreases |a|
  {
    if |a| == 0 then None
    else if a[0].0 == k then Some(a[0].1)
    else
      var r := Lookup(a[1..], k);
      assert forall i :: 1 <= i < |a| ==> a[i] == a[1..][i - 1];
      r
  }

  /** `$a[$k] = $v`: replaces the value in place, or appends a new key. */
  function Put<K(==), V>(a: OrderedArray<K, V>, k: K, v: V): (r: OrderedArray<K, V>)
    requires UniqueKeys(a)
    ensures UniqueKeys(r)
    ensures !HasKey(a, k) ==> r == a + [(k, v)]
    ensures HasKey(a, k) ==> |r| == |a|
    ensures HasKey(a, k) ==> forall i :: 0 <= i < |a| ==> r[i] == if a[i].0 == k then (k, v) else a[i]
    decreases |a|
  {
    if |a| == 0 then [(k, v)]
    else if a[0].0 == k then [(k, v)] + a[1..]
    else
      var r' := Put(a[1..], k, v);
      assert HasKey(a, k) <==> HasKey(a[1..], k) by {
        if HasKey(a, k) {
          var i :| 0 <= i < |a| && a[i].0 == k;
          assert a[1..][i - 1].0 == k;
        }
      }
      [a[0]] + r'
  }

  /** After `$a[$k] = $v`, `$a[$k]` is `$v` and every other key reads as before. */
  lemma PutLookup<K, V>(a: OrderedArray<K, V>, k: K, v: V, j: K)
    requires UniqueKeys(a)
    ensures Lookup(Put(a, k, v), k) == Some(v)
    ensures j != k ==> Lookup(Put(a, k, v), j) == Lookup(a, j)
    ensures HasKey(Put(a, k, v), j) <==> HasKey(a, j) || j == k
  {
    PutLookupSame(a, k, v);
    PutLookupOther(a, k, v, j);
  }

  lemma PutLookupSame<K, V>(a: OrderedArray<K, V>, k: K, v: V)
    requires UniqueKeys(a)
    ensures Lookup(Put(a, k, v), k) == Some(v)
  {
    var r := Put(a, k, v);
    if HasKey(a, k) {
      var i :| 0 <= i < |a| && a[i].0 == k;
      assert r[i] == (k, v);
    } else {
      assert r[|a|] == (k, v);
    }
  }

  lemma PutLookupOther<K, V>(a: OrderedArray<K, V>, k: K, v: V, j: K)
    requires UniqueKeys(a)
    ensures j != k ==> Lookup(Put(a, k, v), j) == Lookup(a, j)
    ensures HasKey(Put(a, k, v), j) <==> HasKey(a, j) || j == k
  {
    PutHasKey(a, k, v, j);
    var r := Put(a, k, v);
    if j != k && HasKey(a, j) {
      var i :| 0 <= i < |a| && a[i].0 == j;
      assert r[i] == a[i];
    }
  }

  lemma PutHasKey<K, V>(a: OrderedArray<K, V>, k: K, v: V, j: K)
    requires UniqueKeys(a)
    ensures HasKey(Put(a, k, v), j) <==> HasKey(a, j) || j == k
  {
    var r := Put(a, k, v);
    if HasKey(a, k) {
      forall i | 0 <= i < |a|
        ensures r[i].0 == a[i].0
      {
      }
      SameKeys(a, r, j);
      var i :| 0 <= i < |a| && a[i].0 == k;
    } else {
      AppendKey(a, k, v, j);
    }
  }

  /** Arrays with the same keys position by position have the same keys. */
  lemma SameKeys<K, V>(a: OrderedArray<K, V>, b: OrderedArray<K, V>, j: K)
    requires |a| == |b|
    requires forall i :: 0 <= i < |a| ==> a[i].0 == b[i].0
    ensures HasKey(a, j) <==> HasKey(b, j)
  {
    if HasKey(a, j) {
      var i :| 0 <= i < |a| && a[i].0 == j;
      assert b[i].0 == j;
    }
    if HasKey(b, j) {
      var i :| 0 <= i < |b| && b[i].0 == j;
      assert a[i].0 == j;
    }
  }

  /** Appending a pair adds exactly its key. */
  lemma AppendKey<K, V>(a: OrderedArray<K, V>, k: K, v: V, j: K)
    ensures HasKey(a + [(k, v)], j) <==> HasKey(a, j) || j == k
  {
    var r := a + [(k, v)];
    assert r[|a|].0 == k;
    if HasKey(a, j) {
      var i :| 0 <= i < |a| && a[i].0 == j;
      assert r[i].0 == j;
    }
    if HasKey(r, j) && j != k {
      var i :| 0 <= i < |r| && r[i].0 == j;
      assert a[i].0 == j;
    }
  }

  /** An assignment appends a new key at the end and leaves the key order otherwise alone. */
  lemma PutKeys<K, V>(a: OrderedArray<K, V>, k: K, v: V)
    requires UniqueKeys(a)
    ensures Keys(Put(a, k, v)) == Keys(a) + (if HasKey(a, k) then [] else [k])
  {
    var r := Put(a, k, v);
    if HasKey(a, k) {
      forall i | 0 <= i < |a|
        ensures Keys(r)[i] == Keys(a)[i]
      {
      }
    } else {
      forall i | 0 <= i < |a|
        ensures Keys(r)[i] == Keys(a)[i]
      {
        assert r[i] == a[i];
      }
      assert Keys(r)[|a|] == k;
    }
  }

  /** Filling an array key by key gives the keys in order of first assignment. */
  lemma PutFirstOccurrences<K, V>(a: OrderedArray<K, V>, ks: seq<K>, k: K, v: V)
    requires UniqueKeys(a) && Keys(a) == FirstOccurrences(ks)
    ensures Keys(Put(a, k, v)) == FirstOccurrences(ks + [k])
  {
    PutKeys(a, k, v);
    KeysHasKey(a, k);
    FirstOccurrencesElems(ks, k);
    FirstOccurrencesSnoc(ks, k);
  }

  /** Each entry after `$a[$k] = $v` is the assigned pair or the entry that was there. */
  lemma PutEntry<K, V>(a: OrderedArray<K, V>, k: K, v: V, m: nat)
    requires UniqueKeys(a)
    requires m < |Put(a, k, v)|
    ensures Put(a, k, v)[m] == (k, v) || (m < |a| && Put(a, k, v)[m] == a[m])
  {
  }

  /** The pairs of `a` with key and value exchanged, in the same order. */
  function Swap<K, V>(a: OrderedArray<K, V>): (r: OrderedArray<V, K>)
    ensures |r| == |a|
    ensures forall i :: 0 <= i < |a| ==> r[i] == (a[i].1, a[i].0)
  {
    seq(|a|, i requires 0 <= i < |a| => (a[i].1, a[i].0))
  }

  /** Every pair of `r` is some pair of `a` with key and value exchanged. */
  ghost predicate SwappedFrom<K, V>(r: OrderedArray<V, K>, a: OrderedArray<K, V>) {
    forall m :: 0 <= m < |r| ==> exists i :: 0 <= i < |a| && a[i] == (r[m].1, r[m].0)
  }

  /** `array_flip($a)`. */
  function Flip<K, V(==)>(a: OrderedArray<K, V>): (r: OrderedArray<V, K>)
    ensures UniqueKeys(r)
    ensures |r| <= |a|
    ensures forall i :: 0 <= i < |a| ==> HasKey(r, a[i].1)
    ensures SwappedFrom(r, a)
    decreases |a|
  {
    if |a| == 0 then []
    else
      var a' := a[..|a| - 1];
      var k, v := a[|a| - 1].0, a[|a| - 1].1;
      var r' := Flip(a');
      FlipStepCovers(a, a', r');
      FlipStepFrom(a, a', r');
      Put(r', v, k)
  }

  /** One step of `array_flip` keeps every value seen so far as a key. */
  lemma FlipStepCovers<K, V>(a: OrderedArray<K, V>, a': OrderedArray<K, V>, r': OrderedArray<V, K>)
    requires |a| > 0 && a' == a[..|a| - 1] && UniqueKeys(r')
    requires forall i :: 0 <= i < |a'| ==> HasKey(r', a'[i].1)
    ensures forall i :: 0 <= i < |a| ==> HasKey(Put(r', a[|a| - 1].1, a[|a| - 1].0), a[i].1)
  {
    var k, v := a[|a| - 1].0, a[|a| - 1].1;
    forall i | 0 <= i < |a|
      ensures HasKey(Put(r', v, k), a[i].1)
    {
      PutHasKey(r', v, k, a[i].1);
      if i < |a'| {
        assert a'[i] == a[i];
      }
    }
  }

  /** One step of `array_flip` adds no pair that is not a swapped input pair. */
  lemma FlipStepFrom<K, V>(a: OrderedArray<K, V>, a': OrderedArray<K, V>, r': OrderedArray<V, K>)
    requires |a| > 0 && a' == a[..|a| - 1] && UniqueKeys(r')
    requires SwappedFrom(r', a')
    ensures SwappedFrom(Put(r', a[|a| - 1].1, a[|a| - 1].0), a)
  {
    var k, v := a[|a| - 1].0, a[|a| - 1].1;
    var r := Put(r', v, k);
    forall m | 0 <= m < |r|
      ensures exists i :: 0 <= i < |a| && a[i] == (r[m].1, r[m].0)
    {
      PutEntry(r', v, k, m);
      if r[m] != (v, k) {
        var i :| 0 <= i < |a'| && a'[i] == (r'[m].1, r'[m].0);
        assert a[i] == a'[i];
      }
    }
  }

  /**
   * The overwrite rule of `array_flip`: when several entries share a value, the
   * flipped array maps that value to the key of the LAST of them.
   */
  lemma {:induction false} FlipLastWins<K, V>(a: OrderedArray<K, V>, i: nat)
    requires i < |a|
    requires forall j :: i < j < |a| ==> a[j].1 != a[i].1
    ensures Lookup(Flip(a), a[i].1) == Some(a[i].0)
    decreases |a|
  {
    var a', k, v := FlipSnoc(a);
    if i < |a| - 1 {
      forall j | i < j < |a'|
        ensures a'[j].1 != a'[i].1
      {
        assert a'[j] == a[j] && a'[i] == a[i];
      }
      FlipLastWins(a', i);
      PutLookupOther(Flip(a'), v, k, a[i].1);
    } else {
      PutLookupSame(Flip(a'), v, k);
    }
  }

  /** Two entries sharing a value leave the flipped array shorter than the input. */
  lemma {:induction false} FlipShorterOnRepeat<K, V>(a: OrderedArray<K, V>, i: nat, j: nat)
    requires i < j < |a|
    requires a[i].1 == a[j].1
    ensures |Flip(a)| < |a|
    decreases |a|
  {
    var a' := a[..|a| - 1];
    if j < |a| - 1 {
      FlipShorterOnRepeat(a', i, j);
    } else {
      assert a'[i] == a[i];
      assert HasKey(Flip(a'), a[j].1);
    }
  }

  /** A key whose value a later entry repeats is lost by `array_flip`. */
  lemma FlipDropsShadowedKey<K, V>(a: OrderedArray<K, V>, i: nat, j: nat)
    requires i < j < |a|
    requires a[i].1 == a[j].1 && a[i].0 != a[j].0
    requires forall m :: j < m < |a| ==> a[m].1 != a[j].1
    ensures Lookup(Flip(a), a[i].1) == Some(a[j].0)
    ensures |Flip(a)| < |a|
  {
    FlipLastWins(a, j);
    FlipShorterOnRepeat(a, i, j);
  }

  /** Without repeated values `array_flip` loses nothing: it is the pairwise swap. */
  lemma {:induction false} FlipDistinctValues<K, V>(a: OrderedArray<K, V>)
    requires forall i, j :: 0 <= i < j < |a| ==> a[i].1 != a[j].1
    ensures Flip(a) == Swap(a)
    decreases |a|
  {
    if |a| > 0 {
      var a', k, v := FlipSnoc(a);
      DistinctPrefix(a, a', k, v);
      FlipDistinctValues(a');
      SwapAppend(a', k, v);
    }
  }

  /** One step of the fold: the last pair is assigned after the rest is flipped. */
  lemma FlipSnoc<K, V>(a: OrderedArray<K, V>) returns (a': OrderedArray<K, V>, k: K, v: V)
    requires |a| > 0
    ensures a' == a[..|a| - 1] && a == a' + [(k, v)]
    ensures Flip(a) == Put(Flip(a'), v, k)
  {
    a', k, v := a[..|a| - 1], a[|a| - 1].0, a[|a| - 1].1;
    assert a == a' + [(k, v)];
  }

  /** Distinct values stay distinct in the prefix, and none of them is the last value. */
  lemma DistinctPrefix<K, V>(a: OrderedArray<K, V>, a': OrderedArray<K, V>, k: K, v: V)
    requires a == a' + [(k, v)]
    requires forall i, j :: 0 <= i < j < |a| ==> a[i].1 != a[j].1
    ensures forall i, j :: 0 <= i < j < |a'| ==> a'[i].1 != a'[j].1
    ensures forall i :: 0 <= i < |a'| ==> a'[i].1 != v
  {
    forall i | 0 <= i < |a'|
      ensures a'[i] == a[i]
    {
    }
    assert a[|a'|] == (k, v);
  }

  /** Appending a pair whose value is new to a swap-shaped array appends its swap. */
  lemma SwapAppend<K, V>(a': OrderedArray<K, V>, k: K, v: V)
    requires UniqueKeys(Swap(a'))
    requires forall i :: 0 <= i < |a'| ==> a'[i].1 != v
    ensures Put(Swap(a'), v, k) == Swap(a' + [(k, v)])
  {
    SwapMissing(a', v);
    SwapSnoc(a', k, v);
  }

  /** A value that no pair carries is not a key of the swap. */
  lemma SwapMissing<K, V>(a: OrderedArray<K, V>, v: V)
    requires forall i :: 0 <= i < |a| ==> a[i].1 != v
    ensures !HasKey(Swap(a), v)
  {
    var s := Swap(a);
    forall m | 0 <= m < |s|
      ensures s[m].0 != v
    {
      assert s[m].0 == a[m].1;
    }
  }

  /** Swapping commutes with appending one pair. */
  lemma SwapSnoc<K, V>(a: OrderedArray<K, V>, k: K, v: V)
    ensures Swap(a + [(k, v)]) == Swap(a) + [(v, k)]
  {
    var s, s' := Swap(a + [(k, v)]), Swap(a);
    assert |s| == |s'| + 1;
    forall i | 0 <= i < |s'|
      ensures s[i] == s'[i]
    {
      assert (a + [(k, v)])[i] == a[i];
    }
    assert s[|s'|] == (v, k);
  }
}
