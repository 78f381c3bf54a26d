/**
 * A tally keyed by string, as the controller keeps them: a key is present
 * exactly when it has been counted at least once, and `array_key_exists` on
 * the PHP array is key membership here.
 */
module Counters {

  type Counter = map<string, nat>

  /** The count of `k`, zero when `k` was never counted. */
  function Get(c: Counter, k: string): nat {
    if k in c then c[k] else 0
  }

  /** Every present key has a positive count. */
  ghost predicate Positive(c: Counter) {
    forall k :: k in c ==> c[k] > 0
  }

  /**
   * One increment of `k`: PHP's `++$c[$k]` when the key exists and
   * `$c[$k] = 1` otherwise.
   */
  function Inc(c: Counter, k: string): (r: Counter)
    ensures r.Keys == c.Keys + {k}
    ensures Get(r, k) == Get(c, k) + 1
    ensures forall j :: j != k ==> Get(r, j) == Get(c, j)
    ensures Positive(c) ==> Positive(r)
  {
    if k in c then c[k := c[k] + 1] else c[k := 1]
  }

  /** The sum of all counts. */
  ghost function Total(c: Counter): nat
    decreases |c|
  {
    if c == map[] then 0
    else
      var k := PickKey(c);
      c[k] + Total(c - {k})
  }

  ghost function PickKey(c: Counter): (k: string)
    requires c != map[]
    ensures k in c
  {
    var k :| k in c.Keys; k
  }

  /** The total may be summed starting from any key. */
  lemma {:induction false} TotalRemove(c: Counter, k: string)
    requires k in c
    ensures Total(c) == c[k] + Total(c - {k})
    decreases |c|
  {
    var k' := PickKey(c);
    if k' != k {
      var c1, c2 := c - {k'}, c - {k};
      TotalRemove(c1, k);
      TotalRemove(c2, k');
      assert c1 - {k} == c2 - {k'};
    }
  }

  /** An increment adds exactly one to the total. */
  lemma TotalInc(c: Counter, k: string)
    ensures Total(Inc(c, k)) == Total(c) + 1
  {
    var r := Inc(c, k);
    TotalRemove(r, k);
    if k in c {
      TotalRemove(c, k);
      assert r - {k} == c - {k};
    } else {
      assert r - {k} == c;
    }
  }
}
