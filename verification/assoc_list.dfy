/** An insertion-ordered dictionary (a Python `dict`) as a list of key/value
    pairs: assignment to a present key replaces its value in place, a new key
    is appended at the end. */
module AssocList {
  import opened Outcomes
  import opened Seqs

  type Entries<K, V> = seq<(K, V)>

  /** The keys in insertion order (`list(d)`). */
  function Keys<K, V>(e: Entries<K, V>): seq<K>
  {
    seq(|e|, i requires 0 <= i < |e| => e[i].0)
  }

  /** `d.get(k)`: the value stored under `k`, if any. A dictionary holds each
      key once; on any list the value is the one stored at the key's first
      position. */
  function Lookup<K(==), V>(e: Entries<K, V>, k: K): (r: Option<V>)
    ensures r.Some? <==> k in Keys(e)
    ensures r.Some? ==> (k, r.value) in e
    decreases |e|
  {
    if |e| == 0 then None
    else if e[0].0 == k then
      assert Keys(e)[0] == k;
      Some(e[0].1)
    else
      assert Keys(e) == [e[0].0] + Keys(e[1..]);
      var r := Lookup(e[1..], k);
      assert r.Some? ==> (k, r.value) in e[1..];
      r
  }

  /** The value found is the one stored at the key's first position. */
  lemma {:induction false} LookupFindsFirst<K, V>(e: Entries<K, V>, k: K)
    requires k in Keys(e)
    ensures Lookup(e, k) == Some(e[FirstIndex(Keys(e), k)].1)
    decreases |e|
  {
    assert Keys(e)[FirstIndex(Keys(e), k)] == k;
    if e[0].0 != k {
      var ks := Keys(e);
      assert ks == [e[0].0] + Keys(e[1..]);
      assert k in Keys(e[1..]);
      assert FirstIndex(ks, k) == 1 + FirstIndex(Keys(e[1..]), k);
      LookupFindsFirst(e[1..], k);
    }
  }

  /** In a dictionary, where every key is held once, a lookup finds `v`
      exactly when the pair `(k, v)` is stored. */
  lemma LookupInDict<K, V>(e: Entries<K, V>, k: K, v: V)
    requires Distinct(Keys(e))
    ensures Lookup(e, k) == Some(v) <==> (k, v) in e
  {
    if (k, v) in e {
      var i :| 0 <= i < |e| && e[i] == (k, v);
      assert Keys(e)[i] == k;
      var r := Lookup(e, k);
      assert r.Some?;
      var j :| 0 <= j < |e| && e[j] == (k, r.value);
      assert Keys(e)[i] == Keys(e)[j];
    }
  }

  /** `d[k] = v`. */
  function Put<K(==, !new), V>(e: Entries<K, V>, k: K, v: V): (r: Entries<K, V>)
    ensures Lookup(r, k) == Some(v)
    ensures forall k' :: k' != k ==> Lookup(r, k') == Lookup(e, k')
    ensures Keys(r) == if k in Keys(e) then Keys(e) else Keys(e) + [k]
    decreases |e|
  {
    if |e| == 0 then [(k, v)]
    else if e[0].0 == k then
      ReplaceHead(e, v);
      [(k, v)] + e[1..]
    else
      var tail := Put(e[1..], k, v);
      KeepHead(e, k, v, tail);
      [e[0]] + tail
  }

  /** Assigning to the head key replaces the head's value in place. */
  lemma ReplaceHead<K, V>(e: Entries<K, V>, v: V)
    requires |e| > 0
    ensures var k := e[0].0;
      var r := [(k, v)] + e[1..];
      && Lookup(r, k) == Some(v)
      && (forall k' :: k' != k ==> Lookup(r, k') == Lookup(e, k'))
      && Keys(r) == Keys(e)
  {
    var r := [(e[0].0, v)] + e[1..];
    assert r[1..] == e[1..];
    ConsSplit(e);
    ConsSplit(r);
  }

  /** Assigning to any other key keeps the head entry in front of the
      updated tail. */
  lemma KeepHead<K, V>(e: Entries<K, V>, k: K, v: V, tail: Entries<K, V>)
    requires |e| > 0 && e[0].0 != k
    requires Lookup(tail, k) == Some(v)
    requires forall k' :: k' != k ==> Lookup(tail, k') == Lookup(e[1..], k')
    requires Keys(tail) == if k in Keys(e[1..]) then Keys(e[1..]) else Keys(e[1..]) + [k]
    ensures var r := [e[0]] + tail;
      && Lookup(r, k) == Some(v)
      && (forall k' :: k' != k ==> Lookup(r, k') == Lookup(e, k'))
      && Keys(r) == if k in Keys(e) then Keys(e) else Keys(e) + [k]
  {
    var r := [e[0]] + tail;
    assert r[0] == e[0] && r[1..] == tail;
    ConsSplit(e);
    ConsSplit(r);
  }

  /** The keys of a non-empty list are its head key followed by its tail's keys. */
  lemma ConsSplit<K, V>(e: Entries<K, V>)
    requires |e| > 0
    ensures Keys(e) == [e[0].0] + Keys(e[1..])
  {
  }
}
