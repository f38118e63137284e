/**
 * Ruby's Hash as the program uses it: insertion-ordered entries with
 * distinct keys. Storing a key that is already present replaces its value
 * where it stands; a new key goes at the end.
 */
module RubyHash {
  import opened Wrappers
  import opened Seqs

  datatype Entry<K, V> = Entry(key: K, value: V)

  type Hash<K, V> = seq<Entry<K, V>>

  /** Ruby's `keys`, in insertion order. */
  function Keys<K, V>(h: seq<Entry<K, V>>): (ks: seq<K>)
    ensures |ks| == |h|
    ensures forall i :: 0 <= i < |h| ==> ks[i] == h[i].key
  {
    if h == [] then [] else [h[0].key] + Keys(h[1..])
  }

  /** Every Hash value keeps this: no key twice. */
  predicate Valid<K(==), V>(h: Hash<K, V>) {
    Distinct(Keys(h))
  }

  /** Ruby's `h[k]`: nil for a missing key. */
  function Get<K(==), V>(h: Hash<K, V>, k: K): (r: Option<V>)
    ensures r.Some? <==> k in Keys(h)
  {
    if h == [] then None
    else if h[0].key == k then Some(h[0].value)
    else Get(h[1..], k)
  }

  /** Ruby's `h[k] = v`. */
  function Put<K(==), V>(h: Hash<K, V>, k: K, v: V): Hash<K, V>
  {
    if h == [] then [Entry(k, v)]
    else if h[0].key == k then [Entry(k, v)] + h[1..]
    else [h[0]] + Put(h[1..], k, v)
  }

  /** Storing a key keeps the key order and adds a new key at the end. */
  lemma {:induction false} PutKeys<K, V>(h: Hash<K, V>, k: K, v: V)
    ensures Keys(Put(h, k, v)) == if k in Keys(h) then Keys(h) else Keys(h) + [k]
  {
    if h != [] && h[0].key != k {
      PutKeys(h[1..], k, v);
      assert Keys(h) == [h[0].key] + Keys(h[1..]);
    }
  }

  /** After storing v under k, k reads back v and every other key reads as before. */
  lemma {:induction false} PutGet<K, V>(h: Hash<K, V>, k: K, v: V, k': K)
    ensures Get(Put(h, k, v), k') == if k' == k then Some(v) else Get(h, k')
  {
    if h != [] && h[0].key != k {
      PutGet(h[1..], k, v, k');
    }
  }

  /** Ruby's `Hash[pairs]`: the pairs stored one after the other, from the first. */
  function FromPairs<K(==), V>(ps: seq<Entry<K, V>>): Hash<K, V>
  {
    if ps == [] then []
    else
      var last := ps[|ps| - 1];
      Put(FromPairs(ps[..|ps| - 1]), last.key, last.value)
  }

  /**
   * The keys of `Hash[pairs]` are the pairs' keys without repeats, in the
   * order of their first occurrence (`ks & ks` is Ruby's `ks.uniq`).
   */
  lemma {:induction false} FromPairsKeys<K(!new), V>(ps: seq<Entry<K, V>>)
    ensures Keys(FromPairs(ps)) == Intersect(Keys(ps), Keys(ps))
    ensures Valid(FromPairs(ps))
  {
    if ps != [] {
      var init, last := ps[..|ps| - 1], ps[|ps| - 1];
      var ks := Keys(ps);
      assert Keys(init) == ks[..|ks| - 1];
      FromPairsKeys(init);
      IntersectCongruence(Keys(init), Keys(init), ks);
      PutKeys(FromPairs(init), last.key, last.value);
    }
  }

  /**
   * When every pair's value is determined by its key, `Hash[pairs]` maps
   * exactly the pairs' keys, each to that value.
   */
  lemma {:induction false} FromPairsGet<K, V>(ps: seq<Entry<K, V>>, valueOf: K -> V, k: K)
    requires forall i :: 0 <= i < |ps| ==> ps[i].value == valueOf(ps[i].key)
    ensures Get(FromPairs(ps), k) == if k in Keys(ps) then Some(valueOf(k)) else None
  {
    if ps != [] {
      var init, last := ps[..|ps| - 1], ps[|ps| - 1];
      assert Keys(ps) == Keys(init) + [last.key];
      FromPairsGet(init, valueOf, k);
      PutGet(FromPairs(init), last.key, last.value, k);
    }
  }

  /** `Hash[h.to_a]` of a Hash is that same Hash. */
  lemma {:induction false} FromPairsOfHash<K, V>(h: Hash<K, V>)
    requires Valid(h)
    ensures FromPairs(h) == h
  {
    if h != [] {
      var init, last := h[..|h| - 1], h[|h| - 1];
      ValidInit(h);
      FromPairsOfHash(init);
      PutAppends(init, last.key, last.value);
      assert init + [last] == h;
    }
  }

  /** Without its last entry a Hash is still one, and that entry's key is not in it. */
  lemma ValidInit<K, V>(h: Hash<K, V>)
    requires Valid(h) && h != []
    ensures Valid(h[..|h| - 1]) && h[|h| - 1].key !in Keys(h[..|h| - 1])
  {
    var init, last := h[..|h| - 1], h[|h| - 1];
    var ks := Keys(h);
    assert Keys(init) == ks[..|ks| - 1];
    assert ks[|ks| - 1] == last.key;
  }

  lemma PutAppends<K, V>(h: Hash<K, V>, k: K, v: V)
    requires k !in Keys(h)
    ensures Put(h, k, v) == h + [Entry(k, v)]
  {
    if h != [] {
      assert k !in Keys(h[1..]);
      PutAppends(h[1..], k, v);
    }
  }

  /** Ruby's `h.collect { |k, v| [k, f(v)] }`: same keys in the same order, each value mapped. */
  function MapValues<K, V, W>(f: V -> W, h: Hash<K, V>): (r: Hash<K, W>)
    ensures |r| == |h|
    ensures forall i :: 0 <= i < |h| ==> r[i] == Entry(h[i].key, f(h[i].value))
  {
    if h == [] then [] else [Entry(h[0].key, f(h[0].value))] + MapValues(f, h[1..])
  }

  /** Looking a key up after mapping the values is mapping the looked-up value. */
  lemma {:induction false} MapValuesGet<K, V, W>(f: V -> W, h: Hash<K, V>, k: K)
    ensures Keys(MapValues(f, h)) == Keys(h)
    ensures Get(MapValues(f, h), k) == if k in Keys(h) then Some(f(Get(h, k).value)) else None
  {
    if h != [] {
      MapValuesGet(f, h[1..], k);
      assert MapValues(f, h)[1..] == MapValues(f, h[1..]);
    }
  }
}
