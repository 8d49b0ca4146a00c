/** Subject marks as the record manager stores them: a JavaScript object or a Java
    `Map` from subject name to score, kept here as its entries in iteration order
    (insertion order for a JavaScript object; the order of `entrySet()` for Java). */
module Marks {
  import opened Wrappers

  datatype Entry<V> = Entry(key: string, value: V)

  function Keys<V>(m: seq<Entry<V>>): (ks: seq<string>)
    ensures |ks| == |m|
    ensures forall i :: 0 <= i < |m| ==> ks[i] == m[i].key
  {
    if m == [] then [] else [m[0].key] + Keys(m[1..])
  }

  /** What every JavaScript object and every Java map satisfies: no key twice. */
  predicate DistinctKeys<V>(m: seq<Entry<V>>) {
    forall i, j :: 0 <= i < j < |m| ==> m[i].key != m[j].key
  }

  /** `m[k]`: the value stored under `k`, or None when `k` is not a key. */
  function Get<V>(m: seq<Entry<V>>, k: string): (r: Option<V>)
    ensures r.None? <==> k !in Keys(m)
    ensures r.Some? ==> Entry(k, r.value) in m
  {
    if m == [] then None
    else if m[0].key == k then Some(m[0].value)
    else
      assert Keys(m) == [m[0].key] + Keys(m[1..]);
      Get(m[1..], k)
  }

  /** `m[k] = v` on a JavaScript object, `m.put(k, v)` on a Java map: a key already
      present keeps its place and takes the new value; a new key goes last. */
  function Put<V>(m: seq<Entry<V>>, k: string, v: V): (r: seq<Entry<V>>)
    ensures k in Keys(m) ==> Keys(r) == Keys(m)
    ensures k !in Keys(m) ==> r == m + [Entry(k, v)]
  {
    if m == [] then [Entry(k, v)]
    else
      assert Keys(m) == [m[0].key] + Keys(m[1..]);
      if m[0].key == k then
        assert Keys([Entry(k, v)] + m[1..]) == [k] + Keys(m[1..]);
        [Entry(k, v)] + m[1..]
      else
        var t := Put(m[1..], k, v);
        assert Keys([m[0]] + t) == [m[0].key] + Keys(t);
        assert k !in Keys(m) ==> [m[0]] + t == m + [Entry(k, v)] by {
          if k !in Keys(m) {
            assert m == [m[0]] + m[1..];
          }
        }
        [m[0]] + t
  }

  /** After storing `v` under `k`, looking up `k` gives `v` and every other key
      gives what it gave before. */
  lemma {:induction false} GetPut<V>(m: seq<Entry<V>>, k: string, v: V, k': string)
    ensures Get(Put(m, k, v), k') == if k' == k then Some(v) else Get(m, k')
  {
    if m != [] && m[0].key != k {
      GetPut(m[1..], k, v, k');
    }
  }

  /** Storing adds the new entry and keeps only entries that were there. */
  lemma {:induction false} PutEntries<V>(m: seq<Entry<V>>, k: string, v: V)
    ensures Entry(k, v) in Put(m, k, v)
    ensures forall e :: e in Put(m, k, v) ==> e == Entry(k, v) || e in m
  {
    if m != [] && m[0].key != k {
      PutEntries(m[1..], k, v);
    }
  }

  /** The keys after storing are the old keys and the stored one. */
  lemma {:induction false} InKeysPut<V>(m: seq<Entry<V>>, k: string, v: V, k': string)
    ensures k' in Keys(Put(m, k, v)) <==> k' == k || k' in Keys(m)
  {
    GetPut(m, k, v, k');
  }

  /** Storing under a key keeps the keys distinct. */
  lemma {:induction false} PutKeepsKeysDistinct<V>(m: seq<Entry<V>>, k: string, v: V)
    ensures DistinctKeys(m) ==> DistinctKeys(Put(m, k, v))
  {
    var r := Put(m, k, v);
    if !DistinctKeys(m) {
    } else if k in Keys(m) {
      forall i, j | 0 <= i < j < |r| ensures r[i].key != r[j].key {
        assert Keys(r)[i] == Keys(m)[i] && Keys(r)[j] == Keys(m)[j];
      }
    } else {
      forall i, j | 0 <= i < j < |r| ensures r[i].key != r[j].key {
        if j == |m| {
          assert Keys(m)[i] == m[i].key;
        }
      }
    }
  }

  /** `Object.values(m).reduce((a, b) => a + b, 0)`: the sum of the scores. */
  function SumReal(m: seq<Entry<real>>): real {
    if m == [] then 0.0 else SumReal(m[..|m| - 1]) + m[|m| - 1].value
  }

  /** The sum of integer scores, in unbounded arithmetic. */
  function SumInt(m: seq<Entry<int>>): int {
    if m == [] then 0 else SumInt(m[..|m| - 1]) + m[|m| - 1].value
  }

  /** Scores that all lie in [lo, hi] add up to between |m|*lo and |m|*hi. */
  lemma {:induction false} SumRealBounds(m: seq<Entry<real>>, lo: real, hi: real)
    requires forall i :: 0 <= i < |m| ==> lo <= m[i].value <= hi
    ensures |m| as real * lo <= SumReal(m) <= |m| as real * hi
  {
    if m != [] {
      SumRealBounds(m[..|m| - 1], lo, hi);
    }
  }

  lemma {:induction false} SumIntBounds(m: seq<Entry<int>>, lo: int, hi: int)
    requires forall i :: 0 <= i < |m| ==> lo <= m[i].value <= hi
    ensures |m| * lo <= SumInt(m) <= |m| * hi
  {
    if m != [] {
      SumIntBounds(m[..|m| - 1], lo, hi);
    }
  }
}
