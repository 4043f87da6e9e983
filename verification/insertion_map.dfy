/**
 * JavaScript `Map`s as the runner's map helpers use them: strict equality on
 * the keys and iteration in insertion order. Re-setting a present key keeps
 * its position.
 */
module InsertionMap {
  import Seqs

  /** The keys in insertion order and the value stored under each. */
  datatype JsMap<K, V> = JsMap(keys: seq<K>, values: map<K, V>)

  /** Every key listed once, and exactly the listed keys hold a value. */
  ghost predicate Valid<K(!new), V>(m: JsMap<K, V>) {
    && Seqs.Distinct(m.keys)
    && forall k :: k in m.values <==> k in m.keys
  }

  /** The test "no value stored under this key yet". */
  function Absent<K(==), V>(m: JsMap<K, V>): K -> bool {
    k => k !in m.values
  }

  /** `empty()`: the map without entries. */
  function Empty<K, V>(): (r: JsMap<K, V>)
    ensures |r.keys| == 0 && |r.values| == 0
  {
    JsMap([], map[])
  }

  /** `Map#set`: a present key keeps its position, a new key goes last. */
  function Put<K(==,!new), V>(m: JsMap<K, V>, k: K, v: V): (r: JsMap<K, V>)
    requires Valid(m)
    ensures Valid(r)
    ensures r.values == m.values[k := v]
    ensures r.keys == if k in m.values then m.keys else m.keys + [k]
  {
    var r := if k in m.values then JsMap(m.keys, m.values[k := v])
      else JsMap(m.keys + [k], m.values[k := v]);
    assert Seqs.Distinct(r.keys) by {
      if k !in m.values {
        forall i, j | 0 <= i < j < |r.keys|
          ensures r.keys[i] != r.keys[j]
        {
          if j == |m.keys| {
            assert r.keys[i] == m.keys[i];
          }
        }
      }
    }
    r
  }

  /** One `forEach` step of `concat1`: store `src`'s value under `k`, combined by `vc` with a present one. */
  function Step<K(==,!new), V>(cs: JsMap<K, V>, k: K, src: JsMap<K, V>, vc: (V, V) -> V): (r: JsMap<K, V>)
    requires Valid(cs) && k in src.values
    ensures Valid(r)
    ensures r.keys == if k in cs.values then cs.keys else cs.keys + [k]
    ensures r.values.Keys == cs.values.Keys + {k}
    ensures forall k' :: k' in cs.values && k' != k ==> r.values[k'] == cs.values[k']
    ensures r.values[k] == if k in cs.values then vc(cs.values[k], src.values[k]) else src.values[k]
  {
    Put(cs, k, if k in cs.values then vc(cs.values[k], src.values[k]) else src.values[k])
  }

  /** `forEach` over the keys `ks` of `src`, storing each with `Step`. */
  function Fill<K(==,!new), V>(cs: JsMap<K, V>, ks: seq<K>, src: JsMap<K, V>, vc: (V, V) -> V): (r: JsMap<K, V>)
    requires Valid(cs)
    requires forall i :: 0 <= i < |ks| ==> ks[i] in src.values
    ensures Valid(r)
    decreases |ks|
  {
    if |ks| == 0 then cs
    else Fill(Step(cs, ks[0], src, vc), ks[1..], src, vc)
  }

  /** The tail of a sequence without duplicates has none, and lacks the head. */
  lemma LemmaDistinctTail<K>(ks: seq<K>)
    requires |ks| > 0 && Seqs.Distinct(ks)
    ensures Seqs.Distinct(ks[1..]) && ks[0] !in ks[1..]
  {
    var tail := ks[1..];
    forall i, j | 0 <= i < j < |tail|
      ensures tail[i] != tail[j]
    {
      assert tail[i] == ks[i + 1] && tail[j] == ks[j + 1];
    }
    forall i | 0 <= i < |tail|
      ensures tail[i] != ks[0]
    {
      assert tail[i] == ks[i + 1];
    }
  }

  /** Filling appends, in `ks`'s order, the keys not yet present. */
  lemma {:induction false} LemmaFillKeys<K(!new), V>(cs: JsMap<K, V>, ks: seq<K>, src: JsMap<K, V>, vc: (V, V) -> V)
    requires Valid(cs) && Seqs.Distinct(ks)
    requires forall i :: 0 <= i < |ks| ==> ks[i] in src.values
    ensures Fill(cs, ks, src, vc).keys == cs.keys + Seqs.Filter(ks, Absent(cs))
    decreases |ks|
  {
    if |ks| > 0 {
      var k0, tail := ks[0], ks[1..];
      var cs' := Step(cs, k0, src, vc);
      LemmaDistinctTail(ks);
      LemmaFillKeys(cs', tail, src, vc);
      assert Fill(cs, ks, src, vc) == Fill(cs', tail, src, vc);
      forall k | k in tail
        ensures Absent(cs')(k) == Absent(cs)(k)
      {
        assert k != k0;
      }
      Seqs.LemmaFilterCongruent(tail, Absent(cs'), Absent(cs));
      Seqs.LemmaFilterCons(ks, Absent(cs));
      var rest := Seqs.Filter(tail, Absent(cs));
      if k0 in cs.values {
        assert cs'.keys == cs.keys;
      } else {
        assert Fill(cs, ks, src, vc).keys == cs'.keys + rest;
        Seqs.LemmaAppendAssoc(cs.keys, [k0], rest);
      }
    }
  }

  /** The value filling leaves under `k`, given where `k` occurs. */
  ghost function Filled<K, V>(cs: JsMap<K, V>, inKs: bool, k: K, src: JsMap<K, V>, vc: (V, V) -> V): V
    requires inKs ==> k in src.values
    requires inKs || k in cs.values
  {
    if !inKs then cs.values[k]
    else if k in cs.values then vc(cs.values[k], src.values[k])
    else src.values[k]
  }

  /** Filling stores a value under exactly the present keys and those of `ks`, as `Filled` says. */
  lemma {:induction false} LemmaFillValues<K(!new), V>(cs: JsMap<K, V>, ks: seq<K>, src: JsMap<K, V>, vc: (V, V) -> V)
    requires Valid(cs) && Seqs.Distinct(ks)
    requires forall i :: 0 <= i < |ks| ==> ks[i] in src.values
    ensures forall k :: k in Fill(cs, ks, src, vc).values <==> k in cs.values || k in ks
    ensures forall k :: k in Fill(cs, ks, src, vc).values ==>
      Fill(cs, ks, src, vc).values[k] == Filled(cs, k in ks, k, src, vc)
    decreases |ks|
  {
    if |ks| > 0 {
      var k0, tail := ks[0], ks[1..];
      var cs' := Step(cs, k0, src, vc);
      LemmaDistinctTail(ks);
      LemmaFillValues(cs', tail, src, vc);
      var r := Fill(cs, ks, src, vc);
      assert r == Fill(cs', tail, src, vc);
      forall k | k in r.values
        ensures r.values[k] == Filled(cs, k in ks, k, src, vc)
      {
        if k == k0 {
          assert r.values[k] == cs'.values[k];
        } else if k in tail {
          assert k in ks;
        } else {
          assert k !in ks;
        }
      }
    }
  }

  /** Copying a map entry by entry into an empty one gives the same map. */
  lemma LemmaCopy<K(!new), V>(a: JsMap<K, V>, vc: (V, V) -> V)
    requires Valid(a)
    ensures Fill(Empty(), a.keys, a, vc).keys == a.keys
    ensures forall k :: k in Fill(Empty(), a.keys, a, vc).values <==> k in a.values
    ensures forall k :: k in a.values ==> Fill(Empty(), a.keys, a, vc).values[k] == a.values[k]
  {
    var e: JsMap<K, V> := Empty();
    var copy := Fill(e, a.keys, a, vc);
    LemmaFillKeys(e, a.keys, a, vc);
    LemmaFillValues(e, a.keys, a, vc);
    forall k | k in a.keys
      ensures Absent(e)(k)
    {
    }
    Seqs.LemmaFilterAll(a.keys, Absent(e));
    assert copy.keys == [] + a.keys;
    assert copy.keys == a.keys;
    forall k | k in copy.values
      ensures k in a.values && copy.values[k] == a.values[k]
    {
      assert copy.values[k] == Filled(e, k in a.keys, k, a, vc);
    }
    forall k | k in a.values
      ensures k in copy.values
    {
      assert k in a.keys;
    }
  }

  /**
   * `concat1(a, b, vc)`: a fresh map filled with `a`'s entries and then
   * `b`'s, where a key already present combines the two values with `vc`.
   */
  function Concat1<K(==,!new), V>(a: JsMap<K, V>, b: JsMap<K, V>, vc: (V, V) -> V): (r: JsMap<K, V>)
    requires Valid(a) && Valid(b)
    ensures Valid(r)
    ensures r.keys == a.keys + Seqs.Filter(b.keys, Absent(a))
    ensures forall k :: k in r.values <==> k in a.values || k in b.values
    ensures forall k :: k in a.values && k !in b.values ==> r.values[k] == a.values[k]
    ensures forall k :: k !in a.values && k in b.values ==> r.values[k] == b.values[k]
    ensures forall k :: k in a.values && k in b.values ==> r.values[k] == vc(a.values[k], b.values[k])
  {
    var copy := Fill(Empty(), a.keys, a, vc);
    LemmaCopy(a, vc);
    var r := Fill(copy, b.keys, b, vc);
    LemmaFillKeys(copy, b.keys, b, vc);
    LemmaFillValues(copy, b.keys, b, vc);
    forall k | k in b.keys
      ensures Absent(copy)(k) == Absent(a)(k)
    {
    }
    Seqs.LemmaFilterCongruent(b.keys, Absent(copy), Absent(a));
    assert forall k :: k in b.keys <==> k in b.values;
    r
  }

  /** The value combiner of `concat`: keep the first value. */
  function TakeFirst<V>(x: V, y: V): V {
    x
  }

  /** `concat(a, b)`: `concat1` keeping the first value. */
  function Concat<K(==,!new), V>(a: JsMap<K, V>, b: JsMap<K, V>): (r: JsMap<K, V>)
    requires Valid(a) && Valid(b)
    ensures Valid(r)
  {
    Concat1(a, b, TakeFirst)
  }

  /** `concat` is the key union in which `a`'s value wins on a shared key. */
  lemma LemmaConcatLeftBiased<K(!new), V>(a: JsMap<K, V>, b: JsMap<K, V>)
    requires Valid(a) && Valid(b)
    ensures Concat(a, b).values.Keys == a.values.Keys + b.values.Keys
    ensures forall k :: k in a.values ==> Concat(a, b).values[k] == a.values[k]
    ensures forall k :: k !in a.values && k in b.values ==> Concat(a, b).values[k] == b.values[k]
  {
  }

  /** `map(m, f)`: the same keys in the same order, each value replaced by `f(value)`. */
  function Map<K(==), V, W>(m: JsMap<K, V>, f: V -> W): (r: JsMap<K, W>)
    ensures r.keys == m.keys
    ensures r.values.Keys == m.values.Keys
    ensures forall k :: k in m.values ==> r.values[k] == f(m.values[k])
  {
    JsMap(m.keys, map k | k in m.values :: f(m.values[k]))
  }

  /** The values in iteration order. */
  function Values<K(==), V>(m: JsMap<K, V>, ks: seq<K>): seq<V>
    requires forall k :: k in ks ==> k in m.values
  {
    if |ks| == 0 then [] else [m.values[ks[0]]] + Values(m, ks[1..])
  }

  /** The `forEach` of `reduce` over the keys `ks`, from accumulator `x`. */
  function ReduceFrom<K(==), V, A>(m: JsMap<K, V>, ks: seq<K>, f: (V, A) -> A, x: A): (r: A)
    requires forall k :: k in ks ==> k in m.values
    ensures r == Seqs.Reduce(Values(m, ks), f, x)
    decreases |ks|
  {
    if |ks| == 0 then x
    else
      assert Values(m, ks)[1..] == Values(m, ks[1..]);
      ReduceFrom(m, ks[1..], f, f(m.values[ks[0]], x))
  }

  /** `reduce(m, f, x)`: the array fold, `f(value, acc)`, over the values in insertion order. */
  function Reduce<K(==,!new), V, A>(m: JsMap<K, V>, f: (V, A) -> A, x: A): (r: A)
    requires Valid(m)
    ensures r == Seqs.Reduce(Values(m, m.keys), f, x)
  {
    ReduceFrom(m, m.keys, f, x)
  }

  /**
   * `equals1(a, b, valueEquals)`: the key sets are compared as sets, that is
   * pairwise in insertion order, and then `valueEquals` must hold on every key.
   */
  function Equals1<K(==,!new), V>(a: JsMap<K, V>, b: JsMap<K, V>, veq: (V, V) -> bool): (r: bool)
    requires Valid(a) && Valid(b)
    ensures r <==> a.keys == b.keys && forall k :: k in a.values ==> veq(a.values[k], b.values[k])
  {
    Seqs.LemmaStrictEquals(a.keys, b.keys);
    Seqs.Equals1(a.keys, b.keys, (x, y) => x == y) && forall k | k in a.keys :: veq(a.values[k], b.values[k])
  }

  /** Maps with different key sets are never equal. */
  lemma LemmaEqualsKeySets<K(!new), V>(a: JsMap<K, V>, b: JsMap<K, V>, veq: (V, V) -> bool)
    requires Valid(a) && Valid(b)
    requires a.values.Keys != b.values.Keys
    ensures !Equals1(a, b, veq)
  {
  }
}
