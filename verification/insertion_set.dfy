/**
 * JavaScript `Set`s as the runner's set helpers use them: strict equality on
 * the elements and iteration in insertion order. A set is the sequence of its
 * elements in that order, without duplicates.
 */
module InsertionSet {
  import Seqs

  /** `Set#add`: a new element goes to the end; a present one changes nothing. */
  function Add<T(==)>(s: seq<T>, x: T): (r: seq<T>)
    ensures x in s ==> r == s
    ensures x !in s ==> r == s + [x]
  {
    if x in s then s else s + [x]
  }

  /** The test "not yet in `s`". */
  function NotIn<T(==)>(s: seq<T>): T -> bool {
    x => x !in s
  }

  /** `xs.forEach(x => s.add(x))`. */
  function AddAll<T(==)>(s: seq<T>, xs: seq<T>): seq<T>
    decreases |xs|
  {
    if |xs| == 0 then s else AddAll(Add(s, xs[0]), xs[1..])
  }

  /** Adding the elements of `xs` appends those not yet in `s`, in `xs`'s order. */
  lemma {:induction false} LemmaAddAll<T>(s: seq<T>, xs: seq<T>)
    requires Seqs.Distinct(xs)
    ensures AddAll(s, xs) == s + Seqs.Filter(xs, NotIn(s))
    decreases |xs|
  {
    if |xs| > 0 {
      var tail := xs[1..];
      var s' := Add(s, xs[0]);
      LemmaDistinctTail(xs);
      LemmaAddAll(s', tail);
      LemmaAddKeepsRest(s, xs);
      Seqs.LemmaFilterCongruent(tail, NotIn(s'), NotIn(s));
      Seqs.LemmaFilterCons(xs, NotIn(s));
      Seqs.LemmaAppendAssoc(s, if xs[0] in s then [] else [xs[0]], Seqs.Filter(tail, NotIn(s)));
    }
  }

  lemma LemmaDistinctTail<T>(xs: seq<T>)
    requires |xs| > 0 && Seqs.Distinct(xs)
    ensures Seqs.Distinct(xs[1..])
  {
    var tail := xs[1..];
    forall i, j | 0 <= i < j < |tail|
      ensures tail[i] != tail[j]
    {
      assert tail[i] == xs[i + 1] && tail[j] == xs[j + 1];
    }
  }

  /** Adding the head does not change whether a later element is present. */
  lemma LemmaAddKeepsRest<T>(s: seq<T>, xs: seq<T>)
    requires |xs| > 0 && Seqs.Distinct(xs)
    ensures forall x :: x in xs[1..] ==> NotIn(Add(s, xs[0]))(x) == NotIn(s)(x)
  {
    forall x | x in xs[1..]
      ensures NotIn(Add(s, xs[0]))(x) == NotIn(s)(x)
    {
      var k :| 0 <= k < |xs| - 1 && xs[1..][k] == x;
      assert xs[k + 1] == x;
    }
  }

  /** `empty()`: the set without elements. */
  function Empty<T>(): (r: seq<T>)
    ensures |r| == 0
  {
    []
  }

  /**
   * `concat(a, b)`: a added set filled with `a`'s elements and then `b`'s.
   * The result is `a` in its order followed by `b`'s elements not in `a`,
   * in `b`'s order.
   */
  function Concat<T(==)>(a: seq<T>, b: seq<T>): (r: seq<T>)
    requires Seqs.Distinct(a) && Seqs.Distinct(b)
    ensures r == a + Seqs.Filter(b, NotIn(a))
  {
    LemmaAddAll([], a);
    Seqs.LemmaFilterAll(a, NotIn([]));
    assert AddAll([], a) == a;
    LemmaAddAll(a, b);
    AddAll(AddAll([], a), b)
  }

  /** The union holds exactly the elements of both operands, each once. */
  lemma LemmaConcatUnion<T>(a: seq<T>, b: seq<T>)
    requires Seqs.Distinct(a) && Seqs.Distinct(b)
    ensures Seqs.Distinct(Concat(a, b))
    ensures forall i :: 0 <= i < |a| ==> a[i] in Concat(a, b)
    ensures forall i :: 0 <= i < |b| ==> b[i] in Concat(a, b)
    ensures forall i :: 0 <= i < |Concat(a, b)| ==> Concat(a, b)[i] in a || Concat(a, b)[i] in b
    ensures |Concat(a, b)| <= |a| + |b|
  {
    var added := Seqs.Filter(b, NotIn(a));
    var r := a + added;
    assert Concat(a, b) == r;
    forall i, j | 0 <= i < j < |r|
      ensures r[i] != r[j]
    {
      if j >= |a| && i < |a| {
        assert r[j] == added[j - |a|];
        assert r[j] !in a;
      } else if i >= |a| {
        assert r[i] == added[i - |a|] && r[j] == added[j - |a|];
      }
    }
    forall i | 0 <= i < |b|
      ensures b[i] in r
    {
      if b[i] !in a {
        assert b[i] in added;
      }
    }
    forall i | 0 <= i < |r|
      ensures r[i] in a || r[i] in b
    {
      if i >= |a| {
        assert r[i] == added[i - |a|];
      }
    }
  }

  /** `equals1(a, b, valueEquals)`: equal sizes and `valueEquals` on the pairs in iteration order. */
  function Equals1<T>(a: seq<T>, b: seq<T>, eq: (T, T) -> bool): (r: bool)
    ensures r <==> |a| == |b| && forall i :: 0 <= i < |a| ==> eq(a[i], b[i])
  {
    Seqs.Equals1(a, b, eq)
  }

  /** `reduce(s, f, x)`: folds the elements in iteration order, calling `f(element, acc)`. */
  function Reduce<T, A>(s: seq<T>, f: (T, A) -> A, x: A): (r: A)
    ensures |s| > 0 ==> r == f(s[|s| - 1], Seqs.Reduce(s[..|s| - 1], f, x))
    ensures |s| == 0 ==> r == x
  {
    if |s| > 0 then
      assert s == s[..|s| - 1] + [s[|s| - 1]];
      Seqs.LemmaReduceSnoc(s[..|s| - 1], s[|s| - 1], f, x);
      Seqs.Reduce(s, f, x)
    else
      x
  }
}
