/**
 * The array helpers of the runner: chunking and near-equal partitioning
 * (`groupsOf`, `splitInto`), clamped splitting, pointwise equality and the
 * list monoid/monad operations. JavaScript arrays are Dafny sequences.
 */
module Seqs {

  /** `Math.min(Math.max(i, lo), hi)`: when the bounds cross, the upper bound wins. */
  function Clamp(i: int, lo: int, hi: int): (r: int)
    ensures lo <= hi ==> lo <= r <= hi
    ensures lo <= i <= hi ==> r == i
    ensures hi < lo ==> r == hi
  {
    var atLeast := if i < lo then lo else i;
    if atLeast < hi then atLeast else hi
  }

  /** Reference flattening: the inner lists one after another, in order. */
  function Flatten<T>(xss: seq<seq<T>>): seq<T> {
    if |xss| == 0 then [] else xss[0] + Flatten(xss[1..])
  }

  lemma {:induction false} LemmaFlattenAppend<T>(xss: seq<seq<T>>, yss: seq<seq<T>>)
    ensures Flatten(xss + yss) == Flatten(xss) + Flatten(yss)
  {
    if |xss| == 0 {
      assert xss + yss == yss;
    } else {
      assert (xss + yss)[1..] == xss[1..] + yss;
      LemmaFlattenAppend(xss[1..], yss);
    }
  }

  /** Sum of the inner lengths. */
  function TotalLength<T>(xss: seq<seq<T>>): nat {
    if |xss| == 0 then 0 else |xss[0]| + TotalLength(xss[1..])
  }

  lemma {:induction false} LemmaFlattenLength<T>(xss: seq<seq<T>>)
    ensures |Flatten(xss)| == TotalLength(xss)
  {
    if |xss| > 0 {
      LemmaFlattenLength(xss[1..]);
    }
  }

  // Functor
  // --------------------------------------------------------------------------

  function Map<T, U>(xs: seq<T>, f: T -> U): (r: seq<U>)
    ensures |r| == |xs|
    ensures forall i :: 0 <= i < |xs| ==> r[i] == f(xs[i])
  {
    seq(|xs|, i requires 0 <= i < |xs| => f(xs[i]))
  }

  /** `map` keeps the length and order, and composes. */
  lemma LemmaMapLaws<T, U, V>(xs: seq<T>, f: T -> U, g: U -> V)
    ensures Map(xs, x => x) == xs
    ensures Map(Map(xs, f), g) == Map(xs, x => g(f(x)))
    ensures forall ys: seq<T> {:trigger Map(xs + ys, f)} :: Map(xs + ys, f) == Map(xs, f) + Map(ys, f)
  {
  }

  /** `map` distributes over concatenation. */
  lemma LemmaMapAppend<T, U>(xs: seq<T>, ys: seq<T>, f: T -> U)
    ensures Map(xs + ys, f) == Map(xs, f) + Map(ys, f)
  {
  }

  /** Mapping over a flattened list is flattening the mapped inner lists. */
  lemma {:induction false} LemmaMapFlatten<T, U>(xss: seq<seq<T>>, f: T -> U)
    ensures Map(Flatten(xss), f) == Flatten(Map(xss, xs => Map(xs, f)))
  {
    if |xss| > 0 {
      LemmaMapFlatten(xss[1..], f);
      assert Map(xss, xs => Map(xs, f))[1..] == Map(xss[1..], xs => Map(xs, f));
      assert Map(xss[0] + Flatten(xss[1..]), f) == Map(xss[0], f) + Map(Flatten(xss[1..]), f);
    }
  }

  // Setoid
  // --------------------------------------------------------------------------

  /** The `for` loop of `equals1` from index `i` on. */
  function EqualsFrom<T>(i: nat, xs: seq<T>, ys: seq<T>, eq: (T, T) -> bool): (r: bool)
    requires |xs| == |ys|
    ensures r <==> forall k :: i <= k < |xs| ==> eq(xs[k], ys[k])
    decreases |xs| - i
  {
    if i >= |xs| then true
    else if !eq(xs[i], ys[i]) then false
    else EqualsFrom(i + 1, xs, ys, eq)
  }

  /**
   * `equals1(xs, ys, valueEquals)`: false on different lengths, otherwise the
   * first pair that `eq` rejects makes it false.
   */
  function Equals1<T>(xs: seq<T>, ys: seq<T>, eq: (T, T) -> bool): (r: bool)
    ensures r <==> |xs| == |ys| && forall i :: 0 <= i < |xs| ==> eq(xs[i], ys[i])
  {
    if |xs| != |ys| then false else EqualsFrom(0, xs, ys, eq)
  }

  /** With strict equality on the elements, `equals` is sequence equality. */
  lemma LemmaStrictEquals<T>(xs: seq<T>, ys: seq<T>)
    ensures Equals1(xs, ys, (a, b) => a == b) <==> xs == ys
  {
    if Equals1(xs, ys, (a, b) => a == b) {
      assert forall i :: 0 <= i < |xs| ==> xs[i] == ys[i];
    }
  }

  // Semigroup, Monoid, Applicative
  // --------------------------------------------------------------------------

  function Concat<T>(xs: seq<T>, ys: seq<T>): (r: seq<T>)
    ensures |r| == |xs| + |ys|
    ensures r[..|xs|] == xs && r[|xs|..] == ys
  {
    xs + ys
  }

  function Empty<T>(): (r: seq<T>)
    ensures |r| == 0
  {
    []
  }

  function Of<T>(a: T): (r: seq<T>)
    ensures |r| == 1 && r[0] == a
  {
    [a]
  }

  /** `concat`/`empty` form a monoid: `empty` is a unit on both sides and `concat` is associative. */
  lemma LemmaMonoidLaws<T>(xs: seq<T>, ys: seq<T>, zs: seq<T>)
    ensures Concat(Empty(), xs) == xs && Concat(xs, Empty()) == xs
    ensures Concat(Concat(xs, ys), zs) == Concat(xs, Concat(ys, zs))
  {
  }

  // Apply
  // --------------------------------------------------------------------------

  /** `ap(fs, xs)`: every function applied to every value, function-major. */
  function Ap<T, U>(fs: seq<T -> U>, xs: seq<T>): seq<U> {
    if |fs| == 0 then [] else Map(xs, fs[0]) + Ap(fs[1..], xs)
  }

  /** `ap` is the concatenation, over the functions in order, of mapping each over `xs`. */
  lemma {:induction false} LemmaApFunctionMajor<T, U>(fs: seq<T -> U>, xs: seq<T>)
    ensures Ap(fs, xs) == Flatten(Map(fs, f => Map(xs, f)))
  {
    if |fs| > 0 {
      LemmaApFunctionMajor(fs[1..], xs);
      assert Map(fs, f => Map(xs, f))[1..] == Map(fs[1..], f => Map(xs, f));
    }
  }

  /** `ap` yields `|fs| * |xs|` results. */
  lemma {:induction false} LemmaApLength<T, U>(fs: seq<T -> U>, xs: seq<T>)
    ensures |Ap(fs, xs)| == |fs| * |xs|
  {
    if |fs| > 0 {
      LemmaApLength(fs[1..], xs);
      LemmaMulStep(|fs|, |xs|);
    }
  }

  /** Result `i * |xs| + j` of `ap` is `fs[i](xs[j])`: all of `fs[0]`'s results come first. */
  lemma {:induction false} LemmaApAt<T, U>(fs: seq<T -> U>, xs: seq<T>, i: nat, j: nat)
    requires i < |fs| && j < |xs|
    ensures i * |xs| + j < |Ap(fs, xs)|
    ensures Ap(fs, xs)[i * |xs| + j] == fs[i](xs[j])
    decreases i
  {
    var m := |xs|;
    var k := i * m + j;
    LemmaApLength(fs, xs);
    LemmaMulBound(i, |fs|, m, j);
    var head := Map(xs, fs[0]);
    var rest := Ap(fs[1..], xs);
    assert Ap(fs, xs) == head + rest;
    if i > 0 {
      LemmaApAt(fs[1..], xs, i - 1, j);
      LemmaMulStep(i, m);
      assert k - m == (i - 1) * m + j;
      assert fs[1..][i - 1] == fs[i];
      assert (head + rest)[k] == rest[k - m];
    } else {
      assert k == j;
    }
  }

  lemma LemmaMulBound(i: nat, n: nat, m: nat, j: nat)
    requires i < n && j < m
    ensures i * m + j < n * m
  {
    assert (i + 1) * m <= n * m;
  }

  lemma LemmaMulStep(n: int, m: int)
    requires n >= 1
    ensures n * m == m + (n - 1) * m
  {
  }

  /** Applying a single function is `map`. */
  lemma LemmaApOf<T, U>(f: T -> U, xs: seq<T>)
    ensures Ap(Of(f), xs) == Map(xs, f)
  {
    assert Of(f)[1..] == [];
    assert Ap(Of(f), xs) == Map(xs, f) + Ap([], xs);
  }

  // Foldable
  // --------------------------------------------------------------------------

  /** `reduce(xs, f, x)`: a left-to-right fold that passes the element first, `f(a, acc)`. */
  function Reduce<T, A>(xs: seq<T>, f: (T, A) -> A, x: A): A
    decreases |xs|
  {
    if |xs| == 0 then x else Reduce(xs[1..], f, f(xs[0], x))
  }

  lemma {:induction false} LemmaReduceAppend<T, A>(xs: seq<T>, ys: seq<T>, f: (T, A) -> A, x: A)
    ensures Reduce(xs + ys, f, x) == Reduce(ys, f, Reduce(xs, f, x))
    decreases |xs|
  {
    if |xs| == 0 {
      assert xs + ys == ys;
    } else {
      assert (xs + ys)[1..] == xs[1..] + ys;
      LemmaReduceAppend(xs[1..], ys, f, f(xs[0], x));
    }
  }

  /** The last element is folded last, as `f(last, accumulator)`. */
  lemma LemmaReduceSnoc<T, A>(xs: seq<T>, a: T, f: (T, A) -> A, x: A)
    ensures Reduce(xs + [a], f, x) == f(a, Reduce(xs, f, x))
  {
    LemmaReduceAppend(xs, [a], f, x);
  }

  // Chain, Monad
  // --------------------------------------------------------------------------

  /** The `forEach` loop of `chain`: `ys = ys.concat(f(a))` for each `a`. */
  function ChainOnto<T, U>(ys: seq<U>, xs: seq<T>, f: T -> seq<U>): seq<U>
    decreases |xs|
  {
    if |xs| == 0 then ys else ChainOnto(ys + f(xs[0]), xs[1..], f)
  }

  lemma {:induction false} LemmaChainOnto<T, U>(ys: seq<U>, xs: seq<T>, f: T -> seq<U>)
    ensures ChainOnto(ys, xs, f) == ys + Flatten(Map(xs, f))
    decreases |xs|
  {
    if |xs| > 0 {
      LemmaChainOnto(ys + f(xs[0]), xs[1..], f);
      assert Map(xs, f)[1..] == Map(xs[1..], f);
    }
  }

  /** `chain(xs, f)`: the results of `f` on each element, concatenated in order. */
  function Chain<T, U>(xs: seq<T>, f: T -> seq<U>): (r: seq<U>)
    ensures r == Flatten(Map(xs, f))
  {
    LemmaChainOnto([], xs, f);
    ChainOnto([], xs, f)
  }

  /** The `reduce` of `join`: `ys.concat(xs)` for each inner list. */
  function JoinOnto<T>(ys: seq<T>, xss: seq<seq<T>>): seq<T>
    decreases |xss|
  {
    if |xss| == 0 then ys else JoinOnto(ys + xss[0], xss[1..])
  }

  lemma {:induction false} LemmaJoinOnto<T>(ys: seq<T>, xss: seq<seq<T>>)
    ensures JoinOnto(ys, xss) == ys + Flatten(xss)
    decreases |xss|
  {
    if |xss| > 0 {
      LemmaJoinOnto(ys + xss[0], xss[1..]);
    }
  }

  /** `join(xss)`: flattens one level, in order. */
  function Join<T>(xss: seq<seq<T>>): (r: seq<T>)
    ensures r == Flatten(xss)
  {
    LemmaJoinOnto([], xss);
    JoinOnto([], xss)
  }

  /** The monad laws of `of`/`chain`, and `join` as the `chain` of the identity. */
  lemma LemmaMonadLaws<T, U>(a: T, xs: seq<T>, f: T -> seq<U>, xss: seq<seq<U>>)
    ensures Chain(Of(a), f) == f(a)
    ensures Chain(xs, x => Of(x)) == xs
    ensures Join(xss) == Chain(xss, l => l)
  {
    assert Flatten(Map(Of(a), f)) == f(a) + Flatten([]) by {
      assert Map(Of(a), f)[1..] == [];
    }
    LemmaFlattenSingletons(xs);
    assert Map(xss, l => l) == xss;
  }

  lemma {:induction false} LemmaFlattenSingletons<T>(xs: seq<T>)
    ensures Flatten(Map(xs, x => Of(x))) == xs
  {
    if |xs| > 0 {
      LemmaFlattenSingletons(xs[1..]);
      assert Map(xs, x => Of(x))[1..] == Map(xs[1..], x => Of(x));
    }
  }

  // Filtering and distinctness
  // --------------------------------------------------------------------------

  /** No element occurs twice (JavaScript strict equality). */
  ghost predicate Distinct<T>(xs: seq<T>) {
    forall i, j :: 0 <= i < j < |xs| ==> xs[i] != xs[j]
  }

  /** `xs` with some elements dropped and the rest kept in order. */
  ghost predicate Subsequence<T>(r: seq<T>, xs: seq<T>)
    decreases |xs|
  {
    if |r| == 0 then true
    else if |xs| == 0 then false
    else (r[0] == xs[0] && Subsequence(r[1..], xs[1..])) || Subsequence(r, xs[1..])
  }

  /** `Array#filter`: the elements satisfying `p`, in their original order. */
  function Filter<T>(xs: seq<T>, p: T -> bool): (r: seq<T>)
    ensures |r| <= |xs|
    ensures forall i :: 0 <= i < |r| ==> r[i] in xs && p(r[i])
    ensures forall i :: 0 <= i < |xs| && p(xs[i]) ==> xs[i] in r
    ensures Subsequence(r, xs)
    ensures Distinct(xs) ==> Distinct(r)
  {
    if |xs| == 0 then []
    else
      var rest := Filter(xs[1..], p);
      if p(xs[0]) then
        assert ([xs[0]] + rest)[1..] == rest;
        [xs[0]] + rest
      else
        rest
  }

  /**
   * `filter` keeps every element that passes exactly as often as the input
   * holds it, and drops every other element.
   */
  lemma {:induction false} LemmaFilterCount<T>(xs: seq<T>, p: T -> bool)
    ensures forall i :: 0 <= i < |xs| ==>
      multiset(Filter(xs, p))[xs[i]] == if p(xs[i]) then multiset(xs)[xs[i]] else 0
    decreases |xs|
  {
    if |xs| > 0 {
      LemmaFilterCount(xs[1..], p);
      LemmaFilterCountStep(xs, Filter(xs[1..], p), p);
    }
  }

  /** One step of `LemmaFilterCount`: the head is kept once when it passes, and the tail's counts carry over. */
  lemma LemmaFilterCountStep<T>(xs: seq<T>, rest: seq<T>, p: T -> bool)
    requires |xs| > 0
    requires forall i :: 0 <= i < |rest| ==> rest[i] in xs[1..]
    requires forall i :: 0 <= i < |xs[1..]| ==> multiset(rest)[xs[1..][i]] == if p(xs[1..][i]) then multiset(xs[1..])[xs[1..][i]] else 0
    ensures forall i :: 0 <= i < |xs| ==>
      multiset(if p(xs[0]) then [xs[0]] + rest else rest)[xs[i]] == if p(xs[i]) then multiset(xs)[xs[i]] else 0
  {
    assert xs == [xs[0]] + xs[1..];
    assert multiset(xs) == multiset{xs[0]} + multiset(xs[1..]);
    assert multiset([xs[0]] + rest) == multiset{xs[0]} + multiset(rest);
    forall i | 0 <= i < |xs|
      ensures multiset(if p(xs[0]) then [xs[0]] + rest else rest)[xs[i]] == if p(xs[i]) then multiset(xs)[xs[i]] else 0
    {
      var y := xs[i];
      if y in xs[1..] {
        var j :| 0 <= j < |xs[1..]| && xs[1..][j] == y;
      } else {
        forall k | 0 <= k < |rest|
          ensures rest[k] != y
        {
        }
      }
    }
  }

  /** Concatenation regrouped, stated once so that provers need not search for it. */
  lemma LemmaAppendAssoc<T>(a: seq<T>, b: seq<T>, c: seq<T>)
    ensures (a + b) + c == a + (b + c)
  {
  }

  /** One unfolding of `Filter`: the head is kept exactly when it passes. */
  lemma LemmaFilterCons<T>(xs: seq<T>, p: T -> bool)
    requires |xs| > 0
    ensures Filter(xs, p) == (if p(xs[0]) then [xs[0]] else []) + Filter(xs[1..], p)
  {
  }

  /** Filtering with two tests that agree on every element gives the same result. */
  lemma {:induction false} LemmaFilterCongruent<T>(xs: seq<T>, p: T -> bool, q: T -> bool)
    requires forall x :: x in xs ==> p(x) == q(x)
    ensures Filter(xs, p) == Filter(xs, q)
  {
    if |xs| > 0 {
      LemmaFilterCongruent(xs[1..], p, q);
    }
  }

  lemma {:induction false} LemmaFilterAll<T>(xs: seq<T>, p: T -> bool)
    requires forall x :: x in xs ==> p(x)
    ensures Filter(xs, p) == xs
  {
    if |xs| > 0 {
      LemmaFilterAll(xs[1..], p);
    }
  }

  // Splitting
  // --------------------------------------------------------------------------

  /**
   * `groupsOf(size, xs)`: consecutive chunks of `size`, the last one shorter.
   * The source loops forever for a size below 1 unless the input is empty
   * and the size is 0, so callers must avoid that.
   */
  function GroupsOf<T>(size: int, xs: seq<T>): (r: seq<seq<T>>)
    requires size >= 1 || (size == 0 && |xs| == 0)
    ensures Flatten(r) == xs
    ensures forall i :: 0 <= i < |r| ==> 0 < |r[i]| <= size
    ensures forall i :: 0 <= i < |r| - 1 ==> |r[i]| == size
    ensures |r| == 0 <==> |xs| == 0
    decreases |xs|
  {
    if |xs| > size then [xs[..size]] + GroupsOf(size, xs[size..])
    else if |xs| > 0 then [xs]
    else []
  }

  /** An input of exactly `m` chunks' length is cut into `m` full chunks. */
  lemma {:induction false} LemmaGroupsOfExact<T>(size: int, m: nat, xs: seq<T>)
    requires size >= 1 && |xs| == m * size
    ensures |GroupsOf(size, xs)| == m
    ensures forall i :: 0 <= i < m ==> |GroupsOf(size, xs)[i]| == size
    decreases m
  {
    if m > 1 {
      assert |xs[size..]| == (m - 1) * size;
      LemmaGroupsOfExact(size, m - 1, xs[size..]);
    }
  }

  /** `n * m` as repeated addition, which keeps the proofs below linear. */
  function Mul(n: nat, m: nat): nat {
    if n == 0 then 0 else m + Mul(n - 1, m)
  }

  lemma {:induction false} LemmaMul(n: nat, m: nat)
    ensures Mul(n, m) == n * m
  {
    if n > 0 {
      LemmaMul(n - 1, m);
      LemmaMulStep(n, m);
    }
  }

  /** The `while (groups--)` loop of `splitInto`: the first `rem` groups get one extra element. */
  function Deal<T>(count: nat, q: nat, rem: nat, xs: seq<T>): (r: seq<seq<T>>)
    requires rem <= count
    requires |xs| == Mul(count, q) + rem
    ensures |r| == count
    ensures Flatten(r) == xs
    ensures forall i :: 0 <= i < count ==> |r[i]| == q + (if i < rem then 1 else 0)
    decreases count
  {
    if count == 0 then []
    else
      var size := if rem > 0 then q + 1 else q;
      var rem' := if rem > 0 then rem - 1 else 0;
      var rest := Deal(count - 1, q, rem', xs[size..]);
      var r := [xs[..size]] + rest;
      assert r[1..] == rest;
      assert xs == xs[..size] + xs[size..];
      forall i | 0 <= i < count
        ensures |r[i]| == q + (if i < rem then 1 else 0)
      {
        if i > 0 {
          assert r[i] == rest[i - 1];
        }
      }
      r
  }

  /**
   * `splitInto(groups, xs)`: `clamp(groups, 1, |xs|)` groups of near-equal
   * size, the larger ones first. On an empty input the clamp yields 0 groups;
   * the quotient is then `NaN` and `groupsOf(NaN, [])` returns no groups.
   */
  function SplitInto<T>(groups: int, xs: seq<T>): (r: seq<seq<T>>)
    ensures Flatten(r) == xs
    ensures |xs| == 0 ==> |r| == 0
    ensures |xs| > 0 ==> |r| == Clamp(groups, 1, |xs|)
    ensures forall i :: 0 <= i < |r| ==> |r[i]| == |xs| / |r| + (if i < |xs| % |r| then 1 else 0)
  {
    if |xs| == 0 then []
    else
      var n := Clamp(groups, 1, |xs|);
      var quotient := |xs| / n;
      var remainder := |xs| % n;
      if remainder == 0 then
        LemmaGroupsOfExact(quotient, n, xs);
        GroupsOf(quotient, xs)
      else
        LemmaMul(n, quotient);
        Deal(n, quotient, remainder, xs)
  }

  function TakeFirst<T>(i: int, xs: seq<T>): (r: seq<T>)
    ensures |r| == Clamp(i, 0, |xs|)
    ensures r == xs[..|r|]
  {
    xs[..Clamp(i, 0, |xs|)]
  }

  function DropFirst<T>(i: int, xs: seq<T>): (r: seq<T>)
    ensures |r| == |xs| - Clamp(i, 0, |xs|)
    ensures r == xs[|xs| - |r|..]
  {
    xs[Clamp(i, 0, |xs|)..]
  }

  /** `splitAt(i, xs)`: a clamped split whose two halves concatenate back to `xs`. */
  function SplitAt<T>(i: int, xs: seq<T>): (r: (seq<T>, seq<T>))
    ensures r.0 + r.1 == xs
    ensures |r.0| == Clamp(i, 0, |xs|)
  {
    (TakeFirst(i, xs), DropFirst(i, xs))
  }
}
