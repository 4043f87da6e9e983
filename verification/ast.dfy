/**
 * The two-constructor tree of `lib/ast.js`: a `Branch` holds an ordered list
 * of subtrees and a `Leaf` holds one value. The `Leaf` constructor stores
 * `null` in place of any falsy value, so the values of a leaf type come with
 * their JavaScript truthiness and their `null`.
 */
module Ast {
  import Seqs
  import opened Js

  datatype Ast<T> = Branch(nodes: seq<Ast<T>>) | Leaf(value: T)

  /** How a value type looks to JavaScript: which values are falsy, and which one is `null`. */
  datatype Domain<!T> = Domain(falsy: T -> bool, nil: T)

  /** `null` is itself falsy. */
  predicate ValidDomain<T>(d: Domain<T>) {
    d.falsy(d.nil)
  }

  /** `value || null`. */
  function Normal<T>(d: Domain<T>, v: T): (r: T)
    requires ValidDomain(d)
    ensures d.falsy(v) ==> r == d.nil
    ensures !d.falsy(v) ==> r == v
  {
    if d.falsy(v) then d.nil else v
  }

  /** `new Leaf(value)` and `leaf(value)`: a falsy value is stored as `null`. */
  function MakeLeaf<T>(d: Domain<T>, v: T): (r: Ast<T>)
    requires ValidDomain(d)
    ensures r.Leaf? && Stored(d, r.value)
    ensures !d.falsy(v) ==> r.value == v
    ensures d.falsy(v) ==> r.value == d.nil
  {
    Leaf(Normal(d, v))
  }

  /** `new Branch(nodes)` and `branch(nodes)`: a missing list becomes `[]`. */
  function MakeBranch<T>(nodes: Option<seq<Ast<T>>>): (r: Ast<T>)
    ensures r.Branch?
    ensures nodes.None? ==> |r.nodes| == 0
    ensures nodes.Some? ==> r.nodes == nodes.value
  {
    Branch(nodes.GetOr([]))
  }

  /** A value the `Leaf` constructor can have stored: truthy, or `null`. */
  ghost predicate Stored<T>(d: Domain<T>, v: T) {
    !d.falsy(v) || v == d.nil
  }

  /** Every leaf holds a value the constructor could have stored. */
  ghost predicate Normalized<T>(d: Domain<T>, a: Ast<T>)
    decreases a
  {
    match a
    case Leaf(v) => Stored(d, v)
    case Branch(ns) => forall i :: 0 <= i < |ns| ==> Normalized(d, ns[i])
  }

  /** Both trees have the same branches, with the same number of subtrees each. */
  ghost predicate SameShape<A, B>(a: Ast<A>, b: Ast<B>)
    decreases a
  {
    match a
    case Leaf(_) => b.Leaf?
    case Branch(ns) =>
      && b.Branch?
      && |ns| == |b.nodes|
      && forall i :: 0 <= i < |ns| ==> SameShape(ns[i], b.nodes[i])
  }

  /** The leaf values from left to right. */
  function Fringe<T>(a: Ast<T>): seq<T>
    decreases a
  {
    match a
    case Leaf(v) => [v]
    case Branch(ns) => FringeOf(ns)
  }

  function FringeOf<T>(ns: seq<Ast<T>>): seq<T>
    decreases ns
  {
    if |ns| == 0 then [] else Fringe(ns[0]) + FringeOf(ns[1..])
  }

  // Functor
  // --------------------------------------------------------------------------

  /** `f` followed by the `Leaf` constructor's normalisation. */
  function Then<T, U>(f: T -> U, d: Domain<U>): T -> U
    requires ValidDomain(d)
  {
    x => Normal(d, f(x))
  }

  /** `map(f)`: a `Branch` maps its subtrees; a `Leaf` becomes `new Leaf(f(value))`. */
  function Map<T, U>(a: Ast<T>, f: T -> U, d: Domain<U>): (r: Ast<U>)
    requires ValidDomain(d)
    ensures SameShape(a, r)
    ensures Normalized(d, r)
    decreases a
  {
    match a
    case Leaf(v) => MakeLeaf(d, f(v))
    case Branch(ns) => Branch(MapEach(ns, f, d))
  }

  /** `nodes.map(node => node.map(f))`. */
  function MapEach<T, U>(ns: seq<Ast<T>>, f: T -> U, d: Domain<U>): (r: seq<Ast<U>>)
    requires ValidDomain(d)
    ensures |r| == |ns|
    ensures forall i :: 0 <= i < |ns| ==> SameShape(ns[i], r[i]) && Normalized(d, r[i])
    decreases ns
  {
    seq(|ns|, i requires 0 <= i < |ns| => Map(ns[i], f, d))
  }

  /** `map` applies `f` (then normalises) to every leaf value, in the same left-to-right order. */
  lemma {:induction false} LemmaMapFringe<T, U>(a: Ast<T>, f: T -> U, d: Domain<U>)
    requires ValidDomain(d)
    ensures Fringe(Map(a, f, d)) == Seqs.Map(Fringe(a), Then(f, d))
    decreases a, 1
  {
    match a
    case Leaf(v) =>
      assert Seqs.Map([v], Then(f, d)) == [Normal(d, f(v))];
    case Branch(ns) =>
      LemmaMapFringeOf(ns, f, d);
  }

  lemma {:induction false} LemmaMapFringeOf<T, U>(ns: seq<Ast<T>>, f: T -> U, d: Domain<U>)
    requires ValidDomain(d)
    ensures FringeOf(MapEach(ns, f, d)) == Seqs.Map(FringeOf(ns), Then(f, d))
    decreases ns, 0
  {
    if |ns| > 0 {
      LemmaMapFringe(ns[0], f, d);
      LemmaMapFringeOf(ns[1..], f, d);
      assert MapEach(ns, f, d)[1..] == MapEach(ns[1..], f, d);
      Seqs.LemmaMapAppend(Fringe(ns[0]), FringeOf(ns[1..]), Then(f, d));
    }
  }

  // Apply, Applicative
  // --------------------------------------------------------------------------

  /** `b._value`: a leaf's value, or `undefined` (supplied as `undef`) on a branch. */
  function ValueOf<T>(b: Ast<T>, undef: T): (r: T)
    ensures b.Leaf? ==> r == b.value
    ensures b.Branch? ==> r == undef
  {
    if b.Leaf? then b.value else undef
  }

  /**
   * `ap(b)`: on a `Leaf` this leaf's function applied to `b`'s value, on a
   * `Branch` `ap(b)` on every subtree.
   */
  function Ap<T, U>(a: Ast<T -> U>, b: Ast<T>, undef: T, d: Domain<U>): (r: Ast<U>)
    requires ValidDomain(d)
    ensures SameShape(a, r)
    decreases a
  {
    match a
    case Leaf(g) => MakeLeaf(d, g(ValueOf(b, undef)))
    case Branch(ns) => Branch(seq(|ns|, i requires 0 <= i < |ns| => Ap(ns[i], b, undef, d)))
  }

  /** The function `g => g(x)`. */
  function ApplyTo<T, U>(x: T): (T -> U) -> U {
    (g: T -> U) => g(x)
  }

  /** `ap(b)` reads only `b`'s own value: it is `map` with that value as the argument. */
  lemma {:induction false} LemmaApIsMap<T, U>(a: Ast<T -> U>, b: Ast<T>, undef: T, d: Domain<U>)
    requires ValidDomain(d)
    ensures Ap(a, b, undef, d) == Map(a, ApplyTo(ValueOf(b, undef)), d)
    decreases a
  {
    match a
    case Leaf(_) =>
    case Branch(ns) =>
      forall i | 0 <= i < |ns|
        ensures Ap(ns[i], b, undef, d) == Map(ns[i], ApplyTo(ValueOf(b, undef)), d)
      {
        LemmaApIsMap(ns[i], b, undef, d);
      }
  }

  /** `Node.of`, `Branch.of`, `Leaf.of`: all three are `leaf`. */
  function Of<T>(d: Domain<T>, v: T): (r: Ast<T>)
    requires ValidDomain(d)
    ensures r.Leaf? && r.value == Normal(d, v)
    ensures Fringe(r) == [Normal(d, v)]
  {
    MakeLeaf(d, v)
  }

  // Foldable
  // --------------------------------------------------------------------------

  /** `reduce(f, x)`: a `Leaf` is `f(value, x)`; a `Branch` folds its subtrees left to right. */
  function Reduce<T, A>(a: Ast<T>, f: (T, A) -> A, x: A): (r: A)
    ensures r == Seqs.Reduce(Fringe(a), f, x)
    decreases a
  {
    match a
    case Leaf(v) => f(v, x)
    case Branch(ns) => ReduceOf(ns, f, x)
  }

  /** `nodes.reduce((acc, node) => node.reduce(f, acc), x)`. */
  function ReduceOf<T, A>(ns: seq<Ast<T>>, f: (T, A) -> A, x: A): (r: A)
    ensures r == Seqs.Reduce(FringeOf(ns), f, x)
    decreases ns
  {
    if |ns| == 0 then x
    else
      Seqs.LemmaReduceAppend(Fringe(ns[0]), FringeOf(ns[1..]), f, x);
      ReduceOf(ns[1..], f, Reduce(ns[0], f, x))
  }

  // Chain
  // --------------------------------------------------------------------------

  /** `chain(f)`: every `Leaf` is replaced by `f(value)`, `Branch`es are rebuilt around the results. */
  function Chain<T, U>(a: Ast<T>, f: T -> Ast<U>): (r: Ast<U>)
    ensures a.Branch? ==> r.Branch? && |r.nodes| == |a.nodes|
    ensures a.Branch? ==> forall i :: 0 <= i < |a.nodes| ==> r.nodes[i] == Chain(a.nodes[i], f)
    ensures a.Leaf? ==> r == f(a.value)
    decreases a
  {
    match a
    case Leaf(v) => f(v)
    case Branch(ns) => Branch(ChainEach(ns, f))
  }

  /** `nodes.map(node => node.chain(f))`. */
  function ChainEach<T, U>(ns: seq<Ast<T>>, f: T -> Ast<U>): (r: seq<Ast<U>>)
    ensures |r| == |ns|
    ensures forall i :: 0 <= i < |ns| ==> r[i] == Chain(ns[i], f)
    decreases ns
  {
    seq(|ns|, i requires 0 <= i < |ns| => Chain(ns[i], f))
  }

  /** The leaf values of `f(v)`. */
  function FringeAfter<T, U>(f: T -> Ast<U>): T -> seq<U> {
    v => Fringe(f(v))
  }

  /** The leaf values of `chain(f)` are those of `f(v)` for each leaf value `v`, in order. */
  lemma {:induction false} LemmaChainFringe<T, U>(a: Ast<T>, f: T -> Ast<U>)
    ensures Fringe(Chain(a, f)) == Seqs.Chain(Fringe(a), FringeAfter(f))
    decreases a, 1
  {
    match a
    case Leaf(v) =>
      Seqs.LemmaMonadLaws(v, [], FringeAfter(f), []);
      assert Fringe(a) == Seqs.Of(v);
    case Branch(ns) =>
      LemmaChainFringeOf(ns, f);
  }

  lemma {:induction false} LemmaChainFringeOf<T, U>(ns: seq<Ast<T>>, f: T -> Ast<U>)
    ensures FringeOf(ChainEach(ns, f)) == Seqs.Chain(FringeOf(ns), FringeAfter(f))
    decreases ns, 0
  {
    if |ns| > 0 {
      LemmaChainFringe(ns[0], f);
      LemmaChainFringeOf(ns[1..], f);
      assert ChainEach(ns, f)[1..] == ChainEach(ns[1..], f);
      Seqs.LemmaMapAppend(Fringe(ns[0]), FringeOf(ns[1..]), FringeAfter(f));
      Seqs.LemmaFlattenAppend(Seqs.Map(Fringe(ns[0]), FringeAfter(f)), Seqs.Map(FringeOf(ns[1..]), FringeAfter(f)));
    } else {
      assert Seqs.Map(FringeOf(ns), FringeAfter(f)) == [];
    }
  }

  /** `chain` keeps a tree normalised when `f` yields normalised trees. */
  lemma {:induction false} LemmaChainNormalized<T, U>(a: Ast<T>, f: T -> Ast<U>, d: Domain<U>)
    requires forall v :: Normalized(d, f(v))
    ensures Normalized(d, Chain(a, f))
    decreases a
  {
    match a
    case Leaf(_) =>
    case Branch(ns) =>
      forall i | 0 <= i < |ns|
        ensures Normalized(d, Chain(a, f).nodes[i])
      {
        LemmaChainNormalized(ns[i], f, d);
      }
  }
}
