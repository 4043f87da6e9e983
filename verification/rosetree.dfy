/**
 * The immutable rose tree behind the test definitions (`lib/node2.js` and its
 * successor `lib/rosetree.js`): a value with an ordered list of child trees.
 * Every operation builds new nodes; the receiver is never changed, which the
 * functional model gives for free.
 */
module RoseTree {
  import Seqs

  datatype Tree<T> = Node(value: T, children: seq<Tree<T>>)

  /** A node without children. */
  predicate IsLeaf<T>(t: Tree<T>) {
    |t.children| == 0
  }

  /** `Node.of(v)`: a childless node holding `v`. */
  function Of<T>(v: T): (r: Tree<T>)
    ensures IsLeaf(r) && r.value == v
  {
    Node(v, [])
  }

  /** `extract()`: the stored value. */
  function Extract<T>(t: Tree<T>): T {
    t.value
  }

  /** `insertLeft(n)`: `n` becomes the first child, the old children follow. */
  function InsertLeft<T>(t: Tree<T>, n: Tree<T>): (r: Tree<T>)
    ensures r.value == t.value
    ensures |r.children| == |t.children| + 1
    ensures r.children[0] == n && r.children[1..] == t.children
  {
    Node(t.value, [n] + t.children)
  }

  /** `insertRight(n)`: the old children come first and `n` is last. */
  function InsertRight<T>(t: Tree<T>, n: Tree<T>): (r: Tree<T>)
    ensures r.value == t.value
    ensures |r.children| == |t.children| + 1
    ensures r.children[|t.children|] == n && r.children[..|t.children|] == t.children
  {
    Node(t.value, t.children + [n])
  }

  /** Inserting on the two sides commutes. */
  lemma LemmaInsertCommute<T>(t: Tree<T>, a: Tree<T>, b: Tree<T>)
    ensures InsertRight(InsertLeft(t, a), b) == InsertLeft(InsertRight(t, b), a)
  {
    assert ([a] + t.children) + [b] == [a] + (t.children + [b]);
  }

  // Leaves and paths
  // --------------------------------------------------------------------------

  /** `leaves()`: the node itself when childless, else the children's leaves joined in order. */
  function Leaves<T>(t: Tree<T>): seq<Tree<T>>
    decreases t
  {
    if |t.children| == 0 then [t] else Seqs.Join(LeavesEach(t.children))
  }

  /** `children.map(node => node.leaves())`. */
  function LeavesEach<T>(ts: seq<Tree<T>>): (r: seq<seq<Tree<T>>>)
    ensures |r| == |ts|
    decreases ts
  {
    seq(|ts|, i requires 0 <= i < |ts| => Leaves(ts[i]))
  }

  /** The flattened leaves of a list of trees split at its head. */
  lemma LemmaLeavesEachCons<T>(ts: seq<Tree<T>>)
    requires |ts| > 0
    ensures Seqs.Flatten(LeavesEach(ts)) == Leaves(ts[0]) + Seqs.Flatten(LeavesEach(ts[1..]))
  {
    var ls := LeavesEach(ts);
    LemmaLeavesEachTail(ts);
    assert ls[0] == Leaves(ts[0]);
    assert Seqs.Flatten(ls) == ls[0] + Seqs.Flatten(ls[1..]);
  }

  lemma LemmaLeavesEachTail<T>(ts: seq<Tree<T>>)
    requires |ts| > 0
    ensures LeavesEach(ts)[1..] == LeavesEach(ts[1..])
  {
    forall i | 0 <= i < |ts| - 1
      ensures LeavesEach(ts)[1..][i] == LeavesEach(ts[1..])[i]
    {
      assert ts[1..][i] == ts[i + 1];
    }
  }

  /**
   * A walk from `paths()`: a childless node yields the node itself (`Bare`),
   * any other node yields arrays of nodes (`Path`).
   */
  datatype Walk<T> = Bare(node: Tree<T>) | Path(nodes: seq<Tree<T>>)

  /** `[self].concat(path)`: an array is spread after `self`, a bare node is appended. */
  function Prefix<T>(t: Tree<T>): Walk<T> -> Walk<T> {
    (w: Walk<T>) => match w
      case Bare(n) => Path([t, n])
      case Path(ns) => Path([t] + ns)
  }

  /** `paths()`: the children's paths joined in order, each prefixed with this node. */
  function Paths<T>(t: Tree<T>): seq<Walk<T>>
    decreases t
  {
    if |t.children| == 0 then [Bare(t)]
    else Seqs.Map(Seqs.Join(PathsEach(t.children)), Prefix(t))
  }

  /** `children.map(node => node.paths())`. */
  function PathsEach<T>(ts: seq<Tree<T>>): (r: seq<seq<Walk<T>>>)
    ensures |r| == |ts|
    decreases ts
  {
    seq(|ts|, i requires 0 <= i < |ts| => Paths(ts[i]))
  }

  lemma LemmaPathsEachCons<T>(ts: seq<Tree<T>>)
    requires |ts| > 0
    ensures Seqs.Flatten(PathsEach(ts)) == Paths(ts[0]) + Seqs.Flatten(PathsEach(ts[1..]))
  {
    var ps := PathsEach(ts);
    LemmaPathsEachTail(ts);
    assert ps[0] == Paths(ts[0]);
    assert Seqs.Flatten(ps) == ps[0] + Seqs.Flatten(ps[1..]);
  }

  lemma LemmaPathsEachTail<T>(ts: seq<Tree<T>>)
    requires |ts| > 0
    ensures PathsEach(ts)[1..] == PathsEach(ts[1..])
  {
    forall i | 0 <= i < |ts| - 1
      ensures PathsEach(ts)[1..][i] == PathsEach(ts[1..])[i]
    {
      assert ts[1..][i] == ts[i + 1];
    }
  }

  /** The walk ends at node `n`. */
  ghost predicate EndsAt<T>(w: Walk<T>, n: Tree<T>) {
    match w
    case Bare(m) => m == n
    case Path(ns) => |ns| > 0 && ns[|ns| - 1] == n
  }

  /** Each step of `ns` goes from a node to one of its children. */
  ghost predicate Descends<T>(ns: seq<Tree<T>>) {
    forall i :: 0 <= i < |ns| - 1 ==> ns[i + 1] in ns[i].children
  }

  /** `w` goes from `t` down to a childless node. */
  ghost predicate WalkFrom<T>(t: Tree<T>, w: Walk<T>) {
    match w
    case Bare(n) => n == t && IsLeaf(t)
    case Path(ns) => |ns| >= 2 && ns[0] == t && Descends(ns) && IsLeaf(ns[|ns| - 1])
  }

  /** Every leaf is childless, and every tree has at least one. */
  lemma {:induction false} LemmaLeaves<T>(t: Tree<T>)
    ensures |Leaves(t)| >= 1
    ensures forall i :: 0 <= i < |Leaves(t)| ==> IsLeaf(Leaves(t)[i])
    ensures IsLeaf(t) ==> Leaves(t) == [t]
    decreases t, 1
  {
    if |t.children| > 0 {
      LemmaLeavesOf(t.children);
    }
  }

  lemma {:induction false} LemmaLeavesOf<T>(ts: seq<Tree<T>>)
    ensures |ts| > 0 ==> |Seqs.Flatten(LeavesEach(ts))| >= 1
    ensures forall i :: 0 <= i < |Seqs.Flatten(LeavesEach(ts))| ==> IsLeaf(Seqs.Flatten(LeavesEach(ts))[i])
    decreases ts, 0
  {
    if |ts| > 0 {
      LemmaLeavesEachCons(ts);
      LemmaLeaves(ts[0]);
      LemmaLeavesOf(ts[1..]);
    }
  }

  /** Prefixing keeps the end of a walk. */
  lemma LemmaPrefixEnd<T>(t: Tree<T>, w: Walk<T>, n: Tree<T>)
    requires EndsAt(w, n)
    ensures EndsAt(Prefix(t)(w), n)
  {
  }

  /**
   * There is one path per leaf, in the same order, and the i-th path ends at
   * the i-th leaf.
   */
  lemma {:induction false} LemmaPathsEndAtLeaves<T>(t: Tree<T>)
    ensures |Paths(t)| == |Leaves(t)|
    ensures forall i :: 0 <= i < |Paths(t)| ==> EndsAt(Paths(t)[i], Leaves(t)[i])
    decreases t, 1
  {
    if |t.children| > 0 {
      var ws := Seqs.Flatten(PathsEach(t.children));
      LemmaPathsOfEndAtLeaves(t.children);
      forall i | 0 <= i < |Paths(t)|
        ensures EndsAt(Paths(t)[i], Leaves(t)[i])
      {
        LemmaPrefixEnd(t, ws[i], Leaves(t)[i]);
      }
    }
  }

  lemma {:induction false} LemmaPathsOfEndAtLeaves<T>(ts: seq<Tree<T>>)
    ensures |Seqs.Flatten(PathsEach(ts))| == |Seqs.Flatten(LeavesEach(ts))|
    ensures forall i :: 0 <= i < |Seqs.Flatten(PathsEach(ts))| ==>
      EndsAt(Seqs.Flatten(PathsEach(ts))[i], Seqs.Flatten(LeavesEach(ts))[i])
    decreases ts, 0
  {
    if |ts| > 0 {
      LemmaPathsEachCons(ts);
      LemmaLeavesEachCons(ts);
      LemmaPathsEndAtLeaves(ts[0]);
      LemmaPathsOfEndAtLeaves(ts[1..]);
      var ws, ls := Seqs.Flatten(PathsEach(ts)), Seqs.Flatten(LeavesEach(ts));
      var h := |Paths(ts[0])|;
      forall i | 0 <= i < |ws|
        ensures EndsAt(ws[i], ls[i])
      {
        if i >= h {
          assert ws[i] == Seqs.Flatten(PathsEach(ts[1..]))[i - h];
          assert ls[i] == Seqs.Flatten(LeavesEach(ts[1..]))[i - h];
        }
      }
    }
  }

  /** Prefixing a walk that starts at a child gives a path that starts at the parent. */
  lemma LemmaPrefixFrom<T>(t: Tree<T>, c: Tree<T>, w: Walk<T>)
    requires c in t.children && WalkFrom(c, w)
    ensures Prefix(t)(w).Path? && WalkFrom(t, Prefix(t)(w))
  {
    if w.Path? {
      var ns := [t] + w.nodes;
      forall i | 0 <= i < |ns| - 1
        ensures ns[i + 1] in ns[i].children
      {
        if i > 0 {
          assert ns[i + 1] == w.nodes[i] && ns[i] == w.nodes[i - 1];
        }
      }
    }
  }

  /**
   * `paths()` of a childless node is the node itself; otherwise every entry
   * is an array that starts at the node, steps from parent to child, and ends
   * at a childless node.
   */
  lemma {:induction false} LemmaPathsFrom<T>(t: Tree<T>)
    ensures IsLeaf(t) ==> Paths(t) == [Bare(t)]
    ensures !IsLeaf(t) ==> forall i :: 0 <= i < |Paths(t)| ==> Paths(t)[i].Path?
    ensures forall i :: 0 <= i < |Paths(t)| ==> WalkFrom(t, Paths(t)[i])
    decreases t, 1
  {
    if |t.children| > 0 {
      var ws := Seqs.Flatten(PathsEach(t.children));
      LemmaPathsOfFrom(t.children);
      forall i | 0 <= i < |Paths(t)|
        ensures Paths(t)[i].Path? && WalkFrom(t, Paths(t)[i])
      {
        var j :| 0 <= j < |t.children| && WalkFrom(t.children[j], ws[i]);
        LemmaPrefixFrom(t, t.children[j], ws[i]);
      }
    }
  }

  lemma {:induction false} LemmaPathsOfFrom<T>(ts: seq<Tree<T>>)
    ensures forall i :: 0 <= i < |Seqs.Flatten(PathsEach(ts))| ==>
      exists j :: 0 <= j < |ts| && WalkFrom(ts[j], Seqs.Flatten(PathsEach(ts))[i])
    decreases ts, 0
  {
    if |ts| > 0 {
      LemmaPathsEachCons(ts);
      LemmaPathsFrom(ts[0]);
      LemmaPathsOfFrom(ts[1..]);
      var ws := Seqs.Flatten(PathsEach(ts));
      var tail := Seqs.Flatten(PathsEach(ts[1..]));
      var h := |Paths(ts[0])|;
      forall i | 0 <= i < |ws|
        ensures exists j :: 0 <= j < |ts| && WalkFrom(ts[j], ws[i])
      {
        if i < h {
          assert ws[i] == Paths(ts[0])[i];
          assert WalkFrom(ts[0], ws[i]);
        } else {
          assert ws[i] == tail[i - h];
          var j :| 0 <= j < |ts[1..]| && WalkFrom(ts[1..][j], tail[i - h]);
          assert ts[1..][j] == ts[j + 1];
          assert WalkFrom(ts[j + 1], ws[i]);
        }
      }
    } else {
      assert Seqs.Flatten(PathsEach(ts)) == [];
    }
  }

  // Functor, Foldable
  // --------------------------------------------------------------------------

  /** Both trees have the same number of children at every node. */
  ghost predicate SameShape<A, B>(a: Tree<A>, b: Tree<B>)
    decreases a
  {
    && |a.children| == |b.children|
    && forall i :: 0 <= i < |a.children| ==> SameShape(a.children[i], b.children[i])
  }

  /** The values in pre-order: the root, then each child subtree left to right. */
  function PreOrder<T>(t: Tree<T>): seq<T>
    decreases t
  {
    [t.value] + PreOrderOf(t.children)
  }

  function PreOrderOf<T>(ts: seq<Tree<T>>): seq<T>
    decreases ts
  {
    if |ts| == 0 then [] else PreOrder(ts[0]) + PreOrderOf(ts[1..])
  }

  /** `map(f)`: the same shape, with `f` applied at every node. */
  function Map<T, U>(t: Tree<T>, f: T -> U): (r: Tree<U>)
    ensures SameShape(t, r)
    ensures r.value == f(t.value)
    decreases t
  {
    Node(f(t.value), MapEach(t.children, f))
  }

  /** `children.map(node => node.map(f))`. */
  function MapEach<T, U>(ts: seq<Tree<T>>, f: T -> U): (r: seq<Tree<U>>)
    ensures |r| == |ts|
    ensures forall i :: 0 <= i < |ts| ==> SameShape(ts[i], r[i])
    decreases ts
  {
    seq(|ts|, i requires 0 <= i < |ts| => Map(ts[i], f))
  }

  /** `map` applies `f` to every value, visiting them in the same order. */
  lemma {:induction false} LemmaMapPreOrder<T, U>(t: Tree<T>, f: T -> U)
    ensures PreOrder(Map(t, f)) == Seqs.Map(PreOrder(t), f)
    decreases t, 1
  {
    LemmaMapPreOrderOf(t.children, f);
    Seqs.LemmaMapAppend([t.value], PreOrderOf(t.children), f);
    assert Seqs.Map([t.value], f) == [f(t.value)];
  }

  lemma {:induction false} LemmaMapPreOrderOf<T, U>(ts: seq<Tree<T>>, f: T -> U)
    ensures PreOrderOf(MapEach(ts, f)) == Seqs.Map(PreOrderOf(ts), f)
    decreases ts, 0
  {
    if |ts| > 0 {
      LemmaMapPreOrder(ts[0], f);
      LemmaMapPreOrderOf(ts[1..], f);
      assert MapEach(ts, f)[1..] == MapEach(ts[1..], f);
      Seqs.LemmaMapAppend(PreOrder(ts[0]), PreOrderOf(ts[1..]), f);
    }
  }

  /** `reduce(f, x)`: `f(value, x)` first, then each child subtree folded left to right. */
  function Reduce<T, A>(t: Tree<T>, f: (T, A) -> A, x: A): (r: A)
    ensures r == Seqs.Reduce(PreOrder(t), f, x)
    decreases t
  {
    ReduceOf(t.children, f, f(t.value, x))
  }

  /** `children.reduce((acc, node) => node.reduce(f, acc), x)`. */
  function ReduceOf<T, A>(ts: seq<Tree<T>>, f: (T, A) -> A, x: A): (r: A)
    ensures r == Seqs.Reduce(PreOrderOf(ts), f, x)
    decreases ts
  {
    if |ts| == 0 then x
    else
      Seqs.LemmaReduceAppend(PreOrder(ts[0]), PreOrderOf(ts[1..]), f, x);
      ReduceOf(ts[1..], f, Reduce(ts[0], f, x))
  }

  // Apply, Chain, Monad
  // --------------------------------------------------------------------------

  /** `ap(b)`: this node's function applied to `b`'s value, and `ap(b)` on every child. */
  function Ap<T, U>(t: Tree<T -> U>, b: Tree<T>): (r: Tree<U>)
    ensures SameShape(t, r)
    decreases t
  {
    Node(t.value(b.value), seq(|t.children|, i requires 0 <= i < |t.children| => Ap(t.children[i], b)))
  }

  /** The function `g => g(x)`. */
  function ApplyTo<T, U>(x: T): (T -> U) -> U {
    (g: T -> U) => g(x)
  }

  /** `ap(b)` only ever reads `b`'s root value: it is `map` with that value as argument. */
  lemma {:induction false} LemmaApIsMap<T, U>(t: Tree<T -> U>, b: Tree<T>)
    ensures Ap(t, b) == Map(t, ApplyTo(b.value))
    decreases t
  {
    forall i | 0 <= i < |t.children|
      ensures Ap(t.children[i], b) == Map(t.children[i], ApplyTo(b.value))
    {
      LemmaApIsMap(t.children[i], b);
    }
  }

  /**
   * `chain(f)`: the value and children of `f(value)`, followed by `chain(f)`
   * of each old child in order.
   */
  function Chain<T, U>(t: Tree<T>, f: T -> Tree<U>): (r: Tree<U>)
    ensures r.value == f(t.value).value
    ensures |r.children| == |f(t.value).children| + |t.children|
    ensures r.children[..|f(t.value).children|] == f(t.value).children
    ensures forall i :: 0 <= i < |t.children| ==> r.children[|f(t.value).children| + i] == Chain(t.children[i], f)
    decreases t
  {
    var n := f(t.value);
    Node(n.value, n.children + seq(|t.children|, i requires 0 <= i < |t.children| => Chain(t.children[i], f)))
  }

  /** The identity, `chain`'s argument in `join`. */
  function Id<T>(x: T): T {
    x
  }

  /** `join()`: `chain(id)`. */
  function Join<T>(t: Tree<Tree<T>>): (r: Tree<T>)
    ensures r.value == t.value.value
    ensures |r.children| == |t.value.children| + |t.children|
    ensures r.children[..|t.value.children|] == t.value.children
    ensures forall i :: 0 <= i < |t.children| ==> r.children[|t.value.children| + i] == Join(t.children[i])
  {
    Chain(t, Id)
  }

  /** `of` is a left and right unit of `chain`. */
  lemma {:induction false} LemmaChainUnits<T, U>(v: T, f: T -> Tree<U>, t: Tree<T>)
    ensures Chain(Of(v), f) == f(v)
    ensures Chain(t, Of) == t
    decreases t
  {
    assert Chain(Of(v), f).children == f(v).children + [];
    forall i | 0 <= i < |t.children|
      ensures Chain(t.children[i], Of) == t.children[i]
    {
      LemmaChainUnits(v, f, t.children[i]);
    }
    assert Chain(t, Of).children == [] + seq(|t.children|, i requires 0 <= i < |t.children| => Chain(t.children[i], Of));
  }

  /** `chain` is associative: chaining `f` then `g` is chaining `x => chain(f(x), g)`. */
  lemma {:induction false} LemmaChainAssoc<T, U, W>(t: Tree<T>, f: T -> Tree<U>, g: U -> Tree<W>)
    ensures Chain(Chain(t, f), g) == Chain(t, ChainAfter(f, g))
    decreases t
  {
    var n := f(t.value);
    var left := Chain(Chain(t, f), g);
    var right := Chain(t, ChainAfter(f, g));
    assert ChainAfter(f, g)(t.value) == Chain(n, g);
    assert |left.children| == |right.children|;
    forall i | 0 <= i < |left.children|
      ensures left.children[i] == right.children[i]
    {
      var k := |g(n.value).children| + |n.children|;
      if k <= i {
        LemmaChainAssoc(t.children[i - k], f, g);
      }
    }
  }

  /** The function `x => chain(f(x), g)`. */
  function ChainAfter<T, U, W>(f: T -> Tree<U>, g: U -> Tree<W>): T -> Tree<W> {
    (x: T) => Chain(f(x), g)
  }

  /** Wrapping every value with `of` and joining gives the tree back. */
  lemma LemmaJoinMapOf<T>(t: Tree<T>)
    ensures Join(Map(t, Of)) == t
  {
    LemmaJoinMapOfOn(t);
  }

  lemma {:induction false} LemmaJoinMapOfOn<T>(t: Tree<T>)
    ensures Chain(Map(t, Of), Id) == t
    decreases t
  {
    var m := Map(t, Of);
    var r := Chain(m, Id);
    assert |Id(m.value).children| == 0;
    forall i | 0 <= i < |t.children|
      ensures r.children[i] == t.children[i]
    {
      assert m.children == MapEach(t.children, Of);
      assert MapEach(t.children, Of)[i] == Map(t.children[i], Of);
      assert r.children[0 + i] == Chain(m.children[i], Id);
      LemmaJoinMapOfOn(t.children[i]);
    }
    assert r.children == t.children;
  }

  /** `extract` undoes `of` and commutes with `map`. */
  lemma LemmaExtract<T, U>(v: T, t: Tree<T>, f: T -> U)
    ensures Extract(Of(v)) == v
    ensures Extract(Map(t, f)) == f(Extract(t))
  {
  }

  // Setoid
  // --------------------------------------------------------------------------

  /**
   * `equals(b)` of the first draft, as written: equal root values (by `eq`)
   * and child counts, and then every pair of the receiver's OWN children must
   * be equal.
   */
  function Node2Equals<T>(a: Tree<T>, b: Tree<T>, eq: (T, T) -> bool): (r: bool)
    ensures r ==> eq(a.value, b.value) && |a.children| == |b.children|
    decreases a
  {
    && eq(a.value, b.value)
    && |a.children| == |b.children|
    && forall i, j :: 0 <= i < |a.children| && 0 <= j < |b.children| ==>
      Node2Equals(a.children[i], a.children[j], eq)
  }

  /** A tree with two different leaves is not equal to itself under the first draft. */
  lemma LemmaNode2EqualsNotReflexive()
    ensures var t := Node(1, [Of(2), Of(3)]);
      !Node2Equals(t, t, (x: int, y: int) => x == y)
  {
    var t := Node(1, [Of(2), Of(3)]);
    assert !Node2Equals(t.children[0], t.children[1], (x: int, y: int) => x == y);
  }

  /**
   * `equals1(b, valueEquals)` of the second draft, as written: equal root
   * values, then the children are compared with `array.equals1`, whose
   * callback compares each child of the receiver against `b` ITSELF.
   */
  function RoseEquals1<T>(a: Tree<T>, b: Tree<T>, eq: (T, T) -> bool): (r: bool)
    ensures r ==> eq(a.value, b.value) && |a.children| == |b.children|
    decreases a
  {
    && eq(a.value, b.value)
    && |a.children| == |b.children|
    && forall i :: 0 <= i < |a.children| ==> RoseEquals1(a.children[i], b, eq)
  }

  /** A root with one leaf child is not equal to itself under the second draft. */
  lemma LemmaRoseEquals1NotReflexive()
    ensures var t := Node(1, [Of(1)]);
      !RoseEquals1(t, t, (x: int, y: int) => x == y)
  {
    var t := Node(1, [Of(1)]);
    assert !RoseEquals1(t.children[0], t, (x: int, y: int) => x == y);
  }

  /** Evidently intended `equals1`: equal root values and children equal pairwise, recursively. */
  function Equals1<T>(a: Tree<T>, b: Tree<T>, eq: (T, T) -> bool): (r: bool)
    ensures r ==> eq(a.value, b.value) && |a.children| == |b.children|
    decreases a
  {
    && eq(a.value, b.value)
    && |a.children| == |b.children|
    && forall i :: 0 <= i < |a.children| ==> Equals1(a.children[i], b.children[i], eq)
  }

  /** With strict equality on the values, the intended `equals1` is tree equality. */
  lemma {:induction false} LemmaEquals1Strict<T>(a: Tree<T>, b: Tree<T>)
    ensures Equals1(a, b, (x, y) => x == y) <==> a == b
    decreases a
  {
    forall i | 0 <= i < |a.children| && i < |b.children|
      ensures Equals1(a.children[i], b.children[i], (x, y) => x == y) <==> a.children[i] == b.children[i]
    {
      LemmaEquals1Strict(a.children[i], b.children[i]);
    }
    if Equals1(a, b, (x, y) => x == y) {
      assert a.children == b.children;
    }
  }
}
