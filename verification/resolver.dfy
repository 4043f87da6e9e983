/**
 * Turning a DSL tree into tests (`lib/test.js` `toTest`/`fromNode`/
 * `fromNodes`, `lib/test2.js` `pathToTest`/`Test.tests`): every root-to-leaf
 * path that ends at an `It` becomes one test, whose name prefix, timeout,
 * hook lists and body are read off the node values along the path.
 */
module Resolver {
  import opened Js
  import opened Doneable
  import Suite
  import RoseTree
  import Seqs

  type Entry<B> = Suite.Entry<B>
  type Node<B> = RoseTree.Tree<Suite.Entry<B>>

  /** What a test is built from: the `spec` record both resolvers fill in. */
  datatype Spec = Spec(
    prefix: seq<string>,
    name: Option<string>,
    timeout: Timeout,
    before: seq<Hook>,
    def: Option<Hook>,
    after: seq<Hook>)

  /** The `spec` literal both resolvers start from. */
  const Blank := Spec([], None, TimeoutNull, [], None, [])

  /** The `TypeError` of reading property `prop` of `subject`, which is `undefined` or `null`. */
  function CannotRead(prop: string, subject: string): Error {
    Error("Cannot read property '" + prop + "' of " + subject)
  }

  // Readings of one node value
  // --------------------------------------------------------------------------

  function TimeoutOf<B>(e: Entry<B>): Timeout {
    match e
    case Group(d) => d.timeout
    case Case(it) => it.timeout
    case Missing => TimeoutNull
  }

  /** The name a `Describe` adds to the prefix. */
  function GroupName<B>(e: Entry<B>): seq<string> {
    if e.Group? then [e.group.name] else []
  }

  /** Any node's name, as `pathToTest` collects them. */
  function AnyName<B>(e: Entry<B>): seq<string> {
    match e
    case Group(d) => [d.name]
    case Case(it) => [it.name]
    case Missing => []
  }

  function ItName<B>(e: Entry<B>): Option<string> {
    if e.Case? then Some(e.test.name) else None
  }

  function ItDef<B>(e: Entry<B>): Option<Hook> {
    if e.Case? then Some(e.test.def) else None
  }

  function Hooks(o: Option<Hook>): seq<Hook> {
    if o.Some? then [o.value] else []
  }

  /** A `Describe`'s `beforeEach` hook; an `It` has none. */
  function BeforeHook<B>(e: Entry<B>): seq<Hook> {
    if e.Group? then Hooks(e.group.beforeEach) else []
  }

  function AfterHook<B>(e: Entry<B>): seq<Hook> {
    if e.Group? then Hooks(e.group.afterEach) else []
  }

  /** `value !== null ? value : prev`. */
  function Later(prev: Timeout, t: Timeout): Timeout {
    if t != TimeoutNull then t else prev
  }

  /**
   * `r` is `f` of the last element along `xs` whose `f` is not `none`, or
   * `dflt` when there is none: the element closest to the leaf wins.
   */
  ghost predicate LastWins<X, Y>(xs: seq<X>, f: X -> Y, none: Y, dflt: Y, r: Y) {
    && ((forall i :: 0 <= i < |xs| ==> f(xs[i]) == none) ==> r == dflt)
    && (forall i :: 0 <= i < |xs| && f(xs[i]) != none && (forall k :: i < k < |xs| ==> f(xs[k]) == none) ==> r == f(xs[i]))
  }

  lemma LemmaLastWinsCons<X, Y>(xs: seq<X>, f: X -> Y, none: Y, dflt: Y, r: Y)
    requires |xs| > 0
    requires LastWins(xs[1..], f, none, if f(xs[0]) != none then f(xs[0]) else dflt, r)
    ensures LastWins(xs, f, none, dflt, r)
  {
    var tail := xs[1..];
    if forall i :: 0 <= i < |xs| ==> f(xs[i]) == none {
      assert forall j :: 0 <= j < |tail| ==> f(tail[j]) == none by {
        forall j | 0 <= j < |tail|
          ensures f(tail[j]) == none
        {
          assert tail[j] == xs[j + 1];
        }
      }
    }
    forall i | 0 <= i < |xs| && f(xs[i]) != none && (forall k :: i < k < |xs| ==> f(xs[k]) == none)
      ensures r == f(xs[i])
    {
      forall k | i <= k < |tail|
        ensures f(tail[k]) == none
      {
        assert tail[k] == xs[k + 1];
      }
      if i > 0 {
        assert tail[i - 1] == xs[i];
      }
    }
  }

  /** `f` is `none` on every element of `xs`. */
  lemma LemmaLastAt<X, Y>(xs: seq<X>, f: X -> Y, none: Y, dflt: Y, r: Y)
    requires |xs| > 0 && LastWins(xs, f, none, dflt, r) && f(xs[|xs| - 1]) != none
    ensures r == f(xs[|xs| - 1])
  {
  }

  lemma LemmaFlattenMapCons<T, U>(xs: seq<T>, f: T -> seq<U>)
    requires |xs| > 0
    ensures Seqs.Flatten(Seqs.Map(xs, f)) == f(xs[0]) + Seqs.Flatten(Seqs.Map(xs[1..], f))
  {
    assert Seqs.Map(xs, f)[1..] == Seqs.Map(xs[1..], f);
  }

  /** `p` holds on every element iff it holds on the head and on every element of the tail. */
  lemma LemmaAllCons<T>(xs: seq<T>, p: T -> bool)
    requires |xs| > 0
    ensures (forall i :: 0 <= i < |xs| ==> p(xs[i])) <==> p(xs[0]) && forall i :: 0 <= i < |xs| - 1 ==> p(xs[1..][i])
  {
    if p(xs[0]) && forall i :: 0 <= i < |xs| - 1 ==> p(xs[1..][i]) {
      forall i | 1 <= i < |xs|
        ensures p(xs[i])
      {
        assert xs[i] == xs[1..][i - 1];
      }
    }
  }

  /** No node value along the path is `undefined`. */
  predicate Defined<B>(values: seq<Entry<B>>) {
    forall i :: 0 <= i < |values| ==> !values[i].Missing?
  }

  lemma LemmaDefinedCons<B>(values: seq<Entry<B>>)
    requires |values| > 0
    ensures Defined(values) <==> !values[0].Missing? && Defined(values[1..])
  {
    if !values[0].Missing? && Defined(values[1..]) {
      forall i | 0 < i < |values|
        ensures !values[i].Missing?
      {
        assert values[i] == values[1..][i - 1];
      }
    }
  }

  // `toTest` (lib/test.js)
  // --------------------------------------------------------------------------

  /** One `path.forEach` iteration of `toTest`. */
  function Visit<B>(spec: Spec, e: Entry<B>): (r: Result<Spec>)
    ensures e.Missing? <==> r.Throws?
  {
    match e
    case Missing => Throws(CannotRead("getName", "undefined"))
    case Case(it) =>
      Ok(spec.(name := Some(it.name), timeout := Later(spec.timeout, it.timeout), def := Some(it.def)))
    case Group(d) =>
      Ok(spec.(
        prefix := spec.prefix + [d.name],
        timeout := Later(spec.timeout, d.timeout),
        before := spec.before + Hooks(d.beforeEach),
        after := spec.after + Hooks(d.afterEach)))
  }

  /**
   * `toTest` from a partly filled `spec`: it throws at the first `undefined`
   * node value, and otherwise the `Describe` names join the prefix in path
   * order (`LemmaToTestHooks` and `LemmaToTestLast` state the other fields).
   */
  function ToTestFrom<B>(spec: Spec, values: seq<Entry<B>>): (r: Result<Spec>)
    ensures r.Ok? <==> Defined(values)
    ensures r.Throws? ==> r.error == CannotRead("getName", "undefined")
    ensures r.Ok? ==> r.value.prefix == spec.prefix + Seqs.Flatten(Seqs.Map(values, GroupName))
    decreases |values|
  {
    if |values| == 0 then Ok(spec)
    else
      LemmaDefinedCons(values);
      match Visit(spec, values[0])
      case Throws(e) => Throws(e)
      case Ok(spec') =>
        var r := ToTestFrom(spec', values[1..]);
        LemmaFlattenMapCons(values, GroupName);
        r
  }

  /** The `Describe`s' hooks are appended root to leaf. */
  lemma {:induction false} LemmaToTestHooks<B>(spec: Spec, values: seq<Entry<B>>)
    requires Defined(values)
    ensures ToTestFrom(spec, values).value.before == spec.before + Seqs.Flatten(Seqs.Map(values, BeforeHook))
    ensures ToTestFrom(spec, values).value.after == spec.after + Seqs.Flatten(Seqs.Map(values, AfterHook))
    decreases |values|
  {
    if |values| > 0 {
      var spec' := Visit(spec, values[0]).value;
      assert ToTestFrom(spec, values) == ToTestFrom(spec', values[1..]) by {
        LemmaDefinedCons(values);
      }
      LemmaToTestHooks(spec', values[1..]);
      assert spec'.before == spec.before + BeforeHook(values[0]);
      assert spec'.after == spec.after + AfterHook(values[0]);
      LemmaFlattenMapCons(values, BeforeHook);
      LemmaFlattenMapCons(values, AfterHook);
      Seqs.LemmaAppendAssoc(spec.before, BeforeHook(values[0]), Seqs.Flatten(Seqs.Map(values[1..], BeforeHook)));
      Seqs.LemmaAppendAssoc(spec.after, AfterHook(values[0]), Seqs.Flatten(Seqs.Map(values[1..], AfterHook)));
    }
  }

  /** The last non-`null` timeout along the path wins. */
  lemma {:induction false} LemmaToTestTimeout<B>(spec: Spec, values: seq<Entry<B>>)
    requires Defined(values)
    ensures LastWins(values, TimeoutOf, TimeoutNull, spec.timeout, ToTestFrom(spec, values).value.timeout)
    decreases |values|
  {
    if |values| > 0 {
      LemmaDefinedCons(values);
      LemmaToTestTimeout(Visit(spec, values[0]).value, values[1..]);
      LemmaLastWinsCons(values, TimeoutOf, TimeoutNull, spec.timeout, ToTestFrom(spec, values).value.timeout);
    }
  }

  /** The last `It` along the path names the test. */
  lemma {:induction false} LemmaToTestName<B>(spec: Spec, values: seq<Entry<B>>)
    requires Defined(values)
    ensures LastWins(values, ItName, None, spec.name, ToTestFrom(spec, values).value.name)
    decreases |values|
  {
    if |values| > 0 {
      LemmaDefinedCons(values);
      LemmaToTestName(Visit(spec, values[0]).value, values[1..]);
      LemmaLastWinsCons(values, ItName, None, spec.name, ToTestFrom(spec, values).value.name);
    }
  }

  /** The last `It` along the path gives the test's body. */
  lemma {:induction false} LemmaToTestDef<B>(spec: Spec, values: seq<Entry<B>>)
    requires Defined(values)
    ensures LastWins(values, ItDef, None, spec.def, ToTestFrom(spec, values).value.def)
    decreases |values|
  {
    if |values| > 0 {
      LemmaDefinedCons(values);
      LemmaToTestDef(Visit(spec, values[0]).value, values[1..]);
      LemmaLastWinsCons(values, ItDef, None, spec.def, ToTestFrom(spec, values).value.def);
    }
  }

  /** `toTest(path)`, on the node values along the path. */
  function ToTest<B>(values: seq<Entry<B>>): (r: Result<Spec>)
    ensures r.Ok? <==> Defined(values)
    ensures r.Ok? ==> r.value.prefix == Seqs.Flatten(Seqs.Map(values, GroupName))
  {
    ToTestFrom(Blank, values)
  }

  // `pathToTest` (lib/test2.js)
  // --------------------------------------------------------------------------

  /** One `path.forEach` iteration of `pathToTest`; the prefix field collects every name. */
  function Visit2<B>(spec: Spec, e: Entry<B>): (r: Result<Spec>)
    ensures e.Missing? <==> r.Throws?
  {
    match e
    case Missing => Throws(CannotRead("_name", "undefined"))
    case Case(it) =>
      Ok(spec.(prefix := spec.prefix + [it.name], timeout := Later(spec.timeout, it.timeout), def := Some(it.def)))
    case Group(d) =>
      Ok(spec.(
        prefix := spec.prefix + [d.name],
        timeout := Later(spec.timeout, d.timeout),
        before := spec.before + Hooks(d.beforeEach),
        after := spec.after + Hooks(d.afterEach)))
  }

  function CollectFrom<B>(spec: Spec, values: seq<Entry<B>>): (r: Result<Spec>)
    ensures r.Ok? <==> Defined(values)
    ensures r.Throws? ==> r.error == CannotRead("_name", "undefined")
    ensures r.Ok? ==> r.value.prefix == spec.prefix + Seqs.Flatten(Seqs.Map(values, AnyName))
    ensures r.Ok? ==> r.value.name == spec.name
    decreases |values|
  {
    if |values| == 0 then Ok(spec)
    else
      LemmaDefinedCons(values);
      match Visit2(spec, values[0])
      case Throws(e) => Throws(e)
      case Ok(spec') =>
        var r := CollectFrom(spec', values[1..]);
        if r.Ok? then
          LemmaFlattenMapCons(values, AnyName);
          r
        else r
  }

  /** A test of `lib/test2.js`: an id and the same fields as a `Spec`. */
  datatype Test2 = Test2(id: int, spec: Spec)

  /**
   * `pathToTest(path, id)`: every node's name is collected; the last one is
   * the test's name and the others are its prefix. A non-number id is 1.
   */
  function PathToTest<B>(values: seq<Entry<B>>, id: Option<int>): (r: Result<Test2>)
    ensures r.Ok? <==> Defined(values)
    ensures r.Ok? ==> r.value.id == id.GetOr(1)
    ensures r.Ok? && |values| > 0 ==>
      && r.value.spec.name.Some?
      && r.value.spec.prefix + [r.value.spec.name.value] == Seqs.Flatten(Seqs.Map(values, AnyName))
  {
    match CollectFrom(Blank, values)
    case Throws(e) => Throws(e)
    case Ok(s) =>
      var names := s.prefix;
      if |names| == 0 then Ok(Test2(id.GetOr(1), s.(prefix := [], name := None)))
      else Ok(Test2(id.GetOr(1), s.(prefix := names[..|names| - 1], name := Some(names[|names| - 1]))))
  }

  // The two resolvers agree
  // --------------------------------------------------------------------------

  /** A path as the DSL builds it: `Describe`s, then an `It`. */
  predicate Proper<B>(values: seq<Entry<B>>) {
    && |values| > 0
    && (forall i :: 0 <= i < |values| - 1 ==> values[i].Group?)
    && values[|values| - 1].Case?
  }

  lemma {:induction false} LemmaProperNames<B>(values: seq<Entry<B>>)
    requires Proper(values)
    ensures Seqs.Flatten(Seqs.Map(values, AnyName)) == Seqs.Flatten(Seqs.Map(values, GroupName)) + [values[|values| - 1].test.name]
    decreases |values|
  {
    LemmaFlattenMapCons(values, AnyName);
    LemmaFlattenMapCons(values, GroupName);
    if |values| == 1 {
      assert Seqs.Map(values[1..], AnyName) == [];
      assert Seqs.Map(values[1..], GroupName) == [];
    } else {
      assert values[0].Group?;
      var tail := values[1..];
      forall i | 0 <= i < |tail| - 1
        ensures tail[i].Group?
      {
        assert tail[i] == values[i + 1];
      }
      LemmaProperNames(tail);
    }
  }

  /** The two folds compute timeout, hooks and body alike. */
  lemma {:induction false} LemmaFoldsAgree<B>(s1: Spec, s2: Spec, values: seq<Entry<B>>)
    requires Defined(values)
    requires s1.timeout == s2.timeout && s1.before == s2.before && s1.def == s2.def && s1.after == s2.after
    ensures ToTestFrom(s1, values).value.timeout == CollectFrom(s2, values).value.timeout
    ensures ToTestFrom(s1, values).value.before == CollectFrom(s2, values).value.before
    ensures ToTestFrom(s1, values).value.def == CollectFrom(s2, values).value.def
    ensures ToTestFrom(s1, values).value.after == CollectFrom(s2, values).value.after
    decreases |values|
  {
    if |values| > 0 {
      LemmaDefinedCons(values);
      LemmaFoldsAgree(Visit(s1, values[0]).value, Visit2(s2, values[0]).value, values[1..]);
    }
  }

  /** On a path the DSL can build, `toTest` and `pathToTest` yield the same test. */
  lemma LemmaResolversAgree<B>(values: seq<Entry<B>>, id: Option<int>)
    requires Proper(values) && Defined(values)
    ensures ToTest(values).Ok? && PathToTest(values, id).Ok?
    ensures PathToTest(values, id).value.spec == ToTest(values).value
    ensures ToTest(values).value.name == Some(values[|values| - 1].test.name)
  {
    LemmaProperNames(values);
    LemmaFoldsAgree(Blank, Blank, values);
    var r := ToTestFrom(Blank, values).value;
    LemmaToTestName(Blank, values);
    LemmaLastAt(values, ItName, None, None, r.name);
    var c := CollectFrom(Blank, values).value;
    var names := c.prefix;
    assert names[..|names| - 1] == r.prefix;
    var t := PathToTest(values, id).value.spec;
    assert t == c.(prefix := names[..|names| - 1], name := Some(names[|names| - 1]));
  }

  // From trees to tests
  // --------------------------------------------------------------------------

  /** The node values along a list of nodes. */
  function Values<B>(ns: seq<Node<B>>): (r: seq<Entry<B>>)
    ensures |r| == |ns| && forall i :: 0 <= i < |ns| ==> r[i] == ns[i].value
  {
    seq(|ns|, i requires 0 <= i < |ns| => ns[i].value)
  }

  /**
   * The walks both `filter`s keep: an array whose last node holds an `It`. A
   * childless root's `paths()` is the bare node, which has no `length`.
   */
  predicate EndsInIt<B>(w: RoseTree.Walk<Entry<B>>) {
    w.Path? && |w.nodes| > 0 && w.nodes[|w.nodes| - 1].value.Case?
  }

  /**
   * The walks `fromNode` turns into tests: every path that ends in an `It`,
   * as often as `paths()` lists it and in the same order, and no other.
   */
  function Kept<B>(t: Node<B>): (r: seq<RoseTree.Walk<Entry<B>>>)
    ensures forall i :: 0 <= i < |r| ==> EndsInIt(r[i])
    ensures Seqs.Subsequence(r, RoseTree.Paths(t))
    ensures forall i :: 0 <= i < |RoseTree.Paths(t)| && EndsInIt(RoseTree.Paths(t)[i]) ==> RoseTree.Paths(t)[i] in r
    ensures forall i :: 0 <= i < |RoseTree.Paths(t)| ==>
      multiset(r)[RoseTree.Paths(t)[i]] == if EndsInIt(RoseTree.Paths(t)[i]) then multiset(RoseTree.Paths(t))[RoseTree.Paths(t)[i]] else 0
  {
    Seqs.LemmaFilterCount(RoseTree.Paths(t), EndsInIt);
    Seqs.Filter(RoseTree.Paths(t), EndsInIt)
  }

  /** `.map(toTest)`; the first throw ends the map. */
  function ToTests<B>(ws: seq<RoseTree.Walk<Entry<B>>>): (r: Result<seq<Spec>>)
    requires forall i :: 0 <= i < |ws| ==> ws[i].Path?
    ensures r.Ok? <==> forall i :: 0 <= i < |ws| ==> ToTest(Values(ws[i].nodes)).Ok?
    ensures r.Ok? ==> |r.value| == |ws|
    ensures r.Ok? ==> forall i :: 0 <= i < |ws| ==> r.value[i] == ToTest(Values(ws[i].nodes)).value
    decreases |ws|
  {
    if |ws| == 0 then Ok([])
    else
      match ToTest(Values(ws[0].nodes))
      case Throws(e) => Throws(e)
      case Ok(t) =>
        var tail := ws[1..];
        match ToTests(tail)
        case Throws(e) =>
          LemmaAllCons(ws, (w: RoseTree.Walk<Entry<B>>) => w.Path? && ToTest(Values(w.nodes)).Ok?);
          Throws(e)
        case Ok(ts) =>
          LemmaAllCons(ws, (w: RoseTree.Walk<Entry<B>>) => w.Path? && ToTest(Values(w.nodes)).Ok?);
          assert forall i :: 1 <= i < |ws| ==> ([t] + ts)[i] == ToTest(Values(ws[i].nodes)).value by {
            forall i | 1 <= i < |ws|
              ensures ([t] + ts)[i] == ToTest(Values(ws[i].nodes)).value
            {
              assert ws[i] == tail[i - 1] && ([t] + ts)[i] == ts[i - 1];
            }
          }
          Ok([t] + ts)
  }

  /** `Test.fromNode(node)`: one test per root-to-leaf path ending at an `It`, in leaf order. */
  function FromNode<B>(t: Node<B>): (r: Result<seq<Spec>>)
    ensures r.Ok? <==> forall i :: 0 <= i < |Kept(t)| ==> ToTest(Values(Kept(t)[i].nodes)).Ok?
    ensures r.Ok? ==> |r.value| == |Kept(t)|
    ensures r.Ok? ==> forall i :: 0 <= i < |r.value| ==> ToTest(Values(Kept(t)[i].nodes)).Ok? && r.value[i] == ToTest(Values(Kept(t)[i].nodes)).value
  {
    ToTests(Kept(t))
  }

  /** `Test.fromNodes(nodes)`: the roots' tests, root after root; a missing list is `[]`. */
  function FromNodes<B>(nodes: Option<seq<Node<B>>>): (r: Result<seq<Spec>>)
    ensures nodes.None? ==> r == Ok([])
  {
    FromNodesOf(nodes.GetOr([]))
  }

  /** A root's tests, or none when it throws. */
  function TestsOf<B>(t: Node<B>): seq<Spec> {
    if FromNode(t).Ok? then FromNode(t).value else []
  }

  function FromNodesOf<B>(ns: seq<Node<B>>): (r: Result<seq<Spec>>)
    ensures r.Ok? <==> forall i :: 0 <= i < |ns| ==> FromNode(ns[i]).Ok?
    ensures r.Ok? ==> r.value == Seqs.Flatten(Seqs.Map(ns, TestsOf))
    decreases |ns|
  {
    if |ns| == 0 then Ok([])
    else
      match FromNode(ns[0])
      case Throws(e) => Throws(e)
      case Ok(first) =>
        match FromNodesOf(ns[1..])
        case Throws(e) =>
          LemmaAllCons(ns, (t: Node<B>) => FromNode(t).Ok?);
          Throws(e)
        case Ok(rest) =>
          LemmaAllCons(ns, (t: Node<B>) => FromNode(t).Ok?);
          assert TestsOf(ns[0]) == first;
          assert Seqs.Flatten(Seqs.Map(ns[1..], TestsOf)) == rest;
          assert Seqs.Flatten(Seqs.Map(ns, TestsOf)) == TestsOf(ns[0]) + Seqs.Flatten(Seqs.Map(ns[1..], TestsOf)) by {
            LemmaFlattenMapCons(ns, TestsOf);
          }
          Ok(first + rest)
  }

  /** `Test.tests(node)`: like `fromNode`, with `pathToTest`; `map`'s index argument becomes the id. */
  function Tests<B>(t: Node<B>): (r: Result<seq<Test2>>)
    ensures r.Ok? <==> forall i :: 0 <= i < |Kept(t)| ==> Defined(Values(Kept(t)[i].nodes))
    ensures r.Ok? ==> |r.value| == |Kept(t)|
    ensures r.Ok? ==> forall i :: 0 <= i < |r.value| ==> r.value[i].id == i
    ensures r.Ok? ==> forall i :: 0 <= i < |r.value| ==> PathToTest(Values(Kept(t)[i].nodes), Some(i)).Ok? && r.value[i] == PathToTest(Values(Kept(t)[i].nodes), Some(i)).value
  {
    TestsFrom(Kept(t), 0)
  }

  function TestsFrom<B>(ws: seq<RoseTree.Walk<Entry<B>>>, first: nat): (r: Result<seq<Test2>>)
    requires forall i :: 0 <= i < |ws| ==> ws[i].Path?
    ensures r.Ok? <==> forall i :: 0 <= i < |ws| ==> Defined(Values(ws[i].nodes))
    ensures r.Ok? ==> |r.value| == |ws|
    ensures r.Ok? ==> forall i :: 0 <= i < |ws| ==> r.value[i] == PathToTest(Values(ws[i].nodes), Some(first + i)).value
    ensures r.Ok? ==> forall i :: 0 <= i < |ws| ==> r.value[i].id == first + i
    decreases |ws|
  {
    if |ws| == 0 then Ok([])
    else
      match PathToTest(Values(ws[0].nodes), Some(first))
      case Throws(e) => Throws(e)
      case Ok(t) =>
        match TestsFrom(ws[1..], first + 1)
        case Throws(e) =>
          LemmaAllCons(ws, (w: RoseTree.Walk<Entry<B>>) => w.Path? && Defined(Values(w.nodes)));
          Throws(e)
        case Ok(ts) =>
          LemmaAllCons(ws, (w: RoseTree.Walk<Entry<B>>) => w.Path? && Defined(Values(w.nodes)));
          LemmaTestsFromCons(ws, first, t, ts);
          Ok([t] + ts)
  }

  /** One step of `TestsFrom`: the head's test, then the tail's tests numbered from the next id. */
  lemma LemmaTestsFromCons<B>(ws: seq<RoseTree.Walk<Entry<B>>>, first: nat, t: Test2, ts: seq<Test2>)
    requires |ws| > 0 && forall i :: 0 <= i < |ws| ==> ws[i].Path?
    requires PathToTest(Values(ws[0].nodes), Some(first)) == Ok(t)
    requires forall i :: 0 <= i < |ws| ==> Defined(Values(ws[i].nodes))
    requires forall i :: 0 <= i < |ws| - 1 ==> Defined(Values(ws[1..][i].nodes))
    requires |ts| == |ws| - 1
    requires forall i :: 0 <= i < |ws| - 1 ==> ts[i] == PathToTest(Values(ws[1..][i].nodes), Some(first + 1 + i)).value
    requires forall i :: 0 <= i < |ws| - 1 ==> ts[i].id == first + 1 + i
    ensures forall i :: 0 <= i < |ws| ==> ([t] + ts)[i] == PathToTest(Values(ws[i].nodes), Some(first + i)).value
    ensures forall i :: 0 <= i < |ws| ==> ([t] + ts)[i].id == first + i
  {
    forall i | 1 <= i < |ws|
      ensures ([t] + ts)[i] == PathToTest(Values(ws[i].nodes), Some(first + i)).value
      ensures ([t] + ts)[i].id == first + i
    {
      var j := i - 1;
      assert ([t] + ts)[i] == ts[j];
      assert ts[j] == PathToTest(Values(ws[1..][j].nodes), Some(first + 1 + j)).value;
      assert ws[1..][j] == ws[i] && first + 1 + j == first + i;
    }
  }

  /** `fullTitle()` of either draft: prefix and name joined with single spaces (`undefined` prints as nothing). */
  function FullTitle(prefix: seq<string>, name: Option<string>): (r: string)
    ensures |prefix| == 0 ==> r == name.GetOr("")
    ensures |prefix| > 0 ==> r == Join(prefix, " ") + " " + name.GetOr("")
  {
    var r := Join(prefix + [name.GetOr("")], " ");
    if |prefix| > 0 then
      LemmaJoinAppend(prefix, [name.GetOr("")], " ");
      r
    else
      assert prefix + [name.GetOr("")] == [name.GetOr("")];
      r
  }
}
