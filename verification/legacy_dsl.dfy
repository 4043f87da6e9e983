/**
 * The older draft of the test tree (`lib/node.js`, `lib/describe.js`): every
 * node carries its own name prefix, a `Describe` keeps its children and one
 * `before`/`after` hook, and `_getTests` walks the tree handing each `It` the
 * accumulated prefix, hook lists and timeout. The static `Describe.*`
 * functions drive the tree through a stack of focused `Describe`s, whose
 * first entry is never removed.
 */
module LegacyDsl {
  import opened Js
  import opened Doneable

  /** One static call: `Describe.describe`, `Describe.it`, `Describe.beforeEach`, ... */
  datatype Call =
    | Describe(name: string, body: seq<Call>)
    | It(name: string, def: Hook)
    | BeforeEach(def: Hook)
    | Before(def: Hook)
    | AfterEach(def: Hook)
    | After(def: Hook)
    | SetTimeout(ms: Timeout)

  /** A node's body: a `Describe`'s definition, or the function an `It` runs. */
  datatype Body = Defines(calls: seq<Call>) | Runs(hook: Hook)

  /** The properties `Node` defines: `_prefix`, `_name`, `_body` (`null` is None) and `_timeout`. */
  datatype Fields = Fields(prefix: seq<string>, name: string, body: Option<Body>, timeout: Timeout)

  /** A bare `Node`, a `Describe` (with `_before`, `_after`, `_children`), or an `It`. */
  datatype LNode =
    | Plain(fields: Fields)
    | Group(fields: Fields, before: Option<Hook>, after: Option<Hook>, children: seq<LNode>)
    | Case(fields: Fields)

  /** `new Node(prefix, name, body, timeout)`: a missing prefix is `[]`, the timeout is kept as given. */
  function NewFields(prefix: Option<seq<string>>, name: string, body: Option<Body>, timeout: Timeout): (r: Fields)
    ensures prefix.None? ==> r.prefix == []
    ensures prefix.Some? ==> r.prefix == prefix.value
    ensures r.name == name && r.body == body && r.timeout == timeout
  {
    Fields(prefix.GetOr([]), name, body, timeout)
  }

  /** `new Describe(prefix, name, body)`: no hooks, no children, no timeout. */
  function NewGroup(prefix: Option<seq<string>>, name: string, body: seq<Call>): (r: LNode)
    ensures r.Group? && r.before.None? && r.after.None? && r.children == []
    ensures r.fields == NewFields(prefix, name, Some(Defines(body)), TimeoutUndefined)
  {
    Group(NewFields(prefix, name, Some(Defines(body)), TimeoutUndefined), None, None, [])
  }

  /** `node.timeout(x)`: stores `x || 0` and returns the node. */
  function SetNodeTimeout(n: LNode, x: Timeout): (r: LNode)
    ensures TimeoutTruthy(x) ==> r.fields.timeout == x
    ensures !TimeoutTruthy(x) ==> r.fields.timeout == Millis(0)
    ensures r.fields.(timeout := n.fields.timeout) == n.fields && r == n.(fields := r.fields)
  {
    n.(fields := n.fields.(timeout := if TimeoutTruthy(x) then x else Millis(0)))
  }

  /** Reading `describe.before`: its setter assigns its parameter to itself, so the getter stays `null`. */
  function BeforeAccessor(n: LNode): (r: Option<Hook>)
    ensures r.None?
  {
    None
  }

  // Collecting tests
  // --------------------------------------------------------------------------

  /** The arguments of `_getTests`: name prefix, hook lists and inherited timeout. */
  datatype Ctx = Ctx(prefix: seq<string>, before: seq<Hook>, after: seq<Hook>, timeout: Timeout)

  /** `root._getTests()`: every argument missing. */
  const RootCtx := Ctx([], [], [], TimeoutUndefined)

  /** What a `Describe` hands its children: its name, its hooks, and its timeout unless it is falsy. */
  function Extend(n: LNode, ctx: Ctx): (r: Ctx)
    requires n.Group?
    ensures r.prefix == ctx.prefix + [n.fields.name]
    ensures n.before.None? ==> r.before == ctx.before
    ensures n.before.Some? ==> r.before == ctx.before + [n.before.value]
    ensures n.after.None? ==> r.after == ctx.after
    ensures n.after.Some? ==> r.after == ctx.after + [n.after.value]
    ensures TimeoutTruthy(n.fields.timeout) ==> r.timeout == n.fields.timeout
    ensures !TimeoutTruthy(n.fields.timeout) ==> r.timeout == ctx.timeout
  {
    Ctx(
      ctx.prefix + [n.fields.name],
      if n.before.Some? then ctx.before + [n.before.value] else ctx.before,
      if n.after.Some? then ctx.after + [n.after.value] else ctx.after,
      if TimeoutTruthy(n.fields.timeout) then n.fields.timeout else ctx.timeout)
  }

  /**
   * One `It` reached by `_getTests`, with the arguments its own `_getTests`
   * is called with (the `It` class of this draft is not part of the model).
   */
  datatype LTest = LTest(it: Fields, ctx: Ctx)

  const NotImplemented := Error("Node#_getTests must be implemented")

  /** The number of `It`s in a tree. */
  function CaseCount(n: LNode): nat
    decreases n, 1
  {
    match n
    case Plain(_) => 0
    case Case(_) => 1
    case Group(_, _, _, cs) => CaseCountOf(cs)
  }

  function CaseCountOf(ns: seq<LNode>): nat
    decreases ns, 0
  {
    if |ns| == 0 then 0 else CaseCount(ns[0]) + CaseCountOf(ns[1..])
  }

  /** The `It`s of a tree, in pre-order (child order at every `Describe`). */
  function Cases(n: LNode): seq<Fields>
    decreases n, 1
  {
    match n
    case Plain(_) => []
    case Case(f) => [f]
    case Group(_, _, _, cs) => CasesOf(cs)
  }

  function CasesOf(ns: seq<LNode>): seq<Fields>
    decreases ns, 0
  {
    if |ns| == 0 then [] else Cases(ns[0]) + CasesOf(ns[1..])
  }

  /** Two test lists that carry `xs` and `ys` in order, concatenated, carry `xs + ys`. */
  lemma LemmaCarriesAppend(first: seq<LTest>, rest: seq<LTest>, xs: seq<Fields>, ys: seq<Fields>)
    requires |first| == |xs| && forall i :: 0 <= i < |first| ==> first[i].it == xs[i]
    requires |rest| == |ys| && forall i :: 0 <= i < |rest| ==> rest[i].it == ys[i]
    ensures forall i :: 0 <= i < |first + rest| ==> (first + rest)[i].it == (xs + ys)[i]
  {
  }

  /** Every node of `gs` is a `Describe`. */
  predicate AllGroups(gs: seq<LNode>) {
    forall j :: 0 <= j < |gs| ==> gs[j].Group?
  }

  /**
   * The `Describe`s above each `It` of a tree, outermost first, listed in the
   * order of `Cases`: the tree itself when it is a `Describe`, then the
   * ancestors inside the child that holds the `It`.
   */
  function Ancestors(n: LNode): (r: seq<seq<LNode>>)
    ensures |r| == |Cases(n)|
    ensures forall i :: 0 <= i < |r| ==> AllGroups(r[i])
    ensures n.Case? ==> r == [[]]
    ensures n.Group? ==> forall i :: 0 <= i < |r| ==> |r[i]| > 0 && r[i][0] == n && r[i][1..] == AncestorsOf(n.children)[i]
    decreases n, 1
  {
    match n
    case Plain(_) => []
    case Case(_) => [[]]
    case Group(_, _, _, cs) => Under(n, AncestorsOf(cs))
  }

  function AncestorsOf(ns: seq<LNode>): (r: seq<seq<LNode>>)
    ensures |r| == |CasesOf(ns)|
    ensures forall i :: 0 <= i < |r| ==> AllGroups(r[i])
    decreases ns, 0
  {
    if |ns| == 0 then [] else Ancestors(ns[0]) + AncestorsOf(ns[1..])
  }

  /** Puts `g` in front of every list of `xss`. */
  function Under(g: LNode, xss: seq<seq<LNode>>): (r: seq<seq<LNode>>)
    ensures |r| == |xss|
    ensures forall i :: 0 <= i < |r| ==> |r[i]| > 0 && r[i][0] == g && r[i][1..] == xss[i]
  {
    if |xss| == 0 then [] else [[g] + xss[0]] + Under(g, xss[1..])
  }

  /** The names of `gs`, in order. */
  function Names(gs: seq<LNode>): seq<string> {
    if |gs| == 0 then [] else [gs[0].fields.name] + Names(gs[1..])
  }

  /** The `before` hooks `gs` have, in order. */
  function Befores(gs: seq<LNode>): seq<Hook>
    requires AllGroups(gs)
  {
    if |gs| == 0 then [] else (if gs[0].before.Some? then [gs[0].before.value] else []) + Befores(gs[1..])
  }

  /** The `after` hooks `gs` have, in order. */
  function Afters(gs: seq<LNode>): seq<Hook>
    requires AllGroups(gs)
  {
    if |gs| == 0 then [] else (if gs[0].after.Some? then [gs[0].after.value] else []) + Afters(gs[1..])
  }

  /** The timeout of the innermost node of `gs` whose timeout is truthy, or `d` when there is none. */
  function Innermost(gs: seq<LNode>, d: Timeout): Timeout {
    if |gs| == 0 then d
    else if TimeoutTruthy(gs[|gs| - 1].fields.timeout) then gs[|gs| - 1].fields.timeout
    else Innermost(gs[..|gs| - 1], d)
  }

  /** Looking from the outermost node, a truthy timeout there becomes the default of the rest. */
  lemma {:induction false} LemmaInnermostCons(g: LNode, rest: seq<LNode>, d: Timeout)
    ensures Innermost([g] + rest, d) == Innermost(rest, if TimeoutTruthy(g.fields.timeout) then g.fields.timeout else d)
    decreases |rest|
  {
    var gs := [g] + rest;
    if |rest| > 0 {
      assert gs[|gs| - 1] == rest[|rest| - 1];
      assert gs[..|gs| - 1] == [g] + rest[..|rest| - 1];
      LemmaInnermostCons(g, rest[..|rest| - 1], d);
    } else {
      assert gs[..|gs| - 1] == [];
    }
  }

  /**
   * The arguments an `It` below the `Describe`s `gs` is handed, when the
   * outermost of them is handed `ctx`: their names after the prefix, their
   * hooks after the hook lists, and the innermost truthy timeout.
   */
  function Along(ctx: Ctx, gs: seq<LNode>): (r: Ctx)
    requires AllGroups(gs)
    ensures r.prefix == ctx.prefix + Names(gs)
    ensures r.before == ctx.before + Befores(gs)
    ensures r.after == ctx.after + Afters(gs)
    ensures r.timeout == Innermost(gs, ctx.timeout)
    decreases |gs|
  {
    if |gs| == 0 then ctx
    else
      var r := Along(Extend(gs[0], ctx), gs[1..]);
      assert gs == [gs[0]] + gs[1..];
      LemmaInnermostCons(gs[0], gs[1..], ctx.timeout);
      r
  }

  /** Two test lists handed what `ctx` becomes along `xs` and `ys`, concatenated, are handed it along `xs + ys`. */
  lemma LemmaHandedAppend(ctx: Ctx, first: seq<LTest>, rest: seq<LTest>, xs: seq<seq<LNode>>, ys: seq<seq<LNode>>)
    requires forall i :: 0 <= i < |xs| ==> AllGroups(xs[i])
    requires forall i :: 0 <= i < |ys| ==> AllGroups(ys[i])
    requires |first| == |xs| && forall i :: 0 <= i < |first| ==> first[i].ctx == Along(ctx, xs[i])
    requires |rest| == |ys| && forall i :: 0 <= i < |rest| ==> rest[i].ctx == Along(ctx, ys[i])
    ensures forall i :: 0 <= i < |first + rest| ==> (first + rest)[i].ctx == Along(ctx, (xs + ys)[i])
  {
    forall i | 0 <= i < |first + rest|
      ensures (first + rest)[i].ctx == Along(ctx, (xs + ys)[i])
    {
      if i >= |first| {
        assert (first + rest)[i] == rest[i - |first|];
        assert (xs + ys)[i] == ys[i - |xs|];
      }
    }
  }

  /** A `Describe`'s tests, handed what `Extend` gives them along their own ancestors, are handed `ctx` along the `Describe`'s. */
  lemma LemmaHandedUnder(n: LNode, ctx: Ctx, tests: seq<LTest>)
    requires n.Group?
    requires |tests| == |AncestorsOf(n.children)|
    requires forall i :: 0 <= i < |tests| ==> tests[i].ctx == Along(Extend(n, ctx), AncestorsOf(n.children)[i])
    ensures forall i :: 0 <= i < |tests| ==> tests[i].ctx == Along(ctx, Ancestors(n)[i])
  {
    forall i | 0 <= i < |tests|
      ensures tests[i].ctx == Along(ctx, Ancestors(n)[i])
    {
      var gs := Ancestors(n)[i];
      assert gs[0] == n && gs[1..] == AncestorsOf(n.children)[i];
    }
  }

  /** Whether a bare `Node`, whose `_getTests` throws, sits in the tree. */
  predicate HasPlain(n: LNode)
    decreases n, 1
  {
    match n
    case Plain(_) => true
    case Case(_) => false
    case Group(_, _, _, cs) => HasPlainOf(cs)
  }

  predicate HasPlainOf(ns: seq<LNode>)
    decreases ns, 0
  {
    |ns| > 0 && (HasPlain(ns[0]) || HasPlainOf(ns[1..]))
  }

  /** `ctx` is where `inner` started: each list of `inner` extends the one of `ctx`. */
  predicate Within(ctx: Ctx, inner: Ctx) {
    ctx.prefix <= inner.prefix && ctx.before <= inner.before && ctx.after <= inner.after
  }

  /**
   * `_getTests(prefix, before, after, timeout)`: a bare `Node` throws; a
   * `Describe` extends the arguments and concatenates its children's tests
   * in child order. It succeeds exactly when no bare `Node` is in the tree,
   * yields one test per `It`, and only ever extends the lists it was given.
   */
  function GetTests(n: LNode, ctx: Ctx): (r: Result<seq<LTest>>)
    ensures r.Ok? <==> !HasPlain(n)
    ensures r.Throws? ==> r.error == NotImplemented
    ensures r.Ok? ==> |r.value| == CaseCount(n)
    ensures r.Ok? ==> |r.value| == |Cases(n)| && forall i :: 0 <= i < |r.value| ==> r.value[i].it == Cases(n)[i]
    ensures r.Ok? ==> forall i :: 0 <= i < |r.value| ==> Within(ctx, r.value[i].ctx)
    ensures r.Ok? ==> forall i :: 0 <= i < |r.value| ==> r.value[i].ctx == Along(ctx, Ancestors(n)[i])
    decreases n, 1
  {
    match n
    case Plain(_) => Throws(NotImplemented)
    case Case(f) => Ok([LTest(f, ctx)])
    case Group(_, _, _, cs) =>
      var r := GetTestsOf(cs, Extend(n, ctx));
      if r.Ok? then
        LemmaHandedUnder(n, ctx, r.value);
        assert forall i :: 0 <= i < |r.value| ==> Within(ctx, r.value[i].ctx) by {
          forall i | 0 <= i < |r.value|
            ensures Within(ctx, r.value[i].ctx)
          {
            LemmaWithinTrans(ctx, Extend(n, ctx), r.value[i].ctx);
          }
        }
        r
      else r
  }

  /** `children.reduce((tests, node) => tests.concat(node._getTests(...)), [])`. */
  function GetTestsOf(ns: seq<LNode>, ctx: Ctx): (r: Result<seq<LTest>>)
    ensures r.Ok? <==> !HasPlainOf(ns)
    ensures r.Throws? ==> r.error == NotImplemented
    ensures r.Ok? ==> |r.value| == CaseCountOf(ns)
    ensures r.Ok? ==> |r.value| == |CasesOf(ns)| && forall i :: 0 <= i < |r.value| ==> r.value[i].it == CasesOf(ns)[i]
    ensures r.Ok? ==> forall i :: 0 <= i < |r.value| ==> Within(ctx, r.value[i].ctx)
    ensures r.Ok? ==> forall i :: 0 <= i < |r.value| ==> r.value[i].ctx == Along(ctx, AncestorsOf(ns)[i])
    decreases ns, 0
  {
    if |ns| == 0 then Ok([])
    else
      match GetTests(ns[0], ctx)
      case Throws(e) => Throws(e)
      case Ok(first) =>
        match GetTestsOf(ns[1..], ctx)
        case Throws(e) => Throws(e)
        case Ok(rest) =>
          assert forall i :: 0 <= i < |rest| ==> (first + rest)[|first| + i] == rest[i];
          LemmaCarriesAppend(first, rest, Cases(ns[0]), CasesOf(ns[1..]));
          LemmaHandedAppend(ctx, first, rest, Ancestors(ns[0]), AncestorsOf(ns[1..]));
          Ok(first + rest)
  }

  lemma LemmaWithinTrans(a: Ctx, b: Ctx, c: Ctx)
    requires Within(a, b) && Within(b, c)
    ensures Within(a, c)
  {
  }

  /** Every child's prefix is its parent's prefix followed by the parent's name. */
  ghost predicate Coherent(n: LNode)
    decreases n
  {
    n.Group? ==>
      forall i :: 0 <= i < |n.children| ==>
        n.children[i].fields.prefix == n.fields.prefix + [n.fields.name] && Coherent(n.children[i])
  }

  /**
   * In a tree whose prefixes are coherent, the prefix `_getTests` accumulates
   * for an `It` is the prefix the `It` was built with.
   */
  lemma {:induction false} LemmaGetTestsPrefix(n: LNode, ctx: Ctx)
    requires Coherent(n) && ctx.prefix == n.fields.prefix
    requires GetTests(n, ctx).Ok?
    ensures forall i :: 0 <= i < |GetTests(n, ctx).value| ==>
      GetTests(n, ctx).value[i].ctx.prefix == GetTests(n, ctx).value[i].it.prefix
    decreases n, 1
  {
    if n.Group? {
      LemmaGetTestsPrefixOf(n.children, Extend(n, ctx), n.fields.prefix + [n.fields.name]);
    }
  }

  lemma {:induction false} LemmaGetTestsPrefixOf(ns: seq<LNode>, ctx: Ctx, prefix: seq<string>)
    requires forall i :: 0 <= i < |ns| ==> ns[i].fields.prefix == prefix && Coherent(ns[i])
    requires ctx.prefix == prefix
    requires GetTestsOf(ns, ctx).Ok?
    ensures forall i :: 0 <= i < |GetTestsOf(ns, ctx).value| ==>
      GetTestsOf(ns, ctx).value[i].ctx.prefix == GetTestsOf(ns, ctx).value[i].it.prefix
    decreases ns, 0
  {
    if |ns| > 0 {
      LemmaGetTestsPrefix(ns[0], ctx);
      LemmaGetTestsPrefixOf(ns[1..], ctx, prefix);
      var first: seq<LTest> := GetTests(ns[0], ctx).value;
      var rest: seq<LTest> := GetTestsOf(ns[1..], ctx).value;
      assert GetTestsOf(ns, ctx).value == first + rest;
      forall i | 0 <= i < |first + rest|
        ensures (first + rest)[i].ctx.prefix == (first + rest)[i].it.prefix
      {
        if i >= |first| {
          assert (first + rest)[i] == rest[i - |first|];
        }
      }
    }
  }

  // Rendering
  // --------------------------------------------------------------------------

  /** `k` copies of two spaces. */
  function Indent(k: nat): (r: string)
    ensures |r| == 2 * k
    ensures forall i :: 0 <= i < |r| ==> r[i] == ' '
  {
    if k == 0 then "" else "  " + Indent(k - 1)
  }

  /** `toString()`: two spaces per level (the prefix's length, plus one), then the name. */
  function ToString(n: LNode): (r: string)
    ensures |r| == 2 * (|n.fields.prefix| + 1) + |n.fields.name|
    ensures forall i :: 0 <= i < 2 * (|n.fields.prefix| + 1) ==> r[i] == ' '
    ensures r[2 * (|n.fields.prefix| + 1)..] == n.fields.name
  {
    Indent(|n.fields.prefix| + 1) + n.fields.name
  }

  // The static functions
  // --------------------------------------------------------------------------

  /** The names `Describe` itself ends up holding (its static functions). */
  datatype Static = DescribeFn | AfterEachFn | BeforeEachFn | ItFn | TimeoutFn

  /** The static assignments of `lib/describe.js`, in file order. */
  const DescribeStatics: seq<Assignment<Static>> := [
    Define("describe", DescribeFn),
    Alias("after", "afterEach"),
    Define("afterEach", AfterEachFn),
    Alias("before", "beforeEach"),
    Define("beforeEach", BeforeEachFn),
    Define("it", ItFn),
    Define("timeout", TimeoutFn)
  ]

  /** `Describe.after` and `Describe.before` copy their targets before those exist: both are `undefined`. */
  lemma LemmaStaticAliasesUndefined()
    ensures "after" !in Assign(map[], DescribeStatics)
    ensures "before" !in Assign(map[], DescribeStatics)
    ensures "afterEach" in Assign(map[], DescribeStatics) && "beforeEach" in Assign(map[], DescribeStatics)
  {
    var p := DescribeStatics;
    LemmaAliasTooEarly(map[], p[..1], "after", "afterEach", p[2..]);
    assert p[..1] + [Alias("after", "afterEach")] + p[2..] == p;
    LemmaAssignAppend(map[], p[..2], [p[2]]);
    assert p[..2] + [p[2]] == p[..3];
    assert "beforeEach" !in Assign(map[], p[..2]) by {
      LemmaAssignAppend(map[], p[..1], [p[1]]);
      assert p[..1] + [p[1]] == p[..2];
    }
    LemmaAssignAppend(map[], p[..3], [p[3]]);
    assert p[..3] + [p[3]] == p[..4];
    LemmaAliasTooEarly(map[], p[..3], "before", "beforeEach", p[4..]);
    assert p[..3] + [Alias("before", "beforeEach")] + p[4..] == p;
  }

  /** `currentPath`: the focused `Describe` first. */
  datatype LState = LState(path: seq<LNode>)

  const MustDescribeFirst := Error("You must call describe first")
  const AfterEachOnce := Error("You may only call Describe#afterEach once")
  const BeforeEachOnce := Error("You may only call Describe#beforeEach once")
  const BeforeUndefined := Error("Describe.before is not a function")
  const AfterUndefined := Error("Describe.after is not a function")
  /** The `TypeError` of calling an instance method the focused node lacks (only `Describe`s are ever focused). */
  function NoSuchMethod(m: string): Error {
    Error("describe." + m + " is not a function")
  }

  /** Every focused node is a `Describe` with coherent prefixes. */
  ghost predicate WellFormed(s: LState) {
    forall i :: 0 <= i < |s.path| ==> s.path[i].Group? && Coherent(s.path[i])
  }

  /** What a call does to the focused node: its prefix and name stay, and children are only appended. */
  ghost predicate Keeps(a: LNode, b: LNode) {
    && b.fields.prefix == a.fields.prefix
    && b.fields.name == a.fields.name
    && (a.Group? ==> b.Group? && |a.children| <= |b.children| && b.children[..|a.children|] == a.children)
  }

  /** `this._children.push(node)`. */
  function AddChild(n: LNode, c: LNode): (r: LNode)
    requires n.Group?
    ensures r.Group? && r.fields == n.fields && r.before == n.before && r.after == n.after
    ensures r.children == n.children + [c]
  {
    n.(children := n.children + [c])
  }

  /** Runs the calls in order, stopping at the first throw. */
  function Exec(s: LState, cmds: seq<Call>): (r: Result<LState>)
    ensures r.Ok? && |s.path| > 0 ==>
      |r.value.path| == |s.path| && r.value.path[1..] == s.path[1..] && Keeps(s.path[0], r.value.path[0])
    ensures r.Ok? && |s.path| == 0 ==> |r.value.path| <= 1
    ensures r.Ok? && WellFormed(s) ==> WellFormed(r.value)
    decreases cmds, 0
  {
    if |cmds| == 0 then Ok(s)
    else
      match Step(s, cmds[0])
      case Throws(e) => Throws(e)
      case Ok(s') => Exec(s', cmds[1..])
  }

  /** One static call. */
  function Step(s: LState, c: Call): (r: Result<LState>)
    ensures r.Ok? && |s.path| > 0 ==>
      |r.value.path| == |s.path| && r.value.path[1..] == s.path[1..] && Keeps(s.path[0], r.value.path[0])
    ensures r.Ok? && |s.path| == 0 ==> |r.value.path| <= 1
    ensures r.Ok? && WellFormed(s) ==> WellFormed(r.value)
    ensures c.Before? ==> r == Throws(BeforeUndefined)
    ensures c.After? ==> r == Throws(AfterUndefined)
    ensures |s.path| == 0 && (c.It? || c.BeforeEach? || c.AfterEach? || c.SetTimeout?) ==> r == Throws(MustDescribeFirst)
    ensures |s.path| > 0 && c.SetTimeout? ==> r == Ok(LState(s.path[0 := SetNodeTimeout(s.path[0], c.ms)]))
    ensures |s.path| > 0 && s.path[0].Group? && (c.It? || c.BeforeEach? || c.AfterEach?) ==>
      r == match OnFocused(s.path[0], c) case Throws(e) => Throws(e) case Ok(n) => Ok(LState(s.path[0 := n]))
    decreases c, 1
  {
    match c
    case Describe(name, body) =>
      if |s.path| == 0 then DescribeRoot(name, body) else DescribeChild(s, name, body)
    case Before(_) => Throws(BeforeUndefined)
    case After(_) => Throws(AfterUndefined)
    case SetTimeout(ms) =>
      // `timeout` is inherited from `Node`, so any focused node has it.
      if |s.path| == 0 then Throws(MustDescribeFirst)
      else Ok(LState(s.path[0 := SetNodeTimeout(s.path[0], ms)]))
    case _ =>
      if |s.path| == 0 then Throws(MustDescribeFirst)
      else if !s.path[0].Group? then Throws(NoSuchMethod(MethodName(c)))
      else
        match OnFocused(s.path[0], c)
        case Throws(e) => Throws(e)
        case Ok(n) => Ok(LState(s.path[0 := n]))
  }

  /** The instance method a static call forwards to. */
  function MethodName(c: Call): string {
    match c
    case Describe(_, _) => "describe"
    case It(_, _) => "it"
    case BeforeEach(_) => "beforeEach"
    case Before(_) => "before"
    case AfterEach(_) => "afterEach"
    case After(_) => "after"
    case SetTimeout(_) => "timeout"
  }

  /** The instance methods `it`, `beforeEach` and `afterEach` on the focused `Describe`. */
  function OnFocused(d: LNode, c: Call): (r: Result<LNode>)
    requires d.Group?
    requires c.It? || c.BeforeEach? || c.AfterEach?
    ensures r.Ok? ==> Keeps(d, r.value)
    ensures r.Ok? && Coherent(d) ==> Coherent(r.value)
    ensures c.It? ==> r == Ok(AddChild(d, Case(NewFields(Some(d.fields.prefix + [d.fields.name]), c.name, Some(Runs(c.def)), TimeoutUndefined))))
    ensures c.BeforeEach? ==> r == Ok(d.(before := Some(c.def)))
    ensures c.AfterEach? ==> (r.Ok? <==> d.after.None?)
    ensures c.AfterEach? && d.after.None? ==> r == Ok(d.(after := Some(c.def)))
    ensures c.AfterEach? && d.after.Some? ==> r == Throws(AfterEachOnce)
  {
    match c
    case It(name, h) =>
      var it := Case(NewFields(Some(d.fields.prefix + [d.fields.name]), name, Some(Runs(h)), TimeoutUndefined));
      Ok(AddChild(d, it))
    case BeforeEach(h) =>
      if BeforeAccessor(d).Some? then Throws(BeforeEachOnce) else Ok(d.(before := Some(h)))
    case AfterEach(h) =>
      if d.after.Some? then Throws(AfterEachOnce) else Ok(d.(after := Some(h)))
  }

  /**
   * `Describe.describe` with nothing focused: a new root is focused, its
   * definition runs, and the root is never unfocused.
   */
  function DescribeRoot(name: string, body: seq<Call>): (r: Result<LState>)
    ensures r.Ok? ==> |r.value.path| == 1 && r.value.path[0].Group?
    ensures r.Ok? ==> r.value.path[0].fields.prefix == [] && r.value.path[0].fields.name == name
    ensures r.Ok? ==> WellFormed(r.value)
    decreases Describe(name, body), 0
  {
    var root := NewGroup(None, name, body);
    Exec(LState([root]), body)
  }

  /**
   * `describe.describe(name, body)` on the focused `Describe`: the child gets
   * the parent's prefix and name as its prefix, is focused while its
   * definition runs, then unfocused. The child is pushed before its
   * definition runs; nothing but the child changes meanwhile, so appending
   * the finished child gives the same tree (`LemmaDescribeChildRuns`).
   */
  function DescribeChild(s: LState, name: string, body: seq<Call>): (r: Result<LState>)
    requires |s.path| > 0
    ensures r.Ok? ==> |r.value.path| == |s.path| && r.value.path[1..] == s.path[1..] && Keeps(s.path[0], r.value.path[0])
    ensures r.Ok? ==> s.path[0].Group? && |r.value.path[0].children| == |s.path[0].children| + 1
    ensures r.Ok? ==> Last(r.value.path[0].children).fields.name == name
    ensures r.Ok? ==> Last(r.value.path[0].children).fields.prefix == s.path[0].fields.prefix + [s.path[0].fields.name]
    ensures r.Ok? && WellFormed(s) ==> WellFormed(r.value)
    decreases Describe(name, body), 0
  {
    var parent := s.path[0];
    if !parent.Group? then Throws(NoSuchMethod("describe"))
    else
      var child := NewGroup(Some(parent.fields.prefix + [parent.fields.name]), name, body);
      assert ([child] + s.path)[1..] == s.path;
      match Exec(LState([child] + s.path), body)
      case Throws(e) => Throws(e)
      case Ok(after) =>
        var done := after.path[0];
        assert after.path[1..] == s.path;
        var s' := LState(s.path[0 := AddChild(parent, done)]);
        assert WellFormed(s) ==> WellFormed(s') by {
          if WellFormed(s) {
            assert Coherent(done);
            LemmaAddChildCoherent(parent, done);
          }
        }
        Ok(s')
  }

  function Last<T>(xs: seq<T>): T
    requires |xs| > 0
  {
    xs[|xs| - 1]
  }

  lemma LemmaAddChildCoherent(n: LNode, c: LNode)
    requires n.Group? && Coherent(n) && Coherent(c)
    requires c.fields.prefix == n.fields.prefix + [n.fields.name]
    ensures Coherent(AddChild(n, c))
  {
    var r := AddChild(n, c);
    forall i | 0 <= i < |r.children|
      ensures r.children[i].fields.prefix == r.fields.prefix + [r.fields.name] && Coherent(r.children[i])
    {
      if i < |n.children| {
        assert r.children[i] == n.children[i];
      }
    }
  }

  // Running a definition in context
  // --------------------------------------------------------------------------

  /** A result on a one-entry stack, with `rest` put back beneath it. */
  function Beneath(r: Result<LState>, rest: seq<LNode>): Result<LState> {
    match r
    case Throws(e) => Throws(e)
    case Ok(t) => Ok(LState(t.path + rest))
  }

  lemma LemmaUpdateHead(n: LNode, x: LNode, rest: seq<LNode>)
    ensures ([n] + rest)[0 := x] == [x] + rest
    ensures [n][0 := x] == [x]
  {
  }

  /**
   * The calls of a definition see only the focused `Describe`: what they do
   * does not depend on the nodes focused before it.
   */
  lemma {:induction false} LemmaExecFrame(n: LNode, rest: seq<LNode>, cmds: seq<Call>)
    ensures Exec(LState([n] + rest), cmds) == Beneath(Exec(LState([n]), cmds), rest)
    decreases cmds, 0
  {
    if |cmds| > 0 {
      LemmaStepFrame(n, rest, cmds[0]);
      match Step(LState([n]), cmds[0])
      case Throws(e) =>
      case Ok(t) =>
        var n' := t.path[0];
        assert t == LState([n']);
        LemmaExecFrame(n', rest, cmds[1..]);
    }
  }

  lemma {:induction false} LemmaStepFrame(n: LNode, rest: seq<LNode>, c: Call)
    ensures Step(LState([n] + rest), c) == Beneath(Step(LState([n]), c), rest)
    decreases c, 1
  {
    match c
    case Describe(name, body) =>
      LemmaDescribeChildFrame(n, rest, name, body);
    case Before(_) =>
    case After(_) =>
    case SetTimeout(ms) =>
      LemmaUpdateHead(n, SetNodeTimeout(n, ms), rest);
    case _ =>
      if n.Group? {
        match OnFocused(n, c)
        case Throws(e) =>
        case Ok(m) =>
          LemmaUpdateHead(n, m, rest);
      }
  }

  lemma {:induction false} LemmaDescribeChildFrame(n: LNode, rest: seq<LNode>, name: string, body: seq<Call>)
    ensures DescribeChild(LState([n] + rest), name, body) == Beneath(DescribeChild(LState([n]), name, body), rest)
    decreases Describe(name, body), 0
  {
    if n.Group? {
      var child := NewGroup(Some(n.fields.prefix + [n.fields.name]), name, body);
      LemmaExecFrame(child, [n] + rest, body);
      LemmaExecFrame(child, [n], body);
      match Exec(LState([child]), body)
      case Throws(e) =>
      case Ok(t) =>
        var p := t.path[0];
        assert t.path == [p];
        assert ([p] + ([n] + rest))[1..] == [n] + rest;
        assert ([p] + [n])[1..] == [n];
        LemmaUpdateHead(n, AddChild(n, p), rest);
    }
  }

  /**
   * `describe.describe(name, body)` runs the definition with the new child
   * focused and nothing else in view, and the parent gains the finished
   * child as its last child.
   */
  lemma LemmaDescribeChildRuns(s: LState, name: string, body: seq<Call>)
    requires |s.path| > 0 && s.path[0].Group?
    ensures var child := NewGroup(Some(s.path[0].fields.prefix + [s.path[0].fields.name]), name, body);
      DescribeChild(s, name, body) ==
        match Exec(LState([child]), body)
        case Throws(e) => Throws(e)
        case Ok(t) => Ok(LState(s.path[0 := AddChild(s.path[0], t.path[0])]))
  {
    var child := NewGroup(Some(s.path[0].fields.prefix + [s.path[0].fields.name]), name, body);
    LemmaExecFrame(child, s.path, body);
  }

  /** Running `a + b` runs `a`, then `b` from where `a` left off. */
  lemma {:induction false} LemmaExecAppend(s: LState, a: seq<Call>, b: seq<Call>)
    ensures Exec(s, a + b) == match Exec(s, a) case Throws(e) => Throws(e) case Ok(t) => Exec(t, b)
    decreases |a|
  {
    if |a| > 0 {
      assert (a + b)[0] == a[0] && (a + b)[1..] == a[1..] + b;
      match Step(s, a[0])
      case Throws(e) =>
      case Ok(t) =>
        LemmaExecAppend(t, a[1..], b);
    } else {
      assert a + b == b;
    }
  }

  /**
   * `Describe.describe` runs the root's definition with the root focused: an
   * `it` the definition ends with becomes the root's last child.
   */
  lemma LemmaRootRunsBody(name: string, pre: seq<Call>, x: string, h: Hook)
    requires Exec(LState([NewGroup(None, name, pre + [It(x, h)])]), pre).Ok?
    ensures DescribeRoot(name, pre + [It(x, h)]).Ok?
    ensures var root := DescribeRoot(name, pre + [It(x, h)]).value.path[0];
      |root.children| == |Exec(LState([NewGroup(None, name, pre + [It(x, h)])]), pre).value.path[0].children| + 1
      && Last(root.children) == Case(NewFields(Some([name]), x, Some(Runs(h)), TimeoutUndefined))
  {
    var body := pre + [It(x, h)];
    var s := LState([NewGroup(None, name, body)]);
    LemmaExecAppend(s, pre, [It(x, h)]);
    var t := Exec(s, pre).value;
    assert Exec(t, [It(x, h)]) == Step(t, It(x, h));
  }

  /**
   * The root is never unfocused: after a first top-level `describe`, a
   * second one becomes the root's last child rather than a second root.
   */
  lemma LemmaSecondRootNests(a: string, ba: seq<Call>, b: string, bb: seq<Call>)
    requires Exec(LState([]), [Describe(a, ba), Describe(b, bb)]).Ok?
    ensures var p := Exec(LState([]), [Describe(a, ba), Describe(b, bb)]).value.path;
      |p| == 1 && p[0].fields.name == a && |p[0].children| > 0
      && Last(p[0].children).fields.name == b && Last(p[0].children).fields.prefix == [a]
  {
    var cmds := [Describe(a, ba), Describe(b, bb)];
    var s1 := Step(LState([]), cmds[0]).value;
    assert cmds[1..] == [Describe(b, bb)];
    assert Exec(s1, cmds[1..]) == Step(s1, Describe(b, bb));
  }

  /** `beforeEach`'s guard never trips: a later hook silently replaces the earlier one. */
  lemma LemmaBeforeEachOverwrites(s: LState, h1: Hook, h2: Hook)
    requires |s.path| > 0 && s.path[0].Group?
    ensures Exec(s, [BeforeEach(h1), BeforeEach(h2)]).Ok?
    ensures Exec(s, [BeforeEach(h1), BeforeEach(h2)]).value.path[0].before == Some(h2)
  {
    var s1 := Step(s, BeforeEach(h1)).value;
    assert [BeforeEach(h1), BeforeEach(h2)][1..] == [BeforeEach(h2)];
    assert Exec(s1, [BeforeEach(h2)]) == Step(s1, BeforeEach(h2));
  }

  /** A second `afterEach` on the same `Describe` throws. */
  lemma LemmaAfterEachOnce(s: LState, h1: Hook, h2: Hook)
    requires |s.path| > 0 && s.path[0].Group? && s.path[0].after.None?
    ensures Exec(s, [AfterEach(h1), AfterEach(h2)]) == Throws(AfterEachOnce)
  {
    var s1 := Step(s, AfterEach(h1)).value;
    assert [AfterEach(h1), AfterEach(h2)][1..] == [AfterEach(h2)];
    assert Exec(s1, [AfterEach(h2)]) == Step(s1, AfterEach(h2));
  }
}
