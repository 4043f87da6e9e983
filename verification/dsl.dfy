/**
 * The test-definition DSL of `lib/dsl.js`. A test file is a list of calls to
 * `describe`, `it`, `beforeEach`/`before`, `afterEach`/`after` and
 * `timeout`; a `describe` call's definition is itself such a list. The calls
 * build rose trees of `Describe` and `It` values through a stack of focused
 * nodes (`path`, top first) and collect the finished top-level trees in
 * `topLevelDescribes`.
 *
 * A throw ends the whole program (nothing in the DSL catches), so a run is a
 * `Result` of the final state.
 */
module Dsl {
  import opened Js
  import opened Doneable
  import Suite
  import RoseTree

  /** One DSL call. `before`/`after` are the hoisted `beforeEach`/`afterEach`. */
  datatype Command =
    | Describe(name: string, body: seq<Command>)
    | It(name: string, def: Hook)
    | BeforeEach(def: Hook)
    | Before(def: Hook)
    | AfterEach(def: Hook)
    | After(def: Hook)
    | SetTimeout(ms: Timeout)

  type Entry = Suite.Entry<seq<Command>>
  type Node = RoseTree.Tree<Entry>

  /** The module's two arrays: the focus stack (`path[0]` is focused) and `topLevelDescribes`. */
  datatype State = State(path: seq<Node>, top: seq<Node>)

  const Start := State([], [])

  const ItOutside := Error("`it` must be called inside `describe`")
  const BeforeEachOutside := Error("`beforeEach` must be called inside `describe`")
  const AfterEachOutside := Error("`afterEach` must be called in inside `describe`")
  const TimeoutOutside := Error("`timeout` must be called inside `describe` or `it`")
  /** The `TypeError` of calling `timeout` on the `undefined` an `It`'s `timeout` left behind. */
  const TimeoutOfUndefined := Error("Cannot read property 'timeout' of undefined")

  /** Every focused node holds a `Describe`. */
  ghost predicate WellFormed(s: State) {
    forall i :: 0 <= i < |s.path| ==> s.path[i].value.Group?
  }

  /**
   * What a call does to the focused node, when it holds a `Describe`: the
   * `Describe` keeps its name and definition, and children are only appended.
   */
  ghost predicate Keeps(a: Node, b: Node) {
    && |a.children| <= |b.children|
    && b.children[..|a.children|] == a.children
    && (a.value.Group? ==>
          b.value.Group? && b.value.group.name == a.value.group.name && b.value.group.def == a.value.group.def)
  }

  /** `refocus(new Node(v, node._children))`: replace the focused node's value only. */
  function Refocus(s: State, v: Entry): (r: State)
    requires |s.path| > 0
    ensures |r.path| == |s.path| && r.path[1..] == s.path[1..] && r.top == s.top
    ensures r.path[0].value == v && r.path[0].children == s.path[0].children
  {
    s.(path := s.path[0 := RoseTree.Node(v, s.path[0].children)])
  }

  /** The node `unfocus()` hands back: its `Describe` has now run. */
  function Finish(n: Node): (r: Node)
    ensures r.children == n.children
    ensures n.value.Group? ==> r.value == Suite.Group(n.value.group.(didRun := true))
    ensures !n.value.Group? ==> r == n
  {
    if n.value.Group? then RoseTree.Node(Suite.Group(Suite.RunDescribe(n.value.group).0), n.children)
    else n
  }

  /**
   * Runs a list of calls in order, stopping at the first throw. On success
   * the stack has its old depth, and everything below the focused node,
   * like `topLevelDescribes` when something is focused, is untouched.
   */
  function Exec(s: State, cmds: seq<Command>): (r: Result<State>)
    ensures r.Ok? ==> |r.value.path| == |s.path|
    ensures r.Ok? && |s.path| > 0 ==> r.value.path[1..] == s.path[1..] && r.value.top == s.top
    ensures r.Ok? && WellFormed(s) ==> WellFormed(r.value)
    ensures r.Ok? && |s.path| > 0 ==> Keeps(s.path[0], r.value.path[0])
    decreases cmds, 0
  {
    if |cmds| == 0 then Ok(s)
    else
      match Step(s, cmds[0])
      case Throws(e) => Throws(e)
      case Ok(s') => Exec(s', cmds[1..])
  }

  /** One DSL call. */
  function Step(s: State, c: Command): (r: Result<State>)
    ensures r.Ok? ==> |r.value.path| == |s.path|
    ensures r.Ok? && |s.path| > 0 ==> r.value.path[1..] == s.path[1..] && r.value.top == s.top
    ensures r.Ok? && WellFormed(s) ==> WellFormed(r.value)
    ensures r.Ok? && |s.path| > 0 ==> Keeps(s.path[0], r.value.path[0])
    decreases c, 1
  {
    match c
    case Describe(name, body) => DescribeStep(s, name, body)
    case It(name, h) =>
      if |s.path| == 0 then Throws(ItOutside)
      else
        var leaf := RoseTree.Of(Suite.Case(Suite.NewIt(name, h)));
        Ok(s.(path := s.path[0 := RoseTree.InsertRight(s.path[0], leaf)]))
    case BeforeEach(h) => AddBeforeEach(s, h)
    case Before(h) => AddBeforeEach(s, h)
    case AfterEach(h) => AddAfterEach(s, h)
    case After(h) => AddAfterEach(s, h)
    case SetTimeout(ms) => SetTimeoutStep(s, ms)
  }

  /**
   * `describe(name, def)`: push a node holding a new `Describe`, run the
   * definition, pop the node; then append it as the last child of the node
   * that was focused before, or, when there was none, to `topLevelDescribes`.
   */
  function DescribeStep(s: State, name: string, body: seq<Command>): (r: Result<State>)
    ensures r.Ok? ==> |r.value.path| == |s.path|
    ensures r.Ok? && |s.path| > 0 ==> r.value.path[1..] == s.path[1..] && r.value.top == s.top
    ensures r.Ok? && WellFormed(s) ==> WellFormed(r.value)
    ensures r.Ok? && |s.path| > 0 ==> Keeps(s.path[0], r.value.path[0])
    decreases Describe(name, body), 0
  {
    var d := Suite.NewDescribe(name, body);
    var inner := State([RoseTree.Of(Suite.Group(d))] + s.path, s.top);
    assert inner.path[1..] == s.path;
    // `run()` invokes the definition: the `Describe` is new, so it has not run.
    var (_, invoked) := Suite.RunDescribe(d);
    var ran := if invoked then Exec(inner, body) else Ok(inner);
    match ran
    case Throws(e) => Throws(e)
    case Ok(after) =>
      var newNode := Finish(after.path[0]);
      var rest := after.path[1..];
      if |s.path| > 0 then
        Ok(State(rest[0 := RoseTree.InsertRight(s.path[0], newNode)], after.top))
      else
        Ok(State(rest, after.top + [newNode]))
  }

  /** `beforeEach(doneable)` on the focused node, which must hold a `Describe`. */
  function AddBeforeEach(s: State, h: Hook): (r: Result<State>)
    ensures |s.path| == 0 || !s.path[0].value.Group? ==> r == Throws(BeforeEachOutside)
    ensures r.Ok? ==> |s.path| > 0 && r.value == Refocus(s, Suite.Group(s.path[0].value.group.(beforeEach := Some(h))))
  {
    if |s.path| > 0 && s.path[0].value.Group? then
      match Suite.BeforeEach(s.path[0].value.group, h)
      case Throws(e) => Throws(e)
      case Ok(d) => Ok(Refocus(s, Suite.Group(d)))
    else Throws(BeforeEachOutside)
  }

  /** `afterEach(doneable)` on the focused node, which must hold a `Describe`. */
  function AddAfterEach(s: State, h: Hook): (r: Result<State>)
    ensures |s.path| == 0 || !s.path[0].value.Group? ==> r == Throws(AfterEachOutside)
    ensures r.Ok? ==> |s.path| > 0 && r.value == Refocus(s, Suite.Group(s.path[0].value.group.(afterEach := Some(h))))
  {
    if |s.path| > 0 && s.path[0].value.Group? then
      match Suite.AfterEach(s.path[0].value.group, h)
      case Throws(e) => Throws(e)
      case Ok(d) => Ok(Refocus(s, Suite.Group(d)))
    else Throws(AfterEachOutside)
  }

  /**
   * `timeout(ms)` on the focused node: a `Describe` returns itself, an `It`
   * returns `undefined`, which becomes the node's value.
   */
  function SetTimeoutStep(s: State, ms: Timeout): (r: Result<State>)
    ensures |s.path| == 0 ==> r == Throws(TimeoutOutside)
    ensures |s.path| > 0 && s.path[0].value.Group? ==>
      r == Ok(Refocus(s, Suite.Group(s.path[0].value.group.(timeout := ms))))
  {
    if |s.path| == 0 then Throws(TimeoutOutside)
    else
      match s.path[0].value
      case Group(d) => Ok(Refocus(s, Suite.Group(Suite.DescribeSetTimeout(d, ms))))
      case Case(it) => Ok(Refocus(s, Suite.AsEntry(Suite.ItSetTimeout(it, ms).1)))
      case Missing => Throws(TimeoutOfUndefined)
  }

  // Context independence
  // --------------------------------------------------------------------------

  /** A run that started with `[n]` as the stack, re-seated on the deeper stack `[n] + rest`. */
  function Reframe(r: Result<State>, rest: seq<Node>, top: seq<Node>): Result<State> {
    match r
    case Throws(e) => Throws(e)
    case Ok(st) => Ok(State(st.path + rest, top))
  }

  lemma LemmaUpdateHead(n: Node, x: Node, rest: seq<Node>)
    ensures ([n] + rest)[0 := x] == [x] + rest
    ensures [n][0 := x] == [x]
  {
  }

  /**
   * The calls inside a `describe` see only the focused node: what they do
   * does not depend on the nodes below it or on `topLevelDescribes`.
   */
  lemma {:induction false} LemmaExecFrame(n: Node, rest: seq<Node>, top: seq<Node>, cmds: seq<Command>)
    ensures Exec(State([n] + rest, top), cmds) == Reframe(Exec(State([n], []), cmds), rest, top)
    decreases cmds, 0
  {
    if |cmds| > 0 {
      LemmaStepFrame(n, rest, top, cmds[0]);
      match Step(State([n], []), cmds[0])
      case Throws(e) =>
      case Ok(st) =>
        var n' := st.path[0];
        assert st == State([n'], []);
        LemmaExecFrame(n', rest, top, cmds[1..]);
    }
  }

  lemma {:induction false} LemmaStepFrame(n: Node, rest: seq<Node>, top: seq<Node>, c: Command)
    ensures Step(State([n] + rest, top), c) == Reframe(Step(State([n], []), c), rest, top)
    decreases c, 1
  {
    match c
    case Describe(name, body) =>
      LemmaDescribeFrame(n, rest, top, name, body);
    case It(name, h) =>
      LemmaUpdateHead(n, RoseTree.InsertRight(n, RoseTree.Of(Suite.Case(Suite.NewIt(name, h)))), rest);
    case BeforeEach(h) =>
      if n.value.Group? {
        LemmaUpdateHead(n, RoseTree.Node(Suite.Group(n.value.group.(beforeEach := Some(h))), n.children), rest);
      }
    case Before(h) =>
      if n.value.Group? {
        LemmaUpdateHead(n, RoseTree.Node(Suite.Group(n.value.group.(beforeEach := Some(h))), n.children), rest);
      }
    case AfterEach(h) =>
      if n.value.Group? {
        LemmaUpdateHead(n, RoseTree.Node(Suite.Group(n.value.group.(afterEach := Some(h))), n.children), rest);
      }
    case After(h) =>
      if n.value.Group? {
        LemmaUpdateHead(n, RoseTree.Node(Suite.Group(n.value.group.(afterEach := Some(h))), n.children), rest);
      }
    case SetTimeout(ms) =>
      match n.value
      case Group(d) =>
        LemmaUpdateHead(n, RoseTree.Node(Suite.Group(d.(timeout := ms)), n.children), rest);
      case Case(it) =>
        LemmaUpdateHead(n, RoseTree.Node(Suite.Missing, n.children), rest);
      case Missing =>
  }

  lemma {:induction false} LemmaDescribeFrame(n: Node, rest: seq<Node>, top: seq<Node>, name: string, body: seq<Command>)
    ensures DescribeStep(State([n] + rest, top), name, body) == Reframe(DescribeStep(State([n], []), name, body), rest, top)
    decreases Describe(name, body), 0
  {
    var g := RoseTree.Of(Suite.Group(Suite.NewDescribe(name, body)));
    var big := State([g] + ([n] + rest), top);
    var small := State([g] + [n], []);
    LemmaExecFrame(g, [n] + rest, top, body);
    LemmaExecFrame(g, [n], [], body);
    match Exec(State([g], []), body)
    case Throws(e) =>
      assert Exec(big, body).Throws? && Exec(small, body).Throws?;
    case Ok(st) =>
      var p := st.path[0];
      assert st.path == [p];
      var t := RoseTree.InsertRight(n, Finish(p));
      assert Exec(big, body) == Ok(State([p] + ([n] + rest), top));
      assert Exec(small, body) == Ok(State([p] + [n], []));
      assert ([p] + ([n] + rest))[1..] == [n] + rest;
      assert ([p] + [n])[1..] == [n];
      LemmaUpdateHead(n, t, rest);
      assert DescribeStep(State([n] + rest, top), name, body) == Ok(State([t] + rest, top));
      assert DescribeStep(State([n], []), name, body) == Ok(State([t], []));
  }

  /** The finished tree `describe(name, body)` builds, run with nothing else focused. */
  function Subtree(name: string, body: seq<Command>): (r: Result<Node>)
    ensures r.Ok? ==> r.value.value.Group?
    ensures r.Ok? ==> r.value.value.group.name == name && r.value.value.group.def == body
    ensures r.Ok? ==> r.value.value.group.didRun
  {
    var g := RoseTree.Of(Suite.Group(Suite.NewDescribe(name, body)));
    match Exec(State([g], []), body)
    case Throws(e) => Throws(e)
    case Ok(st) => Ok(Finish(st.path[0]))
  }

  /** Where a finished tree goes: under the focused node, last, or else at the end of `topLevelDescribes`. */
  function Attach(s: State, t: Node): (r: State)
    ensures |r.path| == |s.path|
    ensures |s.path| > 0 ==> r.top == s.top && r.path[1..] == s.path[1..]
    ensures |s.path| > 0 ==> r.path[0].value == s.path[0].value && r.path[0].children == s.path[0].children + [t]
    ensures |s.path| == 0 ==> r.top == s.top + [t]
  {
    if |s.path| > 0 then State(s.path[0 := RoseTree.InsertRight(s.path[0], t)], s.top)
    else State(s.path, s.top + [t])
  }

  function AttachResult(s: State, t: Result<Node>): Result<State> {
    match t
    case Throws(e) => Throws(e)
    case Ok(n) => Ok(Attach(s, n))
  }

  /**
   * `describe(name, body)` builds the same tree wherever it is called, and
   * attaches it exactly once: as the focused node's new last child, or, at
   * the top level, as the new last entry of `topLevelDescribes`.
   */
  lemma LemmaDescribeStep(s: State, name: string, body: seq<Command>)
    ensures Step(s, Describe(name, body)) == AttachResult(s, Subtree(name, body))
  {
    var g := RoseTree.Of(Suite.Group(Suite.NewDescribe(name, body)));
    LemmaExecFrame(g, s.path, s.top, body);
    match Exec(State([g], []), body)
    case Throws(e) =>
    case Ok(st) =>
      var p := st.path[0];
      assert st.path == [p];
      assert ([p] + s.path)[1..] == s.path;
  }

  // Calls in context
  // --------------------------------------------------------------------------

  /** `it` throws with nothing focused; otherwise its node becomes the focused node's last child. */
  lemma LemmaItStep(s: State, name: string, h: Hook)
    ensures |s.path| == 0 ==> Step(s, It(name, h)) == Throws(ItOutside)
    ensures |s.path| > 0 ==> Step(s, It(name, h)) == Ok(Attach(s, RoseTree.Of(Suite.Case(Suite.NewIt(name, h)))))
  {
  }

  /** A second `beforeEach` (or `before`) on the same `describe` throws instead of replacing the first. */
  lemma LemmaBeforeEachTwice(s: State, h1: Hook, h2: Hook)
    requires Step(s, BeforeEach(h1)).Ok?
    ensures Step(Step(s, BeforeEach(h1)).value, BeforeEach(h2)) == Throws(Suite.ThenIsNotAFunction("beforeEach"))
    ensures Step(Step(s, BeforeEach(h1)).value, Before(h2)) == Throws(Suite.ThenIsNotAFunction("beforeEach"))
  {
  }

  /** A second `afterEach` (or `after`) on the same `describe` throws instead of replacing the first. */
  lemma LemmaAfterEachTwice(s: State, h1: Hook, h2: Hook)
    requires Step(s, AfterEach(h1)).Ok?
    ensures Step(Step(s, AfterEach(h1)).value, AfterEach(h2)) == Throws(Suite.ThenIsNotAFunction("afterEach"))
    ensures Step(Step(s, AfterEach(h1)).value, After(h2)) == Throws(Suite.ThenIsNotAFunction("afterEach"))
  {
  }

  /**
   * At the top level only `describe` succeeds, and a test file that loads
   * adds exactly one tree to `topLevelDescribes` per top-level `describe`,
   * after the ones already there.
   */
  lemma {:induction false} LemmaTopLevel(s: State, cmds: seq<Command>)
    requires |s.path| == 0
    requires Exec(s, cmds).Ok?
    ensures forall i :: 0 <= i < |cmds| ==> cmds[i].Describe?
    ensures |Exec(s, cmds).value.top| == |s.top| + |cmds|
    ensures Exec(s, cmds).value.top[..|s.top|] == s.top
    decreases |cmds|
  {
    if |cmds| > 0 {
      var c := cmds[0];
      match c
      case Describe(name, body) =>
        LemmaDescribeStep(s, name, body);
        var s' := Step(s, c).value;
        LemmaTopLevel(s', cmds[1..]);
        forall i | 0 <= i < |cmds|
          ensures cmds[i].Describe?
        {
          if i > 0 {
            assert cmds[i] == cmds[1..][i - 1];
          }
        }
        var top := Exec(s, cmds).value.top;
        assert top[..|s'.top|] == s'.top;
        assert top[..|s.top|] == s'.top[..|s.top|];
      case It(name, h) =>
      case BeforeEach(h) =>
      case Before(h) =>
      case AfterEach(h) =>
      case After(h) =>
      case SetTimeout(ms) =>
    }
  }
}
