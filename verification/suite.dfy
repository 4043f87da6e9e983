/**
 * The values the DSL stores in its tree: an `It` (`lib/it.js`) names one
 * test and holds its body; a `Describe` (`lib/describe2.js`) names a group,
 * holds the definition that declares its contents, and carries the group's
 * timeout and its `beforeEach`/`afterEach` hooks.
 */
module Suite {
  import opened Js
  import opened Doneable

  // It
  // --------------------------------------------------------------------------

  datatype ItValue = It(name: string, def: Hook, timeout: Timeout)

  /** `new It(name, def)`: the name and the (bound) body are stored, the timeout starts `null`. */
  function NewIt(name: string, def: Hook): (r: ItValue)
    ensures GetName(r) == name && GetDef(r) == def && GetTimeout(r) == TimeoutNull
  {
    It(name, def, TimeoutNull)
  }

  function GetName(it: ItValue): string {
    it.name
  }

  function GetDef(it: ItValue): Hook {
    it.def
  }

  function GetTimeout(it: ItValue): Timeout {
    it.timeout
  }

  /**
   * `It#timeout(ms)`: the new state, and the call's return value, which is
   * `undefined` (None) since the method has no `return`.
   */
  function ItSetTimeout(it: ItValue, ms: Timeout): (r: (ItValue, Option<ItValue>))
    ensures GetTimeout(r.0) == ms
    ensures GetName(r.0) == GetName(it) && GetDef(r.0) == GetDef(it)
    ensures r.1.None?
  {
    (it.(timeout := ms), None)
  }

  // Describe
  // --------------------------------------------------------------------------

  /**
   * A `Describe` whose definition is of type `B` (the DSL's list of
   * commands). `null` hooks are `None`.
   */
  datatype DescribeValue<B> = Describe(
    name: string,
    def: B,
    didRun: bool,
    timeout: Timeout,
    beforeEach: Option<Hook>,
    afterEach: Option<Hook>)

  /** `new Describe(name, def)`: not yet run, `null` timeout and hooks. */
  function NewDescribe<B>(name: string, def: B): (r: DescribeValue<B>)
    ensures r.name == name && r.def == def
    ensures !r.didRun && r.timeout == TimeoutNull && r.beforeEach.None? && r.afterEach.None?
  {
    Describe(name, def, false, TimeoutNull, None, None)
  }

  /**
   * `run()`: the definition is invoked only when the describe has not run
   * yet. The result is the new state (the call returns `this`) and whether
   * the definition was invoked.
   */
  function RunDescribe<B>(d: DescribeValue<B>): (r: (DescribeValue<B>, bool))
    ensures r.1 <==> !d.didRun
    ensures r.0.didRun
    ensures r.0 == d.(didRun := true)
  {
    (d.(didRun := true), !d.didRun)
  }

  /** A second `run()` invokes nothing and changes nothing. */
  lemma LemmaRunOnce<B>(d: DescribeValue<B>)
    ensures !RunDescribe(RunDescribe(d).0).1
    ensures RunDescribe(RunDescribe(d).0).0 == RunDescribe(d).0
  {
  }

  /**
   * The `TypeError` of a second `beforeEach`/`afterEach`: the stored hook is
   * a function, which has no `then` method.
   */
  function ThenIsNotAFunction(slot: string): Error {
    Error("this._" + slot + ".then is not a function")
  }

  /**
   * `beforeEach(def)`: the first call stores the hook and returns `this`; a
   * later call takes the `.then` branch on the stored function, which throws.
   */
  function BeforeEach<B>(d: DescribeValue<B>, h: Hook): (r: Result<DescribeValue<B>>)
    ensures d.beforeEach.None? ==> r == Ok(d.(beforeEach := Some(h)))
    ensures d.beforeEach.Some? ==> r == Throws(ThenIsNotAFunction("beforeEach"))
  {
    if d.beforeEach.Some? then Throws(ThenIsNotAFunction("beforeEach"))
    else Ok(d.(beforeEach := Some(h)))
  }

  /** `afterEach(def)`: as `beforeEach`, on the `afterEach` slot. */
  function AfterEach<B>(d: DescribeValue<B>, h: Hook): (r: Result<DescribeValue<B>>)
    ensures d.afterEach.None? ==> r == Ok(d.(afterEach := Some(h)))
    ensures d.afterEach.Some? ==> r == Throws(ThenIsNotAFunction("afterEach"))
  {
    if d.afterEach.Some? then Throws(ThenIsNotAFunction("afterEach"))
    else Ok(d.(afterEach := Some(h)))
  }

  /** `timeout(ms)`: overwrites the timeout and returns `this`. */
  function DescribeSetTimeout<B>(d: DescribeValue<B>, ms: Timeout): (r: DescribeValue<B>)
    ensures r.timeout == ms
    ensures r.(timeout := d.timeout) == d
  {
    d.(timeout := ms)
  }

  /** At most one hook per slot: a second one is an error, never a replacement. */
  lemma LemmaHookSlotsOnce<B>(d: DescribeValue<B>, h1: Hook, h2: Hook)
    requires d.beforeEach.None? && d.afterEach.None?
    ensures BeforeEach(d, h1).Ok? && BeforeEach(BeforeEach(d, h1).value, h2).Throws?
    ensures AfterEach(d, h1).Ok? && AfterEach(AfterEach(d, h1).value, h2).Throws?
  {
  }

  // The `before`/`after` aliases
  // --------------------------------------------------------------------------

  /** The methods `Describe.prototype` ends up holding. */
  datatype Method = RunMethod | BeforeEachMethod | AfterEachMethod | TimeoutMethod

  /** The prototype assignments of `lib/describe2.js`, in file order. */
  const DescribePrototype: seq<Assignment<Method>> := [
    Define("run", RunMethod),
    Alias("before", "beforeEach"),
    Define("beforeEach", BeforeEachMethod),
    Alias("after", "afterEach"),
    Define("afterEach", AfterEachMethod),
    Define("timeout", TimeoutMethod)
  ]

  /**
   * `before` and `after` copy `beforeEach` and `afterEach` before those are
   * assigned, so they end up `undefined`, while the aliased methods exist.
   */
  lemma LemmaAliasesUndefined()
    ensures "before" !in Assign(map[], DescribePrototype)
    ensures "after" !in Assign(map[], DescribePrototype)
    ensures Assign(map[], DescribePrototype)["beforeEach"] == BeforeEachMethod
    ensures Assign(map[], DescribePrototype)["afterEach"] == AfterEachMethod
  {
    var p := DescribePrototype;
    LemmaAliasTooEarly(map[], p[..1], "before", "beforeEach", p[2..]);
    assert p[..1] + [Alias("before", "beforeEach")] + p[2..] == p;
    var early := Assign(map[], p[..2]);
    LemmaAssignAppend(map[], p[..2], [p[2]]);
    assert p[..2] + [p[2]] == p[..3];
    assert "afterEach" !in early by {
      LemmaAssignAppend(map[], p[..1], [p[1]]);
      assert p[..1] + [p[1]] == p[..2];
    }
    LemmaAliasTooEarly(map[], p[..3], "after", "afterEach", p[4..]);
    assert p[..3] + [Alias("after", "afterEach")] + p[4..] == p;
  }

  // Tree values
  // --------------------------------------------------------------------------

  /**
   * What a DSL tree node holds: a `Describe`, an `It`, or `undefined` (what
   * `It#timeout` hands back to a caller that stores its result).
   */
  datatype Entry<B> = Group(group: DescribeValue<B>) | Case(test: ItValue) | Missing

  /** A JavaScript return value of type `It` or `undefined`, as a node value. */
  function AsEntry<B>(v: Option<ItValue>): (r: Entry<B>)
    ensures v.None? <==> r.Missing?
    ensures v.Some? ==> r == Case(v.value)
  {
    match v
    case None => Missing
    case Some(it) => Case(it)
  }
}
