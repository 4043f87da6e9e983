/**
 * Shared vocabulary for the JavaScript values the test runner passes around:
 * optional values, thrown errors, rejection reasons and timeout settings.
 */
module Js {

  /** `null`/`undefined` versus a present value. */
  datatype Option<+T> = None | Some(value: T) {
    function GetOr(default: T): T {
      match this
      case Some(v) => v
      case None => default
    }
  }

  /** A JavaScript `Error`, identified by its message. */
  datatype Error = Error(message: string)

  /** The result of a call that may throw: the returned value, or the thrown `Error`. */
  datatype Result<+T> = Ok(value: T) | Throws(error: Error) {
    predicate IsFailure() {
      Throws?
    }

    function PropagateFailure<U>(): Result<U>
      requires Throws?
    {
      Throws(error)
    }

    function Extract(): T
      requires Ok?
    {
      value
    }
  }

  /**
   * Any value a promise can be rejected with or a test can record as its
   * error: `undefined`, `null`, an `Error`, or some other primitive whose
   * truthiness is recorded alongside its printed form.
   */
  datatype Reason = Undefined | Null | Thrown(error: Error) | Primitive(shown: string, truthy: bool)

  /** JavaScript truthiness of a rejection reason. */
  predicate Truthy(r: Reason) {
    match r
    case Undefined => false
    case Null => false
    case Thrown(_) => true
    case Primitive(_, t) => t
  }

  /**
   * The value stored in a `_timeout` slot: `null` (the constructors' default),
   * `undefined` (a `timeout()` call without an argument) or milliseconds.
   */
  datatype Timeout = TimeoutNull | TimeoutUndefined | Millis(ms: int)

  /** JavaScript truthiness of a timeout value (`0` is falsy). */
  predicate TimeoutTruthy(t: Timeout) {
    t.Millis? && t.ms != 0
  }

  /**
   * One top-level assignment to a property of a prototype or constructor:
   * `obj.name = function ... {}` (a definition), or `obj.name = obj.source`
   * (an alias, which copies whatever `obj.source` holds at that moment).
   */
  datatype Assignment<M> = Define(name: string, value: M) | Alias(name: string, source: string)

  /**
   * The properties after running the assignments in order. Reading a
   * property that is not yet assigned gives `undefined`, so an alias
   * evaluated before its source is assigned leaves its name absent.
   */
  function Assign<M>(props: map<string, M>, stmts: seq<Assignment<M>>): (r: map<string, M>)
    decreases |stmts|
  {
    if |stmts| == 0 then props
    else
      var props' := match stmts[0]
        case Define(n, m) => props[n := m]
        case Alias(n, src) => if src in props then props[n := props[src]] else props - {n};
      Assign(props', stmts[1..])
  }

  /** Whether `name` is the target of one of the assignments. */
  predicate Assigns<M>(stmts: seq<Assignment<M>>, name: string) {
    exists i :: 0 <= i < |stmts| && stmts[i].name == name
  }

  /** A property no later assignment touches keeps the value it has now. */
  lemma {:induction false} LemmaAssignUntouched<M>(props: map<string, M>, stmts: seq<Assignment<M>>, name: string)
    requires !Assigns(stmts, name)
    ensures name in Assign(props, stmts) <==> name in props
    ensures name in props ==> Assign(props, stmts)[name] == props[name]
    decreases |stmts|
  {
    if |stmts| > 0 {
      assert stmts[0].name != name;
      var props' := match stmts[0]
        case Define(n, m) => props[n := m]
        case Alias(n, src) => if src in props then props[n := props[src]] else props - {n};
      forall i | 0 <= i < |stmts[1..]|
        ensures stmts[1..][i].name != name
      {
        assert stmts[1..][i] == stmts[i + 1];
      }
      LemmaAssignUntouched(props', stmts[1..], name);
    }
  }

  /**
   * An alias evaluated while its source is still unassigned leaves its name
   * undefined for good when nothing after it assigns that name again.
   */
  lemma LemmaAliasTooEarly<M>(props: map<string, M>, before: seq<Assignment<M>>, name: string, source: string, after: seq<Assignment<M>>)
    requires source !in Assign(props, before)
    requires !Assigns(after, name)
    ensures name !in Assign(props, before + [Alias(name, source)] + after)
  {
    LemmaAssignAppend(props, before, [Alias(name, source)] + after);
    assert before + [Alias(name, source)] + after == before + ([Alias(name, source)] + after);
    var mid := Assign(props, before);
    assert ([Alias(name, source)] + after)[1..] == after;
    LemmaAssignUntouched(mid - {name}, after, name);
  }

  /** Running two lists of assignments is running their concatenation. */
  lemma {:induction false} LemmaAssignAppend<M>(props: map<string, M>, xs: seq<Assignment<M>>, ys: seq<Assignment<M>>)
    ensures Assign(props, xs + ys) == Assign(Assign(props, xs), ys)
    decreases |xs|
  {
    if |xs| == 0 {
      assert xs + ys == ys;
    } else {
      assert (xs + ys)[0] == xs[0];
      assert (xs + ys)[1..] == xs[1..] + ys;
      var props' := match xs[0]
        case Define(n, m) => props[n := m]
        case Alias(n, src) => if src in props then props[n := props[src]] else props - {n};
      LemmaAssignAppend(props', xs[1..], ys);
    }
  }

  /** `parts.join(sep)`. */
  function Join(parts: seq<string>, sep: string): (r: string)
    ensures |parts| == 0 ==> r == ""
    ensures |parts| == 1 ==> r == parts[0]
    decreases |parts|
  {
    if |parts| == 0 then ""
    else if |parts| == 1 then parts[0]
    else parts[0] + sep + Join(parts[1..], sep)
  }

  /** Joining two non-empty lists puts one separator between their joins. */
  lemma {:induction false} LemmaJoinAppend(a: seq<string>, b: seq<string>, sep: string)
    requires |a| > 0 && |b| > 0
    ensures Join(a + b, sep) == Join(a, sep) + sep + Join(b, sep)
    decreases |a|
  {
    if |a| == 1 {
      assert (a + b)[1..] == b;
    } else {
      assert (a + b)[0] == a[0];
      assert (a + b)[1..] == a[1..] + b;
      LemmaJoinAppend(a[1..], b, sep);
    }
  }
}
