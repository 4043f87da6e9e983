/**
 * Hooks and test bodies ("doneables", `lib/doneable.js`): a function that
 * either takes no argument, or takes a `done` callback it calls to finish.
 * The asynchronous code itself is out of reach, so a hook is described by
 * what it does when invoked, and a promise by how it settles.
 */
module Doneable {
  import opened Js

  /** What an invoked hook does. */
  datatype Act =
    | Returns                       // returns without calling `done`
    | Raises(reason: Reason)        // throws synchronously
    | CallsDone(arg: Option<Reason>) // calls `done()` (None) or `done(x)` (Some(x))

  /** A hook: an identity (to tell invocations apart), its declared arity and its behaviour. */
  datatype Hook = Hook(id: nat, arity: nat, act: Act)

  /** How a promise settles; `Pending` is a promise that never settles. */
  datatype Outcome = Resolved | Rejected(reason: Reason) | Pending

  /** The `TypeError` of calling `done` when the hook was not given one. */
  const DoneIsNotAFunction := Thrown(Error("done is not a function"))

  /**
   * `toPromise(hook)`: a hook of arity 0 is invoked and the promise resolves
   * (a throw rejects it); a hook of arity 1 or more is handed `done`, and
   * `done()` resolves while `done(x)` rejects with `x`, whatever `x` is.
   */
  function ToPromise(h: Hook): (r: Outcome)
    ensures h.act.Raises? ==> r == Rejected(h.act.reason)
    ensures h.arity == 0 ==> (r.Resolved? <==> h.act.Returns?)
    ensures h.arity == 0 && h.act.CallsDone? ==> r == Rejected(DoneIsNotAFunction)
    ensures h.arity > 0 ==> (r.Pending? <==> h.act.Returns?)
    ensures h.arity > 0 ==> (r.Resolved? <==> h.act == CallsDone(None))
    ensures h.arity > 0 && h.act.CallsDone? && h.act.arg.Some? ==> r == Rejected(h.act.arg.value)
  {
    match h.act
    case Raises(reason) => Rejected(reason)
    case Returns => if h.arity == 0 then Resolved else Pending
    case CallsDone(arg) =>
      if h.arity == 0 then Rejected(DoneIsNotAFunction)
      else if arg.None? then Resolved
      else Rejected(arg.value)
  }

  /** `done(undefined)` counts as an argument: the promise rejects, with a falsy reason. */
  lemma LemmaDoneUndefinedRejects(id: nat, arity: nat)
    requires arity >= 1
    ensures ToPromise(Hook(id, arity, CallsDone(Some(Undefined)))) == Rejected(Undefined)
    ensures !Truthy(ToPromise(Hook(id, arity, CallsDone(Some(Undefined)))).reason)
  {
  }

  /** A run of hooks: the hooks invoked, in order, and how the chain settled. */
  datatype Run = Run(invoked: seq<Hook>, outcome: Outcome)

  /**
   * `sequence(hooks)`: each hook is turned into a promise only after the
   * previous one resolved; the chain settles like the first hook that does
   * not resolve, and resolves when there is none.
   */
  function Sequence(hs: seq<Hook>): (r: Run)
    ensures |r.invoked| <= |hs| && r.invoked == hs[..|r.invoked|]
    ensures forall i :: 0 <= i < |r.invoked| - 1 ==> ToPromise(r.invoked[i]).Resolved?
    ensures r.outcome.Resolved? <==> r.invoked == hs && forall i :: 0 <= i < |hs| ==> ToPromise(hs[i]).Resolved?
    ensures !r.outcome.Resolved? ==> |r.invoked| > 0 && r.outcome == ToPromise(r.invoked[|r.invoked| - 1])
    decreases |hs|
  {
    if |hs| == 0 then Run([], Resolved)
    else
      var o := ToPromise(hs[0]);
      if o.Resolved? then
        var rest := Sequence(hs[1..]);
        assert hs == [hs[0]] + hs[1..];
        Run([hs[0]] + rest.invoked, rest.outcome)
      else
        Run([hs[0]], o)
  }

  /** Hooks after the first one that does not resolve are never invoked. */
  lemma {:induction false} LemmaSequenceStops(hs: seq<Hook>, k: nat)
    requires k < |hs| && !ToPromise(hs[k]).Resolved?
    requires forall i :: 0 <= i < k ==> ToPromise(hs[i]).Resolved?
    ensures Sequence(hs) == Run(hs[..k + 1], ToPromise(hs[k]))
    decreases k
  {
    if k == 0 {
      assert hs[..1] == [hs[0]];
    } else {
      assert ToPromise(hs[0]).Resolved?;
      var tail := hs[1..];
      assert tail[k - 1] == hs[k];
      LemmaSequenceStops(tail, k - 1);
      assert [hs[0]] + tail[..k] == hs[..k + 1];
    }
  }

  /** After a resolved run of `hs`, running `hs + gs` goes on with `gs`. */
  lemma {:induction false} LemmaSequenceAppend(hs: seq<Hook>, gs: seq<Hook>)
    requires Sequence(hs).outcome.Resolved?
    ensures Sequence(hs + gs) == Run(hs + Sequence(gs).invoked, Sequence(gs).outcome)
    decreases |hs|
  {
    if |hs| == 0 {
      assert hs + gs == gs;
    } else {
      var tail := hs[1..];
      assert ToPromise(hs[0]).Resolved?;
      assert Sequence(hs) == Run([hs[0]] + Sequence(tail).invoked, Sequence(tail).outcome);
      assert (hs + gs)[1..] == tail + gs;
      assert (hs + gs)[0] == hs[0];
      LemmaSequenceAppend(tail, gs);
      assert Sequence(hs + gs) == Run([hs[0]] + Sequence(tail + gs).invoked, Sequence(tail + gs).outcome);
      assert [hs[0]] + (tail + Sequence(gs).invoked) == hs + Sequence(gs).invoked;
    }
  }

  /** `toLazyPromise(hook)`: a thunk that calls `toPromise(hook)` when forced. */
  datatype Lazy = Lazy(hook: Hook)

  function ToLazyPromise(h: Hook): Lazy {
    Lazy(h)
  }

  /** Forcing a thunk: the only point where the hook is invoked. */
  function Force(l: Lazy): (r: Run)
    ensures r.invoked == [l.hook]
  {
    Run([l.hook], ToPromise(l.hook))
  }

  /** Making the thunk invokes nothing; forcing it is `toPromise` on the same hook. */
  lemma LemmaLazyPromise(h: Hook)
    ensures Force(ToLazyPromise(h)) == Run([h], ToPromise(h))
    ensures Force(ToLazyPromise(h)) == Sequence([h])
  {
  }
}
