/**
 * Running one test (`lib/test.js` and `lib/test2.js`): the promise chain of
 * before hooks, body and after hooks, and the bookkeeping each draft keeps
 * around it. `lib/test.js` records start and finish times and emits
 * `started`, then `passed` or `failed`, then `finished`; `lib/test2.js`
 * records only whether it ran, whether it finished, and the error.
 */
module TestRun {
  import opened Js
  import opened Doneable
  import Resolver

  // The promise chain of `run`
  // --------------------------------------------------------------------------

  /**
   * The error of binding a `null` body: both resolvers start the body as
   * `null`, and only an `It` on the path replaces it.
   */
  const CannotBind := Thrown(Resolver.CannotRead("bind", "null"))

  /**
   * `before().then(body).then(after)`: the before hooks in sequence, then the
   * body, then the after hooks; the first step that does not resolve decides
   * the outcome and nothing after it is invoked.
   */
  function Chain(before: seq<Hook>, def: Option<Hook>, after: seq<Hook>): (r: Run)
    ensures r.outcome.Resolved? <==>
      && (forall i :: 0 <= i < |before| ==> ToPromise(before[i]).Resolved?)
      && def.Some? && ToPromise(def.value).Resolved?
      && (forall i :: 0 <= i < |after| ==> ToPromise(after[i]).Resolved?)
    ensures def.None? && Sequence(before).outcome.Resolved? ==> r == Run(before, Rejected(CannotBind))
  {
    var b := Sequence(before);
    if !b.outcome.Resolved? then b
    else match def
      case None => Run(before, Rejected(CannotBind))
      case Some(h) =>
        var o := ToPromise(h);
        if !o.Resolved? then Run(before + [h], o)
        else
          var a := Sequence(after);
          Run(before + [h] + a.invoked, a.outcome)
  }

  /** A run that stops early stops the same way with more hooks behind it. */
  lemma LemmaSequenceStopsEarly(hs: seq<Hook>, gs: seq<Hook>)
    requires !Sequence(hs).outcome.Resolved?
    ensures Sequence(hs + gs) == Sequence(hs)
  {
    var r := Sequence(hs);
    var k := |r.invoked| - 1;
    assert r.invoked == hs[..k + 1];
    assert !ToPromise(hs[k]).Resolved? by {
      assert r.invoked[k] == hs[k];
    }
    assert forall i :: 0 <= i < k ==> ToPromise(hs[i]).Resolved? by {
      forall i | 0 <= i < k
        ensures ToPromise(hs[i]).Resolved?
      {
        assert r.invoked[i] == hs[i];
      }
    }
    assert (hs + gs)[..k + 1] == hs[..k + 1];
    assert Sequence(hs + gs) == Run(hs[..k + 1], ToPromise(hs[k])) by {
      forall i | 0 <= i < k
        ensures ToPromise((hs + gs)[i]).Resolved?
      {
        assert (hs + gs)[i] == hs[i];
      }
      assert (hs + gs)[k] == hs[k];
      LemmaSequenceStops(hs + gs, k);
    }
    assert Sequence(hs) == Run(hs[..k + 1], ToPromise(hs[k])) by {
      LemmaSequenceStops(hs, k);
    }
  }

  /** With a body, the chain is one sequence of all the hooks, body between. */
  lemma LemmaChainIsSequence(before: seq<Hook>, h: Hook, after: seq<Hook>)
    ensures Chain(before, Some(h), after) == Sequence(before + [h] + after)
  {
    assert before + [h] + after == before + ([h] + after);
    if !Sequence(before).outcome.Resolved? {
      LemmaSequenceStopsEarly(before, [h] + after);
    } else if !ToPromise(h).Resolved? {
      LemmaChainBodyFails(before, h, after);
    } else {
      LemmaChainBodyResolves(before, h, after);
    }
  }

  lemma LemmaChainBodyFails(before: seq<Hook>, h: Hook, after: seq<Hook>)
    requires Sequence(before).outcome.Resolved? && !ToPromise(h).Resolved?
    ensures Sequence(before + ([h] + after)) == Run(before + [h], ToPromise(h))
  {
    LemmaSequenceAppend(before, [h] + after);
    LemmaSequenceCons(h, after);
  }

  lemma LemmaChainBodyResolves(before: seq<Hook>, h: Hook, after: seq<Hook>)
    requires Sequence(before).outcome.Resolved? && ToPromise(h).Resolved?
    ensures Sequence(before + ([h] + after)) == Run(before + [h] + Sequence(after).invoked, Sequence(after).outcome)
  {
    LemmaSequenceAppend(before, [h] + after);
    LemmaSequenceCons(h, after);
    assert before + ([h] + Sequence(after).invoked) == before + [h] + Sequence(after).invoked;
  }

  /** A sequence runs its first hook, and goes on only if that one resolved. */
  lemma LemmaSequenceCons(h: Hook, after: seq<Hook>)
    ensures Sequence([h] + after) == if ToPromise(h).Resolved?
      then Run([h] + Sequence(after).invoked, Sequence(after).outcome)
      else Run([h], ToPromise(h))
  {
    assert ([h] + after)[0] == h && ([h] + after)[1..] == after;
  }

  // lib/test.js
  // --------------------------------------------------------------------------

  /** The events a test emits. */
  datatype Event = Started | Passed | Failed | Finished

  /**
   * A test's bookkeeping: start and finish times (`null` is None; a `Date`
   * is always truthy), the duration, the recorded error and the events
   * emitted so far.
   */
  datatype Life = Life(startTime: Option<int>, finishTime: Option<int>, duration: Option<int>, err: Reason, events: seq<Event>)

  /** A new test: nothing started, no error. */
  const Fresh := Life(None, None, None, Null, [])

  /** `getStarted()`: `!!this.getStartTime()`. */
  predicate IsStarted(l: Life) {
    l.startTime.Some?
  }

  /** `getFinished()`: `!!this.getFinishTime()`. */
  predicate IsFinished(l: Life) {
    l.finishTime.Some?
  }

  const AlreadyStarted := Error("Test already started")
  const NotStarted := Error("Test was not started")

  /** `setStarted()` at time `now`: only once, emitting `started`. */
  function SetStarted(l: Life, now: int): (r: Result<Life>)
    ensures r.Throws? <==> IsStarted(l)
    ensures r.Throws? ==> r.error == AlreadyStarted
    ensures r.Ok? ==> IsStarted(r.value) && r.value.startTime == Some(now)
    ensures r.Ok? ==> r.value.events == l.events + [Started]
    ensures r.Ok? ==> r.value.(startTime := l.startTime, events := l.events) == l
  {
    if IsStarted(l) then Throws(AlreadyStarted)
    else Ok(l.(startTime := Some(now), events := l.events + [Started]))
  }

  /** `setError(error)`: the first truthy error sticks; nothing else changes. */
  function SetError(l: Life, e: Reason): (r: Life)
    ensures Truthy(r.err) <==> Truthy(l.err) || Truthy(e)
    ensures Truthy(l.err) ==> r.err == l.err
    ensures Truthy(e) ==> Truthy(r.err)
    ensures r.(err := l.err) == l
  {
    l.(err := if Truthy(l.err) then l.err else e)
  }

  /** Once an error is recorded, no later `setError` replaces it. */
  lemma LemmaFirstErrorSticks(l: Life, a: Reason, b: Reason)
    requires Truthy(a)
    ensures SetError(SetError(l, a), b).err == SetError(l, a).err
    ensures !Truthy(l.err) ==> SetError(SetError(l, a), b).err == a
  {
  }

  /**
   * `setFinished(error, finishTime)` at time `now`: it throws before the
   * test started and does nothing once it finished; otherwise it sets the
   * finish time and the duration, records a truthy error and emits
   * `failed`, or emits `passed` for a falsy one, then emits `finished`.
   */
  function SetFinished(l: Life, error: Reason, finishTime: Option<int>, now: int): (r: Result<Life>)
    ensures r.Throws? <==> !IsStarted(l)
    ensures r.Throws? ==> r.error == NotStarted
    ensures r.Ok? && IsFinished(l) ==> r.value == l
    ensures r.Ok? ==> IsFinished(r.value) && r.value.startTime == l.startTime
    ensures r.Ok? && !IsFinished(l) ==> r.value.finishTime == Some(finishTime.GetOr(now))
    ensures r.Ok? && !IsFinished(l) ==> r.value.events == l.events + [if Truthy(error) then Failed else Passed, Finished]
    ensures r.Ok? && !IsFinished(l) && Truthy(error) ==> r.value.err == SetError(l, error).err
    ensures r.Ok? && !Truthy(error) ==> r.value.err == l.err
  {
    if !IsStarted(l) then Throws(NotStarted)
    else if IsFinished(l) then Ok(l)
    else
      var ft := finishTime.GetOr(now);
      var d := if l.duration.Some? && l.duration.value != 0 then l.duration.value else ft - l.startTime.value;
      var l' := l.(finishTime := Some(ft), duration := Some(d));
      if Truthy(error) then Ok(SetError(l', error).(events := l.events + [Failed, Finished]))
      else Ok(l'.(events := l.events + [Passed, Finished]))
  }

  /**
   * What a test's events can be: nothing before it starts, `started` while
   * it runs, and `started`, one verdict, `finished` once it finished.
   */
  predicate Valid(l: Life) {
    if !IsStarted(l) then !IsFinished(l) && l.events == []
    else if !IsFinished(l) then l.events == [Started]
    else |l.events| == 3 && l.events[0] == Started && (l.events[1] == Passed || l.events[1] == Failed) && l.events[2] == Finished
  }

  /** Every operation keeps the event log well formed, so each event is emitted at most once. */
  lemma LemmaLifeValid(l: Life, now: int, e: Reason, ft: Option<int>)
    requires Valid(l)
    ensures Valid(Fresh)
    ensures SetStarted(l, now).Ok? ==> Valid(SetStarted(l, now).value)
    ensures Valid(SetError(l, e))
    ensures SetFinished(l, e, ft, now).Ok? ==> Valid(SetFinished(l, e, ft, now).value)
  {
  }

  /**
   * `run()` of a test made from `spec`, at time `now`, settling at time
   * `later`: a test that already started is left alone (the same promise is
   * returned); otherwise it starts, and once the chain settles it finishes,
   * passing when the chain resolved and otherwise with the rejection
   * reason. A chain that never settles leaves it running.
   */
  function RunTest(spec: Resolver.Spec, l: Life, now: int, later: int): (r: Life)
    ensures IsStarted(l) ==> r == l
    ensures !IsStarted(l) ==> IsStarted(r)
    ensures !IsStarted(l) && !IsFinished(l) ==>
      (IsFinished(r) <==> !Chain(spec.before, spec.def, spec.after).outcome.Pending?)
  {
    if IsStarted(l) then l
    else
      var started := SetStarted(l, now).value;
      match Chain(spec.before, spec.def, spec.after).outcome
      case Pending => started
      case Resolved => SetFinished(started, Undefined, None, later).value
      case Rejected(reason) => SetFinished(started, reason, None, later).value
  }

  /** `run()` is idempotent. */
  lemma LemmaRunOnce(spec: Resolver.Spec, l: Life, now: int, later: int, now': int, later': int)
    ensures RunTest(spec, RunTest(spec, l, now, later), now', later') == RunTest(spec, l, now, later)
  {
  }

  /**
   * On a new test, `run()` emits `started`, then `passed` exactly when the
   * chain resolved or was rejected with a falsy reason, then `finished`,
   * and records a truthy reason as the error.
   */
  lemma LemmaRunEvents(spec: Resolver.Spec, now: int, later: int)
    ensures var o := Chain(spec.before, spec.def, spec.after).outcome;
      && (o.Pending? ==> RunTest(spec, Fresh, now, later).events == [Started])
      && (o.Resolved? ==> RunTest(spec, Fresh, now, later).events == [Started, Passed, Finished])
      && (o.Rejected? ==> RunTest(spec, Fresh, now, later).events == [Started, if Truthy(o.reason) then Failed else Passed, Finished])
      && (o.Rejected? && Truthy(o.reason) ==> RunTest(spec, Fresh, now, later).err == o.reason)
    ensures Valid(RunTest(spec, Fresh, now, later))
  {
  }

  /** A body that calls `done(undefined)` rejects its promise, yet the test is reported as passed. */
  lemma LemmaFalsyRejectionPasses(now: int, later: int)
    ensures var body := Hook(0, 1, CallsDone(Some(Undefined)));
      var spec := Resolver.Spec([], Some("t"), TimeoutNull, [], Some(body), []);
      && Chain(spec.before, spec.def, spec.after).outcome == Rejected(Undefined)
      && RunTest(spec, Fresh, now, later).events == [Started, Passed, Finished]
  {
  }

  // lib/test2.js
  // --------------------------------------------------------------------------

  /**
   * The second draft's bookkeeping: whether `run` was called, the promise it
   * returned (`null` before), whether the chain settled and the error.
   */
  datatype Life2 = Life2(didRun: bool, promise: Option<Outcome>, isFinished: bool, err: Reason)

  const Fresh2 := Life2(false, None, false, Null)

  /**
   * `run()`: the first call starts the chain and keeps its promise, which
   * resolves (to the test) once the chain settles, recording a rejection
   * reason as the error; later calls return the kept promise.
   */
  function Run2(spec: Resolver.Spec, l: Life2): (r: (Life2, Option<Outcome>))
    ensures r.1 == r.0.promise
    ensures l.didRun ==> r.0 == l
    ensures !l.didRun ==> r.0.didRun && r.1.Some? && !r.1.value.Rejected?
    ensures !l.didRun ==> (r.1 == Some(Pending) <==> Chain(spec.before, spec.def, spec.after).outcome.Pending?)
    ensures !l.didRun && r.1 == Some(Resolved) ==> r.0.isFinished
  {
    if l.didRun then (l, l.promise)
    else
      match Chain(spec.before, spec.def, spec.after).outcome
      case Pending => (l.(didRun := true, promise := Some(Pending)), Some(Pending))
      case Resolved => (l.(didRun := true, promise := Some(Resolved), isFinished := true), Some(Resolved))
      case Rejected(reason) =>
        (l.(didRun := true, promise := Some(Resolved), isFinished := true, err := reason), Some(Resolved))
  }

  /** The second draft's `run()` is idempotent. */
  lemma LemmaRun2Once(spec: Resolver.Spec, l: Life2)
    ensures Run2(spec, Run2(spec, l).0) == Run2(spec, l)
  {
  }

  /**
   * Both drafts finish a new test exactly when the chain settles; the first
   * reports `failed` exactly when the second records a truthy error, and
   * then both record the same error.
   */
  lemma LemmaDraftsAgree(spec: Resolver.Spec, now: int, later: int)
    ensures var l1 := RunTest(spec, Fresh, now, later);
      var l2 := Run2(spec, Fresh2).0;
      && (IsFinished(l1) <==> l2.isFinished)
      && (Failed in l1.events <==> Truthy(l2.err))
      && (Truthy(l2.err) ==> l1.err == l2.err)
  {
  }
}
