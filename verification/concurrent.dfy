/**
 * The concurrent runner (`lib/runners/concurrent.js`): the first
 * `concurrencyLevel` tests are started at once, and each of them, when it
 * settles, starts one more test taken from the end of the queue. Tests are
 * opaque here; what matters is which of them get started, and in what order.
 */
module Concurrent {
  import opened Js
  import Seqs

  /** `DEFAULT_CONCURRENCY`. */
  const DefaultConcurrency := 5

  /** `concurrencyLevel || DEFAULT_CONCURRENCY`: a missing or zero level becomes the default. */
  function Level(arg: Option<int>): (r: int)
    ensures r != 0
    ensures arg.Some? && arg.value != 0 ==> r == arg.value
    ensures arg.None? || arg.value == 0 ==> r == DefaultConcurrency
  {
    if arg.Some? && arg.value != 0 then arg.value else DefaultConcurrency
  }

  function Min(a: int, b: int): int {
    if a < b then a else b
  }

  /** `xs` back to front. */
  function Reverse<T>(xs: seq<T>): (r: seq<T>)
    ensures |r| == |xs|
    decreases |xs|
  {
    if |xs| == 0 then [] else [xs[|xs| - 1]] + Reverse(xs[..|xs| - 1])
  }

  /** The i-th element of the reversal is the i-th from the end. */
  lemma {:induction false} LemmaReverseAt<T>(xs: seq<T>, i: nat)
    requires i < |xs|
    ensures Reverse(xs)[i] == xs[|xs| - 1 - i]
    decreases |xs|
  {
    if i > 0 {
      LemmaReverseAt(xs[..|xs| - 1], i - 1);
    }
  }

  // As written: only the first batch refills
  // --------------------------------------------------------------------------

  /**
   * The runner while it waits: the queued tests, how many first-batch
   * handlers have not fired yet, and the tests started so far.
   */
  datatype Pool<T> = Pool(queue: seq<T>, waiting: nat, started: seq<T>)

  /**
   * One first-batch test settles: its handler pops the last queued test
   * (`undefined` when the queue is empty) and runs it. A test started this
   * way has no handler of its own.
   */
  function Settle<T>(p: Pool<T>): (r: Pool<T>)
    requires p.waiting > 0
    ensures r.waiting == p.waiting - 1
    ensures |r.queue| == if |p.queue| > 0 then |p.queue| - 1 else 0
    ensures |r.started| == |p.started| + |p.queue| - |r.queue|
    ensures r.queue + r.started[|p.started|..] == p.queue
    ensures r.started[..|p.started|] == p.started
  {
    if |p.queue| == 0 then p.(waiting := p.waiting - 1)
    else
      var last := p.queue[|p.queue| - 1];
      Pool(p.queue[..|p.queue| - 1], p.waiting - 1, p.started + [last])
  }

  /**
   * Every waiting handler fires (in whatever order the tests settle, the
   * effect is the same): each one started the next test from the end of the
   * queue, until the handlers or the queue run out.
   */
  function SettleAll<T>(p: Pool<T>): (r: Pool<T>)
    ensures r.waiting == 0
    ensures r.queue == p.queue[..|p.queue| - Min(p.waiting, |p.queue|)]
    ensures r.started == p.started + Reverse(p.queue[|p.queue| - Min(p.waiting, |p.queue|)..])
    decreases p.waiting
  {
    if p.waiting == 0 then p
    else
      LemmaSettleStep(p);
      SettleAll(Settle(p))
  }

  /** One `SettleAll` step: what is left to start, and what was started, shifts by one test. */
  lemma LemmaSettleStep<T>(p: Pool<T>)
    requires p.waiting > 0
    ensures var q := Settle(p);
      var n := |p.queue|;
      var m := Min(p.waiting, n);
      var m' := Min(q.waiting, |q.queue|);
      && q.queue[..|q.queue| - m'] == p.queue[..n - m]
      && q.started + Reverse(q.queue[|q.queue| - m'..]) == p.started + Reverse(p.queue[n - m..])
  {
    var n := |p.queue|;
    var m := Min(p.waiting, n);
    if n > 0 {
      var q := Settle(p);
      var last := p.queue[n - 1];
      assert q.queue == p.queue[..n - 1] && q.started == p.started + [last];
      assert Min(q.waiting, |q.queue|) == m - 1;
      var tail := p.queue[n - m..];
      assert tail[..|tail| - 1] == q.queue[n - 1 - (m - 1)..];
      assert q.queue[..n - 1 - (m - 1)] == p.queue[..n - m];
      Seqs.LemmaAppendAssoc(p.started, [last], Reverse(tail[..|tail| - 1]));
    } else {
      assert p.queue[n - m..] == [];
    }
  }

  /** What a call to `runTests` leaves behind once every first-batch test settled. */
  datatype Outcome<T> = Outcome(result: seq<T>, started: seq<T>, neverRun: seq<T>)

  /**
   * The first batch `initial` started with `queue` behind it, once every
   * first-batch test settled.
   */
  function Drain<T>(initial: seq<T>, queue: seq<T>): (r: Outcome<T>)
    ensures r.result == initial
    ensures r.started == initial + Reverse(queue[|queue| - Min(|initial|, |queue|)..])
    ensures r.neverRun == queue[..|queue| - Min(|initial|, |queue|)]
  {
    var p := Pool(queue, |initial|, initial);
    var done := SettleAll(p);
    Outcome(initial, done.started, done.queue)
  }

  /**
   * `runTests(tests)`: the first `Level(level)` tests are started, and the
   * returned promise resolves with those tests only (`tests` is reassigned
   * to the first batch before the `Promise.all`).
   */
  function RunTests<T>(tests: Option<seq<T>>, level: Option<int>): (r: Outcome<T>)
    ensures |r.result| == Seqs.Clamp(Level(level), 0, |tests.GetOr([])|)
    ensures r.result == tests.GetOr([])[..|r.result|]
  {
    var ts := tests.GetOr([]);
    var split := Seqs.SplitAt(Level(level), ts);
    Drain(split.0, split.1)
  }

  /**
   * Which tests `runTests` starts: the first batch of `k`, then the last
   * `min(k, n - k)` tests from the back; the tests in between never run.
   */
  lemma LemmaRunTestsOutcome<T>(tests: Option<seq<T>>, level: Option<int>)
    ensures RunTests(tests, level).started == Started(tests.GetOr([]), Seqs.Clamp(Level(level), 0, |tests.GetOr([])|))
    ensures RunTests(tests, level).neverRun == NeverRun(tests.GetOr([]), Seqs.Clamp(Level(level), 0, |tests.GetOr([])|))
  {
    var ts := tests.GetOr([]);
    var k := Seqs.Clamp(Level(level), 0, |ts|);
    LemmaSplitAt(Level(level), ts);
    LemmaDrainSlices(ts, k);
  }

  /** The first `k` tests, then the last `min(k, n - k)` from the back. */
  function Started<T>(ts: seq<T>, k: nat): seq<T>
    requires k <= |ts|
  {
    ts[..k] + Reverse(ts[|ts| - Min(k, |ts| - k)..])
  }

  /** The tests between the first batch and the refills. */
  function NeverRun<T>(ts: seq<T>, k: nat): seq<T>
    requires k <= |ts|
  {
    ts[k..|ts| - Min(k, |ts| - k)]
  }

  /** `Drain` of the first `k` tests in front of the others, read off the input. */
  lemma LemmaDrainSlices<T>(ts: seq<T>, k: nat)
    requires k <= |ts|
    ensures Drain(ts[..k], ts[k..]).result == ts[..k]
    ensures Drain(ts[..k], ts[k..]).started == Started(ts, k)
    ensures Drain(ts[..k], ts[k..]).neverRun == NeverRun(ts, k)
  {
    var m := Min(k, |ts| - k);
    var expected := ts[..k] + Reverse(ts[|ts| - m..]);
    assert Started(ts, k) == expected;
    assert NeverRun(ts, k) == ts[k..|ts| - m];
    var queue := ts[k..];
    assert Min(|ts[..k]|, |queue|) == m;
    assert Drain(ts[..k], queue).started == expected by {
      LemmaSuffixOfSuffix(ts, k, m);
      LemmaDrainStarted(ts[..k], queue, ts[|ts| - m..]);
    }
    assert Drain(ts[..k], queue).neverRun == ts[k..|ts| - m] by {
      LemmaSuffixOfSuffix(ts, k, m);
    }
  }

  lemma LemmaDrainStarted<T>(initial: seq<T>, queue: seq<T>, tail: seq<T>)
    requires tail == queue[|queue| - Min(|initial|, |queue|)..]
    ensures Drain(initial, queue).started == initial + Reverse(tail)
  {
  }

  /** The last `m` elements after dropping `k`, and what comes before them. */
  lemma LemmaSuffixOfSuffix<T>(ts: seq<T>, k: nat, m: nat)
    requires k + m <= |ts|
    ensures ts[k..][|ts| - k - m..] == ts[|ts| - m..]
    ensures ts[k..][..|ts| - k - m] == ts[k..|ts| - m]
  {
  }

  /** `splitAt` cuts at the clamped index. */
  lemma LemmaSplitAt<T>(i: int, xs: seq<T>)
    ensures Seqs.SplitAt(i, xs) == (xs[..Seqs.Clamp(i, 0, |xs|)], xs[Seqs.Clamp(i, 0, |xs|)..])
  {
  }

  lemma LemmaReverseTwice<T>(xs: seq<T>)
    ensures Reverse(Reverse(xs)) == xs
  {
    forall i | 0 <= i < |xs|
      ensures Reverse(Reverse(xs))[i] == xs[i]
    {
      LemmaReverseAt(Reverse(xs), i);
      LemmaReverseAt(xs, |xs| - 1 - i);
    }
  }

  /**
   * Every test is started or never run, and none is both: the first batch,
   * the tests never run and the refills (in queue order) make up the input.
   */
  lemma LemmaDrainPartition<T>(initial: seq<T>, queue: seq<T>)
    ensures var r := Drain(initial, queue);
      && r.started[..|r.result|] == r.result
      && r.result + r.neverRun + Reverse(r.started[|r.result|..]) == initial + queue
  {
    var r := Drain(initial, queue);
    var m := Min(|initial|, |queue|);
    var tail := queue[|queue| - m..];
    assert r.started[|initial|..] == Reverse(tail);
    LemmaReverseTwice(tail);
    LemmaCut(queue, |queue| - m);
    assert Reverse(r.started[|r.result|..]) == tail;
    Seqs.LemmaAppendAssoc(initial, queue[..|queue| - m], tail);
  }

  lemma LemmaCut<T>(xs: seq<T>, j: nat)
    requires j <= |xs|
    ensures xs[..j] + xs[j..] == xs
  {
  }

  /** The same for `runTests`: its three lists split the input. */
  lemma LemmaRunTestsPartition<T>(tests: seq<T>, level: Option<int>)
    ensures var r := RunTests(Some(tests), level);
      && r.started[..|r.result|] == r.result
      && r.result + r.neverRun + Reverse(r.started[|r.result|..]) == tests
  {
    var split := Seqs.SplitAt(Level(level), tests);
    LemmaDrainPartition(split.0, split.1);
  }

  /**
   * With one slot and three tests, the first test settles, starts the last
   * one, and the middle test is never run.
   */
  lemma LemmaMiddleTestNeverRuns<T>(a: T, b: T, c: T)
    ensures RunTests(Some([a, b, c]), Some(1)) == Outcome([a], [a, c], [b])
  {
    var ts := [a, b, c];
    assert Seqs.SplitAt(Level(Some(1)), ts) == ([a], [b, c]) by {
      LemmaSplitAt(1, ts);
      assert ts[..1] == [a] && ts[1..] == [b, c];
    }
    LemmaDrainOneOfTwo(a, b, c);
  }

  /** One first-batch test in front of a queue of two starts only the last one. */
  lemma LemmaDrainOneOfTwo<T>(a: T, b: T, c: T)
    ensures Drain([a], [b, c]) == Outcome([a], [a, c], [b])
  {
    var queue := [b, c];
    assert Min(1, 2) == 1;
    assert queue[1..] == [c] && queue[..1] == [b];
    assert Reverse([c]) == [c];
  }

  /** More than twice as many tests as slots always leaves some unrun. */
  lemma LemmaLongQueueStarves<T>(tests: seq<T>, level: int)
    requires 0 < level && 2 * level < |tests|
    ensures |RunTests(Some(tests), Some(level)).neverRun| == |tests| - 2 * level
    ensures |RunTests(Some(tests), Some(level)).result| == level
  {
    LemmaRunTestsOutcome(Some(tests), Some(level));
  }

  // Corrected: every settled test refills its slot
  // --------------------------------------------------------------------------

  /**
   * A runner that keeps its slots full: the tests not yet started, the ones
   * running, and every test started so far.
   */
  datatype Slots<T> = Slots(queue: seq<T>, running: seq<T>, started: seq<T>)

  /** The first `level` tests start together (a level below 1 is treated as 1). */
  function SlotsStart<T>(tests: seq<T>, level: int): (r: Slots<T>)
    ensures r.started + r.queue == tests
    ensures r.running == r.started
  {
    var k := Seqs.Clamp(if level < 1 then 1 else level, 0, |tests|);
    Slots(tests[k..], tests[..k], tests[..k])
  }

  /** The running test at `i` settles and the first queued test, if any, takes its slot. */
  function SlotsSettle<T>(s: Slots<T>, i: nat): (r: Slots<T>)
    requires i < |s.running|
    ensures r.started + r.queue == s.started + s.queue
    ensures |r.running| == if |s.queue| > 0 then |s.running| else |s.running| - 1
  {
    var rest := s.running[..i] + s.running[i + 1..];
    if |s.queue| == 0 then s.(running := rest)
    else
      assert s.started + s.queue == s.started + [s.queue[0]] + s.queue[1..];
      Slots(s.queue[1..], rest + [s.queue[0]], s.started + [s.queue[0]])
  }

  /**
   * What every state of the corrected runner over `tests` satisfies: the
   * tests start in their order, at most `level` run at once, and while any
   * test waits every slot is busy.
   */
  ghost predicate SlotsInvariant<T>(s: Slots<T>, tests: seq<T>, level: int) {
    var k := if level < 1 then 1 else level;
    && s.started + s.queue == tests
    && |s.running| <= k
    && (|s.queue| > 0 ==> |s.running| == k)
  }

  lemma LemmaSlotsInvariant<T>(tests: seq<T>, level: int, s: Slots<T>, i: nat)
    ensures SlotsInvariant(SlotsStart(tests, level), tests, level)
    ensures SlotsInvariant(s, tests, level) && i < |s.running| ==> SlotsInvariant(SlotsSettle(s, i), tests, level)
  {
  }

  /** When nothing runs any more, every test has been started, in order. */
  lemma LemmaSlotsRunAll<T>(s: Slots<T>, tests: seq<T>, level: int)
    requires SlotsInvariant(s, tests, level) && |s.running| == 0
    ensures s.started == tests
  {
  }

  /** Settling the oldest running test until none is left. */
  function SlotsDrain<T>(s: Slots<T>, ghost tests: seq<T>, ghost level: int): (r: Slots<T>)
    requires SlotsInvariant(s, tests, level)
    ensures SlotsInvariant(r, tests, level) && |r.running| == 0
    ensures r.started == tests
    decreases |s.queue| + |s.running|
  {
    if |s.running| == 0 then
      LemmaSlotsRunAll(s, tests, level);
      s
    else
      LemmaSlotsInvariant(tests, level, s, 0);
      SlotsDrain(SlotsSettle(s, 0), tests, level)
  }

  /**
   * The corrected `runTests`: every test is started, in order, and the
   * promise resolves with all of them.
   */
  function RunTestsFixed<T>(tests: Option<seq<T>>, level: Option<int>): (r: Outcome<T>)
    ensures r.result == tests.GetOr([]) && r.started == tests.GetOr([]) && r.neverRun == []
  {
    var ts := tests.GetOr([]);
    LemmaSlotsInvariant(ts, Level(level), Slots([], [], []), 0);
    var s := SlotsDrain(SlotsStart(ts, Level(level)), ts, Level(level));
    Outcome(ts, s.started, s.queue)
  }

  /** The case the original runner gets wrong: with one slot, all three tests run. */
  lemma LemmaFixedRunsMiddleTest<T>(a: T, b: T, c: T)
    ensures RunTestsFixed(Some([a, b, c]), Some(1)) == Outcome([a, b, c], [a, b, c], [])
  {
  }
}
