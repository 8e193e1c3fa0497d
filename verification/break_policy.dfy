/**
 * The break policy of takeBreak.py (class Timeout): one busy counter and two
 * thresholds. Each idle-time sample (milliseconds since the last input) may
 * raise the counter, fire the break callback and fire the idle callback, which
 * also resets the counter.
 *
 * Callbacks are identities of an arbitrary type C; a call returns, in order,
 * the callback invocations it makes with their argument, instead of calling
 * foreign code.
 */
module BreakPolicy {
  import opened Wrappers

  /** One call of a callback with its argument. */
  datatype Invocation<C> = Invocation(callback: C, arg: int)

  /**
   * The constructor arguments of a Timeout: the busy threshold in ticks, the
   * break length in seconds and the two optional callbacks. No value is
   * rejected: the source does not validate them.
   */
  datatype Settings<C> = Settings(
    maxBusyTime: int,
    breakTime: int,
    idleCallback: Option<C>,
    breakCallback: Option<C>)

  /** The counter after one or more samples, and the invocations made meanwhile. */
  datatype Outcome<C> = Outcome(busy: int, calls: seq<Invocation<C>>)

  /** The user produced input within the last second. */
  predicate Active(idleTime: int) {
    idleTime < 1000
  }

  /** The user has been idle for longer than the break length. */
  predicate Rested<C>(s: Settings<C>, idleTime: int) {
    idleTime > s.breakTime * 1000
  }

  /** The counter once the activity check of a sample has run. */
  function Counted(busy: int, idleTime: int): int {
    if Active(idleTime) then busy + 1 else busy
  }

  /**
   * One call of the policy on a sample, from counter `busy`: activity check,
   * then break check, then idle check and reset.
   */
  function Observe<C>(s: Settings<C>, busy: int, idleTime: int): (r: Outcome<C>)
    ensures busy >= 0 ==> r.busy >= 0
    ensures r.busy == 0 || r.busy == busy || r.busy == busy + 1
    ensures |r.calls| <= 2
  {
    var b := Counted(busy, idleTime);
    var onBreak := if b > s.maxBusyTime && s.breakCallback.Some?
                   then [Invocation(s.breakCallback.value, b)] else [];
    if Rested(s, idleTime) then
      var onIdle := if s.idleCallback.Some? then [Invocation(s.idleCallback.value, b)] else [];
      Outcome(0, onBreak + onIdle)
    else
      Outcome(b, onBreak)
  }

  /** The policy fed a stream of samples, one call per sample, in order. */
  function Run<C>(s: Settings<C>, busy: int, samples: seq<int>): Outcome<C>
    decreases |samples|
  {
    if samples == [] then Outcome(busy, [])
    else
      var first := Observe(s, busy, samples[0]);
      var rest := Run(s, first.busy, samples[1..]);
      Outcome(rest.busy, first.calls + rest.calls)
  }

  /**
   * The break invocations made by `n` consecutive active samples starting
   * from counter `busy`: one per sample whose count exceeds `maxBusy`, each
   * with that count.
   */
  function BreakSeries<C>(cb: Option<C>, busy: int, maxBusy: int, n: nat): seq<Invocation<C>> {
    if cb.None? then []
    else
      var lo := if busy < maxBusy then maxBusy else busy;
      var count := if busy + n > lo then busy + n - lo else 0;
      seq(count, i requires 0 <= i < count => Invocation(cb.value, lo + 1 + i))
  }

  /**
   * The idle invocations made by `n` consecutive rested samples starting from
   * counter `busy`: the first carries `busy`, every later one 0.
   */
  function IdleSeries<C>(cb: Option<C>, busy: int, n: nat): seq<Invocation<C>>
    requires n >= 1
  {
    if cb.None? then []
    else [Invocation(cb.value, busy)] + seq(n - 1, i => Invocation(cb.value, 0))
  }

  /** An object of the source's Timeout class. */
  class Timeout<C> {
    const settings: Settings<C>
    var busy: int

    ghost predicate Valid()
      reads this
    {
      busy >= 0
    }

    constructor (maxBusyTime: int := 10, breakTime: int := 10,
                 idleCallback: Option<C> := None, breakCallback: Option<C> := None)
      ensures Valid()
      ensures settings == Settings(maxBusyTime, breakTime, idleCallback, breakCallback)
      ensures busy == 0
    {
      settings := Settings(maxBusyTime, breakTime, idleCallback, breakCallback);
      busy := 0;
    }

    /** `__call__`: feeds one idle-time sample to the policy. */
    method Call(idleTime: int) returns (calls: seq<Invocation<C>>)
      requires Valid()
      modifies this
      ensures Valid()
      ensures busy == Observe(settings, old(busy), idleTime).busy
      ensures calls == Observe(settings, old(busy), idleTime).calls
    {
      calls := [];
      if idleTime < 1000 {
        busy := busy + 1;
      }
      if busy > settings.maxBusyTime {
        if settings.breakCallback.Some? {
          calls := calls + [Invocation(settings.breakCallback.value, busy)];
        }
      }
      if idleTime > settings.breakTime * 1000 {
        if settings.idleCallback.Some? {
          calls := calls + [Invocation(settings.idleCallback.value, busy)];
        }
        busy := 0;
      }
    }
  }

  // ---------------------------------------------------------------------
  // One call

  /** An active sample raises the counter by one before anything else looks at it. */
  lemma ActiveSampleCounts<C>(s: Settings<C>, busy: int, idleTime: int)
    requires Active(idleTime)
    ensures var r := Observe(s, busy, idleTime);
      (forall k :: 0 <= k < |r.calls| ==> r.calls[k].arg == busy + 1) &&
      (!Rested(s, idleTime) ==> r.busy == busy + 1)
  {
  }

  /**
   * A sample of at least a second that is not beyond the break length keeps
   * the counter and fires at most the break callback.
   */
  lemma QuietSampleKeepsCount<C>(s: Settings<C>, busy: int, idleTime: int)
    requires 1000 <= idleTime <= s.breakTime * 1000
    ensures var r := Observe(s, busy, idleTime);
      r.busy == busy &&
      r.calls == if busy > s.maxBusyTime && s.breakCallback.Some?
                 then [Invocation(s.breakCallback.value, busy)] else []
  {
  }

  /**
   * The break callback fires, first, with the current count on every call
   * whose count exceeds the threshold; when the count does not, only the idle
   * callback can fire.
   */
  lemma BreakCallbackLevelTriggered<C>(s: Settings<C>, busy: int, idleTime: int)
    ensures var r := Observe(s, busy, idleTime);
      var b := Counted(busy, idleTime);
      (b > s.maxBusyTime && s.breakCallback.Some? ==>
         |r.calls| >= 1 && r.calls[0] == Invocation(s.breakCallback.value, b)) &&
      (b <= s.maxBusyTime ==>
         r.calls == if Rested(s, idleTime) && s.idleCallback.Some?
                    then [Invocation(s.idleCallback.value, b)] else [])
  {
  }

  /**
   * A sample beyond the break length fires the idle callback last, with the
   * count before the reset, and leaves the counter at 0; any other sample
   * keeps the count and fires nothing but the break callback.
   */
  lemma IdleCallbackResets<C>(s: Settings<C>, busy: int, idleTime: int)
    ensures var r := Observe(s, busy, idleTime);
      var b := Counted(busy, idleTime);
      (Rested(s, idleTime) ==> r.busy == 0) &&
      (Rested(s, idleTime) && s.idleCallback.Some? ==>
         |r.calls| >= 1 && r.calls[|r.calls| - 1] == Invocation(s.idleCallback.value, b)) &&
      (!Rested(s, idleTime) ==>
         r.busy == b &&
         r.calls == if b > s.maxBusyTime && s.breakCallback.Some?
                    then [Invocation(s.breakCallback.value, b)] else [])
  {
  }

  /** The break check runs before the reset: one call can fire both, with the same count. */
  lemma BreakBeforeReset<C>(s: Settings<C>, busy: int, idleTime: int)
    requires Counted(busy, idleTime) > s.maxBusyTime && Rested(s, idleTime)
    requires s.breakCallback.Some? && s.idleCallback.Some?
    ensures var b := Counted(busy, idleTime);
      Observe(s, busy, idleTime) ==
        Outcome(0, [Invocation(s.breakCallback.value, b), Invocation(s.idleCallback.value, b)])
  {
  }

  // ---------------------------------------------------------------------
  // Streams of samples

  /** Feeding `a` and then `b` is feeding `a + b`. */
  lemma {:induction false} RunAppend<C>(s: Settings<C>, busy: int, a: seq<int>, b: seq<int>)
    ensures var ra := Run(s, busy, a);
      var rb := Run(s, ra.busy, b);
      Run(s, busy, a + b) == Outcome(rb.busy, ra.calls + rb.calls)
    decreases |a|
  {
    if a != [] {
      assert (a + b)[0] == a[0];
      assert (a + b)[1..] == a[1..] + b;
      RunAppend(s, Observe(s, busy, a[0]).busy, a[1..], b);
    } else {
      assert a + b == b;
    }
  }

  /** The counter is never negative: it starts at 0 and is only raised by one or reset. */
  lemma {:induction false} RunNonNegative<C>(s: Settings<C>, busy: int, samples: seq<int>)
    requires busy >= 0
    ensures Run(s, busy, samples).busy >= 0
    decreases |samples|
  {
    if samples != [] {
      RunNonNegative(s, Observe(s, busy, samples[0]).busy, samples[1..]);
    }
  }

  lemma BreakSeriesStep<C>(cb: Option<C>, busy: int, maxBusy: int, n: nat)
    requires n >= 1
    ensures BreakSeries(cb, busy, maxBusy, n) ==
      (if busy + 1 > maxBusy && cb.Some? then [Invocation(cb.value, busy + 1)] else []) +
      BreakSeries(cb, busy + 1, maxBusy, n - 1)
  {
  }

  /**
   * Active samples only accumulate: after n of them the counter has grown by
   * n, and the break callback has fired on every sample whose count exceeded
   * the threshold, with that count.
   */
  lemma {:induction false} RunActiveAccumulates<C>(s: Settings<C>, busy: int, samples: seq<int>)
    requires s.breakTime >= 1
    requires forall k :: 0 <= k < |samples| ==> Active(samples[k])
    ensures Run(s, busy, samples) ==
      Outcome(busy + |samples|, BreakSeries(s.breakCallback, busy, s.maxBusyTime, |samples|))
    decreases |samples|
  {
    if samples != [] {
      RunActiveAccumulates(s, busy + 1, samples[1..]);
      BreakSeriesStep(s.breakCallback, busy, s.maxBusyTime, |samples|);
    }
  }

  /**
   * The idle callback has no latch either: while the user stays idle beyond
   * the break length it fires on every sample, first with the accumulated
   * count and then with 0. A rest that starts above the threshold first
   * fires the break callback once more, with that count.
   */
  lemma {:induction false} RunRestedRepeats<C>(s: Settings<C>, busy: int, samples: seq<int>)
    requires 0 <= s.maxBusyTime
    requires samples != []
    requires forall k :: 0 <= k < |samples| ==> !Active(samples[k]) && Rested(s, samples[k])
    ensures Run(s, busy, samples) ==
      Outcome(0, (if busy > s.maxBusyTime && s.breakCallback.Some?
                  then [Invocation(s.breakCallback.value, busy)] else []) +
                 IdleSeries(s.idleCallback, busy, |samples|))
    decreases |samples|
  {
    if |samples| > 1 {
      RunRestedRepeats(s, 0, samples[1..]);
      if s.idleCallback.Some? {
        var cb := s.idleCallback.value;
        assert IdleSeries(s.idleCallback, 0, |samples| - 1) ==
          [Invocation(cb, 0)] + seq(|samples| - 2, i => Invocation(cb, 0));
        assert seq(|samples| - 1, i => Invocation(cb, 0)) ==
          [Invocation(cb, 0)] + seq(|samples| - 2, i => Invocation(cb, 0));
      }
    }
  }

  /**
   * With a threshold of 3 ticks and a break of 30 s, four active samples make
   * the count 4 and fire the break callback once, on the fourth; a sample of
   * 40 s then fires the break callback again (the count is still 4) and the
   * idle callback with 4, and resets the count.
   */
  lemma ThresholdScenario<C>(onIdle: C, onBreak: C)
    ensures var s := Settings(3, 30, Some(onIdle), Some(onBreak));
      Run(s, 0, [500, 500, 500, 500]) == Outcome(4, [Invocation(onBreak, 4)]) &&
      Run(s, 0, [500, 500, 500, 500, 40000]) ==
        Outcome(0, [Invocation(onBreak, 4), Invocation(onBreak, 4), Invocation(onIdle, 4)])
  {
  }
}
