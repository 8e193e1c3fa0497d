/**
 * The Timer of takeBreak.py: an ordered list of registered policies, each fed
 * the same idle-time sample on every tick. The sample is a parameter here;
 * querying the system for it and the one-second cadence are not modelled.
 */
module Scheduler {
  import opened BreakPolicy

  /** The counters of a list of policies, keyed by object. */
  ghost function BusyOf<C>(funcs: seq<Timeout<C>>): (m: map<Timeout<C>, int>)
    reads funcs
    ensures forall t :: t in funcs ==> t in m && m[t] == t.busy
  {
    map t | t in funcs :: t.busy
  }

  /**
   * The counters and the invocations after feeding `idleTime` to every entry
   * of `funcs` in order, starting from counters `busy`. An object registered
   * twice is fed twice, the second time from the counter the first call left.
   */
  ghost function Fan<C>(funcs: seq<Timeout<C>>, busy: map<Timeout<C>, int>, idleTime: int)
    : (r: (map<Timeout<C>, int>, seq<Invocation<C>>))
    requires forall t :: t in funcs ==> t in busy
    ensures r.0.Keys == busy.Keys
    ensures forall t :: t in busy && t !in funcs ==> r.0[t] == busy[t]
    decreases |funcs|
  {
    if funcs == [] then (busy, [])
    else
      var prefix := funcs[..|funcs| - 1];
      var last := funcs[|funcs| - 1];
      var (m, calls) := Fan(prefix, busy, idleTime);
      var o := Observe(last.settings, m[last], idleTime);
      (m[last := o.busy], calls + o.calls)
  }

  /**
   * The reference meaning of a tick when no policy is registered twice: each
   * policy observes the sample from its own counter, and the invocations come
   * policy by policy in registration order.
   */
  ghost function EachCalls<C>(funcs: seq<Timeout<C>>, busy: map<Timeout<C>, int>, idleTime: int)
    : seq<Invocation<C>>
    requires forall t :: t in funcs ==> t in busy
    decreases |funcs|
  {
    if funcs == [] then []
    else
      var last := funcs[|funcs| - 1];
      EachCalls(funcs[..|funcs| - 1], busy, idleTime) + Observe(last.settings, busy[last], idleTime).calls
  }

  class Timer<C> {
    var funcList: seq<Timeout<C>>

    constructor ()
      ensures funcList == []
    {
      funcList := [];
    }

    /** `add_func`: registers a policy at the end, duplicates included. */
    method AddFunc(func: Timeout<C>)
      modifies this
      ensures funcList == old(funcList) + [func]
    {
      funcList := funcList + [func];
    }

    /** `action`: feeds one sample to every registered policy, in registration order. */
    method Action(idleTime: int) returns (calls: seq<Invocation<C>>)
      requires forall t :: t in funcList ==> t.Valid()
      modifies funcList
      ensures forall t :: t in funcList ==> t.Valid()
      ensures calls == Fan(funcList, old(BusyOf(funcList)), idleTime).1
      ensures forall t :: t in funcList ==> t.busy == Fan(funcList, old(BusyOf(funcList)), idleTime).0[t]
    {
      ghost var start := BusyOf(funcList);
      calls := [];
      var i := 0;
      while i < |funcList|
        invariant 0 <= i <= |funcList|
        invariant forall t :: t in funcList ==> t.Valid()
        invariant calls == Fan(funcList[..i], start, idleTime).1
        invariant forall t :: t in funcList ==> t.busy == Fan(funcList[..i], start, idleTime).0[t]
      {
        var fired := funcList[i].Call(idleTime);
        assert funcList[..i + 1][..i] == funcList[..i];
        calls := calls + fired;
        i := i + 1;
      }
      assert funcList[..i] == funcList;
    }
  }

  /**
   * When no policy is registered twice, a tick gives every policy the
   * identical sample: each ends where observing it from its own counter
   * leads, the others are untouched, and the invocations are those of each
   * policy in registration order.
   */
  lemma {:induction false} FanDistinct<C>(funcs: seq<Timeout<C>>, busy: map<Timeout<C>, int>, idleTime: int)
    requires forall t :: t in funcs ==> t in busy
    requires forall i, j :: 0 <= i < j < |funcs| ==> funcs[i] != funcs[j]
    ensures forall t :: t in funcs ==>
      Fan(funcs, busy, idleTime).0[t] == Observe(t.settings, busy[t], idleTime).busy
    ensures Fan(funcs, busy, idleTime).1 == EachCalls(funcs, busy, idleTime)
    decreases |funcs|
  {
    if funcs != [] {
      var prefix := funcs[..|funcs| - 1];
      var last := funcs[|funcs| - 1];
      FanDistinct(prefix, busy, idleTime);
      assert last !in prefix;
      forall t | t in funcs
        ensures Fan(funcs, busy, idleTime).0[t] == Observe(t.settings, busy[t], idleTime).busy
      {
        if t != last {
          assert t in prefix;
        }
      }
    }
  }

  /** A policy registered twice is fed the sample twice on one tick. */
  lemma RegisteredTwice<C>(t: Timeout<C>, busy: map<Timeout<C>, int>, idleTime: int)
    requires t in busy
    ensures var once := Observe(t.settings, busy[t], idleTime);
      var twice := Observe(t.settings, once.busy, idleTime);
      Fan([t, t], busy, idleTime) == (busy[t := twice.busy], once.calls + twice.calls)
  {
    var once := Observe(t.settings, busy[t], idleTime);
    var twice := Observe(t.settings, once.busy, idleTime);
    assert [t, t][..1] == [t];
    assert [t][..0] == [];
    assert Fan([], busy, idleTime) == (busy, []);
    assert [] + once.calls == once.calls;
    assert Fan([t], busy, idleTime) == (busy[t := once.busy], once.calls);
    assert busy[t := once.busy][t := twice.busy] == busy[t := twice.busy];
  }
}
