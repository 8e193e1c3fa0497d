/**
 * The App of takeBreak.py: the tray-icon state machine, the log of idle
 * counts and the notifications, driven by two break policies registered on
 * one timer. Qt, the icon images and the log file are not modelled: the icon
 * is its name, the log is the sequence of integers written (one per line) and
 * a notification is the value it shows.
 */
module Tray {
  import opened Wrappers
  import opened BreakPolicy
  import opened Scheduler

  /** The three icons: 'green', 'red' and 'red-cross'. */
  datatype Icon = Green | Red | RedCross

  /** The App methods the two policies are given as callbacks. */
  datatype Handler = IdleHandler | ShortBreakHandler | LongBreakHandler

  /** What the App shows and records: the icon, the logged counts, the notified counts. */
  datatype Display = Display(icon: Icon, log: seq<int>, messages: seq<int>)

  /** The short-break policy: 3 minutes of busy ticks, a 30-second break. */
  const ShortBreak: Settings<Handler> := Settings(3 * 60, 30, Some(IdleHandler), Some(ShortBreakHandler))

  /** The long-break policy: 30 minutes of busy ticks, a 5-minute break. */
  const LongBreak: Settings<Handler> := Settings(30 * 60, 5 * 60, Some(IdleHandler), Some(LongBreakHandler))

  /** The icon after `set_red_led`: promotes green only. */
  function RedLed(icon: Icon): Icon {
    if icon == Green then Red else icon
  }

  /** The effect of one callback invocation on what the App shows and records. */
  function Handle(d: Display, inv: Invocation<Handler>): Display {
    match inv.callback
    case ShortBreakHandler => d.(icon := RedLed(d.icon))
    case LongBreakHandler => d.(icon := RedCross)
    case IdleHandler =>
      if d.icon == Green then d
      else Display(Green, d.log + [inv.arg], d.messages + [inv.arg])
  }

  /** The effect of a sequence of invocations, delivered in order. */
  function HandleAll(d: Display, invs: seq<Invocation<Handler>>): Display
    decreases |invs|
  {
    if invs == [] then d
    else Handle(HandleAll(d, invs[..|invs| - 1]), invs[|invs| - 1])
  }

  /** The arguments of the idle-callback invocations among `invs`, in order. */
  function IdleArgs(invs: seq<Invocation<Handler>>): seq<int>
    decreases |invs|
  {
    if invs == [] then []
    else
      var last := invs[|invs| - 1];
      IdleArgs(invs[..|invs| - 1]) + if last.callback == IdleHandler then [last.arg] else []
  }

  /** The invocations of one tick: the short policy's, then the long policy's. */
  function TickCalls(shortBusy: int, longBusy: int, idleTime: int): seq<Invocation<Handler>> {
    Observe(ShortBreak, shortBusy, idleTime).calls + Observe(LongBreak, longBusy, idleTime).calls
  }

  class App {
    var trayIcon: Icon
    var log: seq<int>
    var messages: seq<int>
    const timer: Timer<Handler>
    ghost const shortPolicy: Timeout<Handler>
    ghost const longPolicy: Timeout<Handler>

    function State(): Display
      reads this
    {
      Display(trayIcon, log, messages)
    }

    ghost predicate Valid()
      reads this, timer, shortPolicy, longPolicy
    {
      timer.funcList == [shortPolicy, longPolicy] &&
      shortPolicy.settings == ShortBreak && longPolicy.settings == LongBreak &&
      shortPolicy.Valid() && longPolicy.Valid()
    }

    /** Starts green with an empty log and registers the short policy, then the long one. */
    constructor ()
      ensures Valid() && fresh(timer) && fresh(shortPolicy) && fresh(longPolicy)
      ensures State() == Display(Green, [], [])
      ensures shortPolicy.busy == 0 && longPolicy.busy == 0
    {
      trayIcon := Green;
      log := [];
      messages := [];
      var t := new Timer();
      var s := new Timeout(3 * 60, 30, Some(IdleHandler), Some(ShortBreakHandler));
      var l := new Timeout(30 * 60, 5 * 60, Some(IdleHandler), Some(LongBreakHandler));
      t.AddFunc(s);
      t.AddFunc(l);
      timer := t;
      shortPolicy := s;
      longPolicy := l;
    }

    method SetGreenLed()
      modifies this
      ensures trayIcon == Green && log == old(log) && messages == old(messages)
    {
      trayIcon := Green;
    }

    method SetRedLed()
      modifies this
      ensures trayIcon == RedLed(old(trayIcon)) && log == old(log) && messages == old(messages)
    {
      if trayIcon == Green {
        trayIcon := Red;
      }
    }

    method SetRedCross()
      modifies this
      ensures trayIcon == RedCross && log == old(log) && messages == old(messages)
    {
      trayIcon := RedCross;
    }

    method ShortBreakCallback(busy: int)
      modifies this
      ensures State() == Handle(old(State()), Invocation(ShortBreakHandler, busy))
    {
      SetRedLed();
    }

    method LongBreakCallback(busy: int)
      modifies this
      ensures State() == Handle(old(State()), Invocation(LongBreakHandler, busy))
    {
      SetRedCross();
    }

    /** Notifies, logs and turns green, unless the icon is already green. */
    method IdleCallback(idle: int)
      modifies this
      ensures State() == Handle(old(State()), Invocation(IdleHandler, idle))
    {
      if trayIcon != Green {
        messages := messages + [idle];
        log := log + [idle];
        SetGreenLed();
      }
    }

    /** Calls the bound App method of each invocation, in order. */
    method Deliver(calls: seq<Invocation<Handler>>)
      modifies this
      ensures State() == HandleAll(old(State()), calls)
    {
      var i := 0;
      while i < |calls|
        invariant 0 <= i <= |calls|
        invariant State() == HandleAll(old(State()), calls[..i])
      {
        assert calls[..i + 1][..i] == calls[..i];
        match calls[i].callback {
          case IdleHandler => IdleCallback(calls[i].arg);
          case ShortBreakHandler => ShortBreakCallback(calls[i].arg);
          case LongBreakHandler => LongBreakCallback(calls[i].arg);
        }
        i := i + 1;
      }
      assert calls[..i] == calls;
    }

    /** One timer tick with sample `idleTime`: both policies observe it, then their callbacks run. */
    method Tick(idleTime: int)
      requires Valid()
      modifies this, shortPolicy, longPolicy
      ensures Valid()
      ensures shortPolicy.busy == Observe(ShortBreak, old(shortPolicy.busy), idleTime).busy
      ensures longPolicy.busy == Observe(LongBreak, old(longPolicy.busy), idleTime).busy
      ensures State() == HandleAll(old(State()), TickCalls(old(shortPolicy.busy), old(longPolicy.busy), idleTime))
    {
      ghost var start := BusyOf(timer.funcList);
      var calls := timer.Action(idleTime);
      FanDistinct(timer.funcList, start, idleTime);
      assert [shortPolicy, longPolicy][..1] == [shortPolicy];
      assert [shortPolicy][..0] == [];
      assert EachCalls([], start, idleTime) == [];
      assert EachCalls([shortPolicy], start, idleTime) == Observe(ShortBreak, old(shortPolicy.busy), idleTime).calls;
      assert calls == TickCalls(old(shortPolicy.busy), old(longPolicy.busy), idleTime);
      Deliver(calls);
    }
  }

  // ---------------------------------------------------------------------
  // The icon and the callbacks

  /** `set_red_led` changes only a green icon, and setting it twice is setting it once. */
  lemma RedLedOnlyPromotesGreen(icon: Icon)
    ensures icon == Green ==> RedLed(icon) == Red
    ensures icon != Green ==> RedLed(icon) == icon
    ensures RedLed(RedLed(icon)) == RedLed(icon)
  {
  }

  /** Each callback is idempotent: a repeated invocation changes nothing more. */
  lemma HandleIdempotent(d: Display, inv: Invocation<Handler>)
    ensures Handle(Handle(d, inv), inv) == Handle(d, inv)
  {
  }

  /** The long break's red cross wins over the short break's red, in either order. */
  lemma EscalationWins(d: Display, shortBusy: int, longBusy: int)
    ensures Handle(Handle(d, Invocation(ShortBreakHandler, shortBusy)), Invocation(LongBreakHandler, longBusy)).icon == RedCross
    ensures Handle(Handle(d, Invocation(LongBreakHandler, longBusy)), Invocation(ShortBreakHandler, shortBusy)).icon == RedCross
  {
  }

  /**
   * The idle callback does nothing on a green icon; otherwise it notifies and
   * logs exactly the value passed and turns the icon green.
   */
  lemma IdleCallbackEffect(d: Display, idle: int)
    ensures var r := Handle(d, Invocation(IdleHandler, idle));
      (d.icon == Green ==> r == d) &&
      (d.icon != Green ==> r.icon == Green && r.log == d.log + [idle] && r.messages == d.messages + [idle])
  {
  }

  // ---------------------------------------------------------------------
  // Sequences of invocations

  /** Delivering `a` and then `b` is delivering `a + b`. */
  lemma {:induction false} HandleAllAppend(d: Display, a: seq<Invocation<Handler>>, b: seq<Invocation<Handler>>)
    ensures HandleAll(d, a + b) == HandleAll(HandleAll(d, a), b)
    decreases |b|
  {
    if b == [] {
      assert a + b == a;
    } else {
      assert (a + b)[..|a + b| - 1] == a + b[..|b| - 1];
      HandleAllAppend(d, a, b[..|b| - 1]);
    }
  }

  /**
   * The log is append-only, every value appended is also notified, at most
   * one value is appended per idle-callback invocation, and every value
   * appended is the argument of one of them.
   */
  lemma {:induction false} HandleAllLogs(d: Display, invs: seq<Invocation<Handler>>)
    ensures var r := HandleAll(d, invs);
      |d.log| <= |r.log| && r.log[..|d.log|] == d.log &&
      |d.messages| <= |r.messages| && r.messages[..|d.messages|] == d.messages &&
      r.log[|d.log|..] == r.messages[|d.messages|..] &&
      |r.log| - |d.log| <= |IdleArgs(invs)| &&
      forall k :: |d.log| <= k < |r.log| ==> r.log[k] in IdleArgs(invs)
    decreases |invs|
  {
    if invs != [] {
      var prefix := invs[..|invs| - 1];
      HandleAllLogs(d, prefix);
      var before := HandleAll(d, prefix);
      var r := HandleAll(d, invs);
      if invs[|invs| - 1].callback == IdleHandler && before.icon != Green {
        assert r.log == before.log + [invs[|invs| - 1].arg];
        assert r.messages == before.messages + [invs[|invs| - 1].arg];
        assert r.log[|d.log|..] == before.log[|d.log|..] + [invs[|invs| - 1].arg];
        assert r.messages[|d.messages|..] == before.messages[|d.messages|..] + [invs[|invs| - 1].arg];
      }
    }
  }

  lemma HandleAllPair(d: Display, x: Invocation<Handler>, y: Invocation<Handler>)
    ensures HandleAll(d, []) == d
    ensures HandleAll(d, [x]) == Handle(d, x)
    ensures HandleAll(d, [x, y]) == Handle(Handle(d, x), y)
  {
  }

  // ---------------------------------------------------------------------
  // Ticks of the App's two policies

  /**
   * A tick with input in the last second logs and notifies nothing, and a
   * warning icon stays a warning: red or red-cross is never cleared by it.
   */
  lemma ActiveTickKeepsWarning(d: Display, shortBusy: int, longBusy: int, idleTime: int)
    requires Active(idleTime)
    ensures var r := HandleAll(d, TickCalls(shortBusy, longBusy, idleTime));
      r.log == d.log && r.messages == d.messages &&
      (d.icon != Green ==> r.icon != Green) &&
      (d.icon == RedCross ==> r.icon == RedCross)
  {
    var sc := Observe(ShortBreak, shortBusy, idleTime).calls;
    var lc := Observe(LongBreak, longBusy, idleTime).calls;
    HandleAllAppend(d, sc, lc);
    var x := Invocation(ShortBreakHandler, shortBusy + 1);
    var y := Invocation(LongBreakHandler, longBusy + 1);
    HandleAllPair(d, x, y);
    HandleAllPair(HandleAll(d, sc), y, y);
  }

  /**
   * A tick beyond the long break resets both counters and leaves the icon
   * green, whatever came before.
   */
  lemma LongRestClears(d: Display, shortBusy: int, longBusy: int, idleTime: int)
    requires idleTime > 5 * 60 * 1000
    ensures Observe(ShortBreak, shortBusy, idleTime).busy == 0
    ensures Observe(LongBreak, longBusy, idleTime).busy == 0
    ensures HandleAll(d, TickCalls(shortBusy, longBusy, idleTime)).icon == Green
  {
  }

  /**
   * The first warning: on a green icon, the active tick that takes the short
   * count past 3 minutes turns the icon red while the long count stays below
   * its threshold.
   */
  lemma ShortWarningTurnsRed(d: Display, shortBusy: int, longBusy: int, idleTime: int)
    requires d.icon == Green && Active(idleTime)
    requires shortBusy + 1 > 3 * 60 && longBusy + 1 <= 30 * 60
    ensures HandleAll(d, TickCalls(shortBusy, longBusy, idleTime)) == d.(icon := Red)
  {
  }

  /**
   * Neither callback is latched: once the long break has turned the icon to
   * red-cross, a tick idle between 30 seconds and 5 minutes with the short
   * count at 0 (that is, every such tick after the first) has the short
   * policy's idle callback log and notify a 0 and clear the icon, and the long
   * policy's break callback set red-cross again.
   */
  lemma RedCrossIdleTickLogsZero(d: Display, longBusy: int, idleTime: int)
    requires d.icon == RedCross && longBusy > 30 * 60
    requires 30 * 1000 < idleTime <= 5 * 60 * 1000
    ensures Observe(ShortBreak, 0, idleTime).busy == 0
    ensures Observe(LongBreak, longBusy, idleTime).busy == longBusy
    ensures HandleAll(d, TickCalls(0, longBusy, idleTime)) ==
      Display(RedCross, d.log + [0], d.messages + [0])
  {
    var x := Invocation(IdleHandler, 0);
    var y := Invocation(LongBreakHandler, longBusy);
    assert TickCalls(0, longBusy, idleTime) == [x, y];
    HandleAllPair(d, x, y);
  }
}
