/** The update-check thread of update_notifier_tray/cli.py, run sequentially.

    The thread and the UI context meet only at the exit flag.  The model fixes
    when the UI's `stop()` arrives by counting the thread's tests of that flag
    (the test of the `while` and the test before every one-second sleep): the
    flag is set just before test number `exitAt`, so the stop can land while a
    probe is in flight or while the thread sleeps.  The k-th probe call's
    outcome is `probe(k)`; a sleep is one `Slept` event. */
module CheckThread {
  import opened TrayIcon
  import Distro

  /** The count published when the probe fails, so that a broken probe still
      shows the icon ("avoid update starvation"). */
  const ProbeErrorCount: int := 9999

  /** What one call of get_updateable_package_count gave: a count, or the
      subprocess.CalledProcessError the loop catches. */
  datatype ProbeOutcome = Counted(count: nat) | CalledProcessError

  /** The count the loop publishes for one probe outcome. */
  function PublishedCount(outcome: ProbeOutcome): int {
    match outcome
    case Counted(n) => n
    case CalledProcessError => ProbeErrorCount
  }

  /** What the thread does, in order: publish a count, sleep one second; and
      the moment the UI context's `stop()` sets the exit flag. */
  datatype Event = Published(count: int) | Slept | StopRequested

  /** The stop request, if it arrives just before flag test number `test`. */
  function StopBefore(test: nat, exitAt: nat): seq<Event> {
    if test == exitAt then [StopRequested] else []
  }

  /** The events from the `while` test numbered `tests` on, when `probes`
      probes have been made. */
  function LoopTrace(probe: nat -> ProbeOutcome, interval: nat, exitAt: nat, probes: nat, tests: nat): seq<Event>
    requires tests <= exitAt
    decreases exitAt - tests, 0
  {
    if tests == exitAt then []
    else
      StopBefore(tests + 1, exitAt) + [Published(PublishedCount(probe(probes)))]
      + WaitTrace(probe, interval, exitAt, probes + 1, tests + 1, interval)
  }

  /** The events from the `for` test numbered `tests` on, with `remaining`
      sleeps of the interval left. */
  function WaitTrace(probe: nat -> ProbeOutcome, interval: nat, exitAt: nat, probes: nat, tests: nat, remaining: nat): seq<Event>
    requires tests <= exitAt
    decreases exitAt - tests, 1
  {
    if remaining == 0 then LoopTrace(probe, interval, exitAt, probes, tests)
    else if tests == exitAt then []
    else StopBefore(tests + 1, exitAt) + [Slept] + WaitTrace(probe, interval, exitAt, probes, tests + 1, remaining - 1)
  }

  /** Everything the thread does from start to exit. */
  function RunTrace(probe: nat -> ProbeOutcome, interval: nat, exitAt: nat): seq<Event> {
    StopBefore(0, exitAt) + LoopTrace(probe, interval, exitAt, 0, 0)
  }

  /** The counts published in `trace`, in order. */
  function PublishedCounts(trace: seq<Event>): seq<int>
    decreases |trace|
  {
    if trace == [] then []
    else (if trace[0].Published? then [trace[0].count] else []) + PublishedCounts(trace[1..])
  }

  /** The thread's own steps in `trace`: everything but the stop request. */
  function Steps(trace: seq<Event>): seq<Event>
    decreases |trace|
  {
    if trace == [] then []
    else (if trace[0] == StopRequested then [] else [trace[0]]) + Steps(trace[1..])
  }

  /** The reference schedule: `n` steps of a fixed period that sleeps `due`
      seconds, publishes the outcome of probe `probes`, then sleeps `interval`
      seconds before each next publish. */
  function Periodic(probe: nat -> ProbeOutcome, interval: nat, probes: nat, due: nat, n: nat): (steps: seq<Event>)
    ensures |steps| == n
    decreases n
  {
    if n == 0 then []
    else if due == 0 then [Published(PublishedCount(probe(probes)))] + Periodic(probe, interval, probes + 1, interval, n - 1)
    else [Slept] + Periodic(probe, interval, probes, due - 1, n - 1)
  }

  lemma {:induction false} PublishedCountsAppend(t1: seq<Event>, t2: seq<Event>)
    ensures PublishedCounts(t1 + t2) == PublishedCounts(t1) + PublishedCounts(t2)
    decreases |t1|
  {
    if t1 == [] {
      assert t1 + t2 == t2;
    } else {
      assert (t1 + t2)[0] == t1[0];
      assert (t1 + t2)[1..] == t1[1..] + t2;
      PublishedCountsAppend(t1[1..], t2);
    }
  }

  lemma PublishedCountsSnoc(t: seq<Event>, e: Event)
    ensures e.Published? ==> PublishedCounts(t + [e]) == PublishedCounts(t) + [e.count]
    ensures !e.Published? ==> PublishedCounts(t + [e]) == PublishedCounts(t)
  {
    PublishedCountsAppend(t, [e]);
    assert [e][1..] == [];
    assert PublishedCounts([e]) == (if e.Published? then [e.count] else []) + PublishedCounts([]);
  }

  /** The thread's trace before test `tests + 1` of the `while`, from a state
      that leaves `rest` to come, and after it. */
  lemma LoopStep(probe: nat -> ProbeOutcome, interval: nat, exitAt: nat, probes: nat, tests: nat, done: seq<Event>)
    requires tests < exitAt
    ensures done + LoopTrace(probe, interval, exitAt, probes, tests)
         == done + StopBefore(tests + 1, exitAt) + [Published(PublishedCount(probe(probes)))]
            + WaitTrace(probe, interval, exitAt, probes + 1, tests + 1, interval)
  {
  }

  lemma WaitStep(probe: nat -> ProbeOutcome, interval: nat, exitAt: nat, probes: nat, tests: nat, remaining: nat, done: seq<Event>)
    requires tests < exitAt && remaining > 0
    ensures done + WaitTrace(probe, interval, exitAt, probes, tests, remaining)
         == done + StopBefore(tests + 1, exitAt) + [Slept] + WaitTrace(probe, interval, exitAt, probes, tests + 1, remaining - 1)
  {
  }

  lemma {:induction false} StepsAppend(t1: seq<Event>, t2: seq<Event>)
    ensures Steps(t1 + t2) == Steps(t1) + Steps(t2)
    decreases |t1|
  {
    if t1 == [] {
      assert t1 + t2 == t2;
    } else {
      assert (t1 + t2)[0] == t1[0];
      assert (t1 + t2)[1..] == t1[1..] + t2;
      StepsAppend(t1[1..], t2);
    }
  }

  lemma {:induction false} LoopFollowsPeriod(probe: nat -> ProbeOutcome, interval: nat, exitAt: nat, probes: nat, tests: nat)
    requires tests <= exitAt
    ensures Steps(LoopTrace(probe, interval, exitAt, probes, tests)) == Periodic(probe, interval, probes, 0, exitAt - tests)
    decreases exitAt - tests, 0
  {
    if tests < exitAt {
      var p := [Published(PublishedCount(probe(probes)))];
      var w := WaitTrace(probe, interval, exitAt, probes + 1, tests + 1, interval);
      WaitFollowsPeriod(probe, interval, exitAt, probes + 1, tests + 1, interval);
      StepsAppend(StopBefore(tests + 1, exitAt), p);
      StepsAppend(StopBefore(tests + 1, exitAt) + p, w);
    }
  }

  lemma {:induction false} WaitFollowsPeriod(probe: nat -> ProbeOutcome, interval: nat, exitAt: nat, probes: nat, tests: nat, remaining: nat)
    requires tests <= exitAt
    ensures Steps(WaitTrace(probe, interval, exitAt, probes, tests, remaining)) == Periodic(probe, interval, probes, remaining, exitAt - tests)
    decreases exitAt - tests, 1
  {
    if remaining == 0 {
      LoopFollowsPeriod(probe, interval, exitAt, probes, tests);
    } else if tests < exitAt {
      var w := WaitTrace(probe, interval, exitAt, probes, tests + 1, remaining - 1);
      WaitFollowsPeriod(probe, interval, exitAt, probes, tests + 1, remaining - 1);
      StepsAppend(StopBefore(tests + 1, exitAt), [Slept]);
      StepsAppend(StopBefore(tests + 1, exitAt) + [Slept], w);
    }
  }

  /** The thread's steps are exactly the first `exitAt` steps of the fixed
      period: publish, sleep `interval` seconds, publish the next probe's count,
      and so on.  A stop request only cuts the period short; a failing probe
      never changes it. */
  lemma RunFollowsPeriod(probe: nat -> ProbeOutcome, interval: nat, exitAt: nat)
    ensures Steps(RunTrace(probe, interval, exitAt)) == Periodic(probe, interval, 0, 0, exitAt)
  {
    LoopFollowsPeriod(probe, interval, exitAt, 0, 0);
    StepsAppend(StopBefore(0, exitAt), LoopTrace(probe, interval, exitAt, 0, 0));
  }

  /** The k-th count a period publishes is the outcome of the k-th probe made
      in it, with 9999 for a probe that failed. */
  lemma {:induction false} PeriodicPublishesProbesInOrder(probe: nat -> ProbeOutcome, interval: nat, probes: nat, due: nat, n: nat)
    ensures forall k :: 0 <= k < |PublishedCounts(Periodic(probe, interval, probes, due, n))| ==>
      PublishedCounts(Periodic(probe, interval, probes, due, n))[k] == PublishedCount(probe(probes + k))
    decreases n
  {
    if n > 0 {
      var head := if due == 0 then Published(PublishedCount(probe(probes))) else Slept;
      var rest := if due == 0 then Periodic(probe, interval, probes + 1, interval, n - 1)
                  else Periodic(probe, interval, probes, due - 1, n - 1);
      if due == 0 {
        PeriodicPublishesProbesInOrder(probe, interval, probes + 1, interval, n - 1);
      } else {
        PeriodicPublishesProbesInOrder(probe, interval, probes, due - 1, n - 1);
      }
      assert Periodic(probe, interval, probes, due, n) == [head] + rest;
      PublishedCountsAppend([head], rest);
    }
  }

  /** The thread publishes the probes' outcomes in the order the probes were
      made, 9999 standing for a failed probe. */
  lemma RunPublishesProbesInOrder(probe: nat -> ProbeOutcome, interval: nat, exitAt: nat)
    ensures forall k :: 0 <= k < |PublishedCounts(RunTrace(probe, interval, exitAt))| ==>
      PublishedCounts(RunTrace(probe, interval, exitAt))[k] == PublishedCount(probe(k))
  {
    var t := RunTrace(probe, interval, exitAt);
    RunFollowsPeriod(probe, interval, exitAt);
    PublishedCountsOfSteps(t);
    PeriodicPublishesProbesInOrder(probe, interval, 0, 0, exitAt);
  }

  lemma {:induction false} PublishedCountsOfSteps(t: seq<Event>)
    ensures PublishedCounts(Steps(t)) == PublishedCounts(t)
    decreases |t|
  {
    if t != [] {
      PublishedCountsOfSteps(t[1..]);
      var h := if t[0] == StopRequested then [] else [t[0]];
      PublishedCountsAppend(h, Steps(t[1..]));
    }
  }

  lemma MultipleBounds(d: int, k: int)
    requires k > 0
    ensures d >= 1 ==> d * k >= k
    ensures d <= -1 ==> d * k <= -k
  {
    if d >= 1 {
      assert d * k == (d - 1) * k + k;
    } else if d <= -1 {
      assert d * k == (d + 1) * k - k;
    }
  }

  lemma DivisionUnique(a: int, k: int, q: int, r: int)
    requires k > 0 && 0 <= r < k && a == q * k + r
    ensures a / k == q
  {
    var q', r' := a / k, a % k;
    assert (q - q') * k == r' - r;
    MultipleBounds(q - q', k);
  }

  lemma DivisionStep(x: int, k: int)
    requires x >= 0 && k > 0
    ensures (x + k) / k == x / k + 1
  {
    var q, r := x / k, x % k;
    assert x + k == (q + 1) * k + r;
    DivisionUnique(x + k, k, q + 1, r);
  }

  /** In `n` steps of a period `due` seconds away from its next publish, the
      number of publishes is (n + interval - due) / (interval + 1). */
  lemma {:induction false} PeriodicPublishCount(probe: nat -> ProbeOutcome, interval: nat, probes: nat, due: nat, n: nat)
    requires due <= interval
    ensures |PublishedCounts(Periodic(probe, interval, probes, due, n))| == (n + interval - due) / (interval + 1)
    decreases n
  {
    if n > 0 {
      var head := if due == 0 then Published(PublishedCount(probe(probes))) else Slept;
      var rest := if due == 0 then Periodic(probe, interval, probes + 1, interval, n - 1)
                  else Periodic(probe, interval, probes, due - 1, n - 1);
      assert Periodic(probe, interval, probes, due, n) == [head] + rest;
      PublishedCountsAppend([head], rest);
      if due == 0 {
        PeriodicPublishCount(probe, interval, probes + 1, interval, n - 1);
        DivisionStep(n - 1, interval + 1);
      } else {
        PeriodicPublishCount(probe, interval, probes, due - 1, n - 1);
      }
    }
  }

  /** Until the stop, the thread makes `exitAt` steps in all: it publishes
      (exitAt + interval) / (interval + 1) counts, one per probe whether the
      probe failed or not, and sleeps the remaining seconds. */
  lemma RunStepCounts(probe: nat -> ProbeOutcome, interval: nat, exitAt: nat)
    ensures |Steps(RunTrace(probe, interval, exitAt))| == exitAt
    ensures |PublishedCounts(RunTrace(probe, interval, exitAt))| == (exitAt + interval) / (interval + 1)
  {
    var t := RunTrace(probe, interval, exitAt);
    RunFollowsPeriod(probe, interval, exitAt);
    PublishedCountsOfSteps(t);
    PeriodicPublishCount(probe, interval, 0, 0, exitAt);
  }

  /** The stop request occurs exactly once and at most one step follows it. */
  ghost predicate StopIsHonouredPromptly(t: seq<Event>) {
    && |t| >= 1
    && multiset(t)[StopRequested] == 1
    && (t[|t| - 1] == StopRequested || (|t| >= 2 && t[|t| - 2] == StopRequested))
  }

  lemma PromptStopAfterPrefix(p: seq<Event>, t: seq<Event>)
    requires StopRequested !in p && StopIsHonouredPromptly(t)
    ensures StopIsHonouredPromptly(p + t)
  {
    assert (p + t)[|p + t| - 1] == t[|t| - 1];
    assert |t| >= 2 ==> (p + t)[|p + t| - 2] == t[|t| - 2];
    assert multiset(p)[StopRequested] == 0;
  }

  /** A stop that arrives during the last probe: that probe is still published. */
  lemma LastLoopTrace(probe: nat -> ProbeOutcome, interval: nat, exitAt: nat, probes: nat, tests: nat)
    requires tests + 1 == exitAt
    ensures StopIsHonouredPromptly(LoopTrace(probe, interval, exitAt, probes, tests))
  {
    assert WaitTrace(probe, interval, exitAt, probes + 1, tests + 1, interval) == [];
    assert LoopTrace(probe, interval, exitAt, probes, tests) == [StopRequested, Published(PublishedCount(probe(probes)))];
  }

  /** A stop that arrives during a sleep: that second is still slept. */
  lemma LastWaitTrace(probe: nat -> ProbeOutcome, interval: nat, exitAt: nat, probes: nat, tests: nat, remaining: nat)
    requires tests + 1 == exitAt && remaining > 0
    ensures StopIsHonouredPromptly(WaitTrace(probe, interval, exitAt, probes, tests, remaining))
  {
    assert WaitTrace(probe, interval, exitAt, probes, tests + 1, remaining - 1) == [];
    assert WaitTrace(probe, interval, exitAt, probes, tests, remaining) == [StopRequested, Slept];
  }

  lemma {:induction false} LoopStopsPromptly(probe: nat -> ProbeOutcome, interval: nat, exitAt: nat, probes: nat, tests: nat)
    requires tests < exitAt
    ensures StopIsHonouredPromptly(LoopTrace(probe, interval, exitAt, probes, tests))
    decreases exitAt - tests, 0
  {
    var p := [Published(PublishedCount(probe(probes)))];
    if tests + 1 == exitAt {
      LastLoopTrace(probe, interval, exitAt, probes, tests);
    } else {
      WaitStopsPromptly(probe, interval, exitAt, probes + 1, tests + 1, interval);
      PromptStopAfterPrefix(p, WaitTrace(probe, interval, exitAt, probes + 1, tests + 1, interval));
    }
  }

  lemma {:induction false} WaitStopsPromptly(probe: nat -> ProbeOutcome, interval: nat, exitAt: nat, probes: nat, tests: nat, remaining: nat)
    requires tests < exitAt
    ensures StopIsHonouredPromptly(WaitTrace(probe, interval, exitAt, probes, tests, remaining))
    decreases exitAt - tests, 1
  {
    if remaining == 0 {
      LoopStopsPromptly(probe, interval, exitAt, probes, tests);
    } else if tests + 1 == exitAt {
      LastWaitTrace(probe, interval, exitAt, probes, tests, remaining);
    } else {
      WaitStopsPromptly(probe, interval, exitAt, probes, tests + 1, remaining - 1);
      PromptStopAfterPrefix([Slept], WaitTrace(probe, interval, exitAt, probes, tests + 1, remaining - 1));
    }
  }

  /** However long the interval, once `stop()` sets the flag the thread does at
      most one more step (the publish of a probe already in flight, or the
      second it is sleeping) and then leaves its loop. */
  lemma RunStopsPromptly(probe: nat -> ProbeOutcome, interval: nat, exitAt: nat)
    ensures StopIsHonouredPromptly(RunTrace(probe, interval, exitAt))
  {
    if exitAt == 0 {
      assert RunTrace(probe, interval, exitAt) == [StopRequested];
    } else {
      LoopStopsPromptly(probe, interval, exitAt, 0, 0);
      assert RunTrace(probe, interval, exitAt) == LoopTrace(probe, interval, exitAt, 0, 0);
    }
  }

  /** _UpdateCheckThread: the exit flag, the distribution's check interval,
      and what the thread has done so far. */
  class UpdateCheckThread {
    const interval: nat
    var exitWanted: bool
    var trace: seq<Event>

    /** A new thread for `distro`: flag clear, nothing done yet. */
    constructor (distro: Distro.Distro)
      ensures interval == Distro.CheckIntervalSeconds(distro)
      ensures !exitWanted && trace == []
    {
      interval := Distro.CheckIntervalSeconds(distro);
      exitWanted := false;
      trace := [];
    }

    /** stop: set the exit flag; setting it again changes nothing. */
    method Stop()
      modifies this`exitWanted
      ensures exitWanted
    {
      exitWanted := true;
    }

    /** The icon has reacted to exactly the counts published so far, starting
        from `effects0` and the remembered count `previous0`. */
    ghost predicate Reported(icon: UpdateNotifierTrayIcon, effects0: seq<Effect>, previous0: int, toolTip0: string)
      reads this, icon
    {
      && icon.toolTip == ToolTipAfter(toolTip0, Reactions(previous0, PublishedCounts(trace)))
      && icon.Valid()
      && icon.effects == effects0 + Reactions(previous0, PublishedCounts(trace))
      && icon.previousCount == LastCount(previous0, PublishedCounts(trace))
    }

    /** The point just before flag test number `test`, where the UI context's
        `stop()` may land; it lands before test number `exitAt`. */
    method StopMayArrive(test: nat, exitAt: nat, ghost icon: UpdateNotifierTrayIcon, ghost effects0: seq<Effect>, ghost previous0: int, ghost toolTip0: string)
      requires Reported(icon, effects0, previous0, toolTip0)
      modifies this`exitWanted, this`trace
      ensures exitWanted == (old(exitWanted) || test == exitAt)
      ensures trace == old(trace) + StopBefore(test, exitAt)
      ensures Reported(icon, effects0, previous0, toolTip0)
    {
      if test == exitAt {
        Stop();
        PublishedCountsSnoc(trace, StopRequested);
        trace := trace + [StopRequested];
      }
    }

    /** Hand `count` to the icon's handle_count_changed and record it. */
    method Publish(count: int, icon: UpdateNotifierTrayIcon, ghost effects0: seq<Effect>, ghost previous0: int, ghost toolTip0: string)
      requires Reported(icon, effects0, previous0, toolTip0)
      modifies this`trace, icon
      ensures trace == old(trace) + [Published(count)]
      ensures Reported(icon, effects0, previous0, toolTip0)
    {
      ghost var before := PublishedCounts(trace);
      PublishedCountsSnoc(trace, Published(count));
      ReactionsAppend(previous0, before, count);
      ToolTipAfterAppend(toolTip0, Reactions(previous0, before), Reaction(LastCount(previous0, before), count));
      ReactionToolTip(LastCount(previous0, before), count, icon.toolTip);
      trace := trace + [Published(count)];
      icon.HandleCountChanged(count);
    }

    /** One second of sleep, recorded. */
    method Sleep(ghost icon: UpdateNotifierTrayIcon, ghost effects0: seq<Effect>, ghost previous0: int, ghost toolTip0: string)
      requires Reported(icon, effects0, previous0, toolTip0)
      modifies this`trace
      ensures trace == old(trace) + [Slept]
      ensures Reported(icon, effects0, previous0, toolTip0)
    {
      PublishedCountsSnoc(trace, Slept);
      trace := trace + [Slept];
    }

    /** run: probe, publish the count (9999 if the probe failed) to the tray
        icon, then sleep up to `interval` seconds, testing the flag before each
        second; repeat until the flag is set.  The UI context's `stop()` lands
        just before flag test number `exitAt`. */
    method Run(probe: nat -> ProbeOutcome, exitAt: nat, icon: UpdateNotifierTrayIcon)
      requires !exitWanted && trace == []
      requires icon.Valid()
      modifies this, icon
      ensures exitWanted
      ensures trace == RunTrace(probe, interval, exitAt)
      ensures icon.Valid()
      ensures icon.effects == old(icon.effects) + Reactions(old(icon.previousCount), PublishedCounts(trace))
      ensures icon.previousCount == LastCount(old(icon.previousCount), PublishedCounts(trace))
      ensures icon.toolTip == ToolTipAfter(old(icon.toolTip), Reactions(old(icon.previousCount), PublishedCounts(trace)))
    {
      ghost var effects0, previous0, toolTip0 := icon.effects, icon.previousCount, icon.toolTip;
      var probes, tests := 0, 0;
      StopMayArrive(tests, exitAt, icon, effects0, previous0, toolTip0);
      while !exitWanted
        invariant tests <= exitAt
        invariant exitWanted <==> tests == exitAt
        invariant trace + LoopTrace(probe, interval, exitAt, probes, tests) == RunTrace(probe, interval, exitAt)
        invariant Reported(icon, effects0, previous0, toolTip0)
        decreases exitAt - tests
      {
        LoopStep(probe, interval, exitAt, probes, tests, trace);
        tests := tests + 1;
        StopMayArrive(tests, exitAt, icon, effects0, previous0, toolTip0);
        var count := PublishedCount(probe(probes));
        Publish(count, icon, effects0, previous0, toolTip0);
        probes := probes + 1;
        tests := WaitInterval(probe, exitAt, probes, tests, icon, effects0, previous0, toolTip0);
      }
    }

    /** The `for` loop of run: up to `interval` one-second sleeps, each after a
        test of the exit flag; a set flag ends the wait at once.  Returns the
        number of flag tests made so far. */
    method WaitInterval(probe: nat -> ProbeOutcome, exitAt: nat, probes: nat, tests0: nat, icon: UpdateNotifierTrayIcon,
                        ghost effects0: seq<Effect>, ghost previous0: int, ghost toolTip0: string)
      returns (tests: nat)
      requires tests0 <= exitAt && (exitWanted <==> tests0 == exitAt)
      requires Reported(icon, effects0, previous0, toolTip0)
      modifies this`exitWanted, this`trace
      ensures tests0 <= tests <= exitAt && (exitWanted <==> tests == exitAt)
      ensures old(trace) + WaitTrace(probe, interval, exitAt, probes, tests0, interval)
           == trace + LoopTrace(probe, interval, exitAt, probes, tests)
      ensures Reported(icon, effects0, previous0, toolTip0)
    {
      tests := tests0;
      var i := 0;
      while i < interval
        invariant 0 <= i <= interval
        invariant tests0 <= tests <= exitAt
        invariant exitWanted <==> tests == exitAt
        invariant old(trace) + WaitTrace(probe, interval, exitAt, probes, tests0, interval)
               == trace + WaitTrace(probe, interval, exitAt, probes, tests, interval - i)
        invariant Reported(icon, effects0, previous0, toolTip0)
        decreases interval - i
      {
        if exitWanted {
          break;
        }
        WaitStep(probe, interval, exitAt, probes, tests, interval - i, trace);
        tests := tests + 1;
        StopMayArrive(tests, exitAt, icon, effects0, previous0, toolTip0);
        Sleep(icon, effects0, previous0, toolTip0);
        i := i + 1;
      }
    }
  }

  /** From `check_thread.start()` to the end of handle_exit: the thread runs
      while the UI context waits; the user's Exit stops the thread (the stop
      request in the trace), joins it (the run returns), and only then quits the
      application, so every reaction to a published count comes before the quit. */
  method Session(icon: UpdateNotifierTrayIcon, thread: UpdateCheckThread, probe: nat -> ProbeOutcome, exitAt: nat)
    requires icon.Valid() && !thread.exitWanted && thread.trace == []
    modifies icon, thread
    ensures thread.exitWanted && icon.Valid()
    ensures thread.trace == RunTrace(probe, thread.interval, exitAt)
    ensures icon.effects == old(icon.effects) + Reactions(old(icon.previousCount), PublishedCounts(thread.trace)) + [QuitApp]
    ensures icon.toolTip == ToolTipAfter(old(icon.toolTip), Reactions(old(icon.previousCount), PublishedCounts(thread.trace)))
  {
    thread.Run(probe, exitAt, icon);
    icon.Quit();
  }
}
