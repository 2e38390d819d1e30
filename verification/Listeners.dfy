/** When the process cycle asks the program to end: what the slots that hold listeners
    have to do with it, over every run. */
module Listeners {
  import opened Timers
  import opened Devices
  import opened Systems
  import opened Shapes
  import opened Passes
  import opened Runs

  /** Some slot holds a listener, open or not: what the cycle counts. */
  ghost predicate ListenerHeld(s: Sys) {
    exists k :: 1 <= k < |s.slots| && s.slots[k].dev.listener
  }

  /** Some listener is open: what the cycle is meant to ask for. */
  ghost predicate ListenerOpen(s: Sys) {
    exists k :: 1 <= k < |s.slots| && s.slots[k].dev.listener && s.slots[k].dev.fd != NO_FD
  }

  /** The cycle asks to end when the serial device is unusable or no listener is open. */
  ghost predicate EndsAsMeant(s: Sys, rc: int) {
    CycleResult(s, rc) == EX_NORMAL <==> !Running(s) || !ListenerOpen(s)
  }

  lemma AcceptListeners(s: Sys, i: nat, fd: int, bufsize: nat)
    requires Layout(s, bufsize) && Enabled(s, Accept(i, fd))
    ensures ListenerHeld(DoAccept(s, i, fd)) <==> ListenerHeld(s)
  {
    assert DevsOf(s)[i] == s.slots[i].dev && DevsOf(s)[0] == s.slots[0].dev;
    if fd != NO_FD {
      var t, at := DoAccept(s, i, fd), FreeSlot(s.slots, 1);
      assert i != at && t.slots[i] == s.slots[i];
    }
  }

  /** No event makes the first listener or takes the last: a connection is accepted by an
      open listener, whose slot is not free. */
  lemma ExecListeners(s: Sys, e: Event, bufsize: nat)
    requires Layout(s, bufsize) && Enabled(s, e)
    ensures ListenerHeld(Exec(s, e)) <==> ListenerHeld(s)
  {
    if e.Accept? {
      AcceptListeners(s, e.i, e.fd, bufsize);
    } else {
      var t := Exec(s, e);
      assert |t.slots| == |s.slots|;
      forall k | 1 <= k < |s.slots|
        ensures t.slots[k].dev.listener == s.slots[k].dev.listener
      {
        SameListener(s, e, bufsize, k);
      }
    }
  }

  lemma SameListener(s: Sys, e: Event, bufsize: nat, k: nat)
    requires Layout(s, bufsize) && Enabled(s, e) && !e.Accept? && k < |s.slots| == |Exec(s, e).slots|
    ensures Exec(s, e).slots[k].dev.listener == s.slots[k].dev.listener
  {
    match e
    case Cycle(ticks) =>
      CycleShells(s, ticks, bufsize);
      assert DevsOf(s)[k] == s.slots[k].dev;
    case Read(i, res) =>
      HandlersKeepListener(s.slots[i].dev, s.os);
      ReadChanges(s, i, res);
    case Write(i, res, check, end) =>
      HandlersKeepListener(s.slots[i].dev, s.os);
      WriteChanges(s, i, res, check, end);
    case _ => OnlyOpensOrCloses(s, e, bufsize);
  }

  lemma HandlersKeepListener(d: Dev, os: set<int>)
    ensures forall res :: ReadDev(d, os, res).dev.listener == d.listener
    ensures forall res, check, end :: WriteDev(d, os, res, check, end).dev.listener == d.listener
  {
  }

  lemma {:induction false} RunKeepsListeners(s: Sys, es: seq<Event>, bufsize: nat)
    requires Reachable(s, bufsize) && Feasible(s, es)
    ensures ListenerHeld(Run(s, es)) <==> ListenerHeld(s)
  {
    if es != [] {
      var front := es[..|es| - 1];
      RunKeepsListeners(s, front, bufsize);
      ReachableRun(s, front, bufsize);
      ReachableInvariant(Run(s, front), bufsize);
      ExecListeners(Run(s, front), es[|es| - 1], bufsize);
    }
  }

  lemma StartListeners(bufsize: nat, listeners: nat, now: nat)
    ensures ListenerHeld(Start(bufsize, listeners, now)) <==> listeners > 0
  {
    assert listeners > 0 ==> Start(bufsize, listeners, now).slots[1].dev.listener;
  }

  lemma RunListeners(bufsize: nat, listeners: nat, now: nat, es: seq<Event>)
    requires bufsize >= 2 && 0 < now < CLOCK_LIMIT && Feasible(Start(bufsize, listeners, now), es)
    ensures ListenerHeld(Run(Start(bufsize, listeners, now), es)) <==> listeners > 0
  {
    StartListeners(bufsize, listeners, now);
    StartReachable(bufsize, listeners, now);
    RunKeepsListeners(Start(bufsize, listeners, now), es, bufsize);
  }

  /** Once a listener has been created, whatever happens to it, the cycle never ends the
      program for want of listeners: an unusable serial device ends it, and else the result
      handed to the cycle is handed on. Without any listener the first cycle ends it. */
  lemma OnlyTheSerialDeviceEndsTheProgram(bufsize: nat, listeners: nat, now: nat, es: seq<Event>, rc: int)
    requires bufsize >= 2 && 0 < now < CLOCK_LIMIT && Feasible(Start(bufsize, listeners, now), es)
    ensures var t := Run(Start(bufsize, listeners, now), es);
      && |t.slots| > 0
      && CycleResult(t, rc) == (if listeners == 0 || t.slots[0].dev.state.Inactive? then EX_NORMAL else rc)
  {
    RunListeners(bufsize, listeners, now, es);
    StartReachable(bufsize, listeners, now);
    ReachableRun(Start(bufsize, listeners, now), es, bufsize);
    ReachableInvariant(Run(Start(bufsize, listeners, now), es), bufsize);
  }

  lemma LapsKeepListeners(s: Sys, ps: seq<Lap>, t: Sys, bufsize: nat)
    requires Reachable(s, bufsize) && Looped(s, ps, t)
    ensures ListenerHeld(t) <==> ListenerHeld(s)
  {
    LoopRuns(s, ps);
    RunKeepsListeners(s, LoopEvents(ps), bufsize);
  }

  /** A cycle makes and takes no listener and leaves the state of the serial device, so its
      result can be told from the state after it. */
  lemma CycleHandsOn(s: Sys, ticks: seq<Tick>, rc: int, bufsize: nat)
    requires Reachable(s, bufsize) && Enabled(s, Cycle(ticks))
    ensures var t := Exec(s, Cycle(ticks));
      && (ListenerHeld(t) <==> ListenerHeld(s)) && |t.slots| > 0
      && CycleResult(s, rc) == (if !ListenerHeld(t) || t.slots[0].dev.state.Inactive? then EX_NORMAL else rc)
  {
    ReachableInvariant(s, bufsize);
    ExecListeners(s, Cycle(ticks), bufsize);
    CycleShells(s, ticks, bufsize);
    assert DevsOf(s)[0] == s.slots[0].dev;
  }

  /** In each state the cycle ends as it is meant to exactly when no listener was ever
      created, the serial device is unusable, or a listener is open. */
  lemma EndsAsMeantIff(bufsize: nat, listeners: nat, now: nat, es: seq<Event>, rc: int)
    requires bufsize >= 2 && 0 < now < CLOCK_LIMIT && Feasible(Start(bufsize, listeners, now), es)
    requires rc != EX_NORMAL
    ensures var t := Run(Start(bufsize, listeners, now), es);
      EndsAsMeant(t, rc) <==> listeners == 0 || !Running(t) || ListenerOpen(t)
  {
    RunListeners(bufsize, listeners, now, es);
  }

  // ---- The run that fails ----

  /** The first round of the program when the serial port can be opened and no listener
      can: one pass over the masks, which finds no active device. */
  function FailedStart(listeners: nat, now: nat): seq<Event> {
    if listeners == 0 then [Event.Masks(0, Good(3), now)]
    else FailedStart(listeners - 1, now) + [Event.Masks(listeners, NoFd, now)]
  }

  /** What `FailedStart` has made of the first slots. */
  ghost predicate Failed(t: Sys, listeners: nat, now: nat, m: nat) {
    && m <= listeners && |t.slots| == listeners + 1 && t.os == {3} && t.now == now
    && t.slots[0].dev.state == Connected
    && (forall k :: 1 <= k <= listeners ==> t.slots[k].dev.listener && t.slots[k].dev.kind == Listener)
    && (forall k :: 1 <= k <= m ==> t.slots[k].dev.fd == NO_FD)
    && (forall k :: m < k <= listeners ==> t.slots[k].dev.state == Unopened && t.slots[k].dev.fd == NO_FD)
  }

  lemma FailedStep(t: Sys, listeners: nat, now: nat, m: nat)
    requires now < CLOCK_LIMIT && 0 < m <= listeners && Failed(t, listeners, now, m - 1)
    ensures Enabled(t, Event.Masks(m, NoFd, now)) && Failed(Exec(t, Event.Masks(m, NoFd, now)), listeners, now, m)
  {
    assert t.slots[m].dev.kind == Listener;
  }

  lemma FirstStep(bufsize: nat, listeners: nat, now: nat)
    requires now < CLOCK_LIMIT
    ensures var s, e := Start(bufsize, listeners, now), Event.Masks(0, Good(3), now);
      Enabled(s, e) && Failed(Exec(s, e), listeners, now, 0)
  {
  }

  lemma {:induction false} FailedStartMasks(listeners: nat, now: nat)
    ensures MaskPass(FailedStart(listeners, now), listeners + 1)
  {
    if listeners > 0 {
      FailedStartMasks(listeners - 1, now);
    }
  }

  lemma IdleStep(s: Sys, front: seq<Event>, t: Sys, listeners: nat, now: nat, m: nat)
    requires now < CLOCK_LIMIT && 0 < m <= listeners && |front| == m && Failed(t, listeners, now, m - 1)
    requires Passing(s, front, t, NO_BITS, Status(NO_BITS, 0, 0))
    ensures var e := Event.Masks(m, NoFd, now);
      Enabled(t, e) && Passing(s, front + [e], Exec(t, e), NO_BITS, Status(NO_BITS, 0, 0))
  {
    FailedStep(t, listeners, now, m);
    NothingSet(t, m, now, Status(NO_BITS, 0, 0));
    PassSnoc(s, front, t, NO_BITS, Status(NO_BITS, 0, 0), Event.Masks(m, NoFd, now));
  }

  lemma FirstIdleStep(bufsize: nat, listeners: nat, now: nat)
    requires now < CLOCK_LIMIT
    ensures var s, e := Start(bufsize, listeners, now), Event.Masks(0, Good(3), now);
      Enabled(s, e) && Passing(s, [e], Exec(s, e), NO_BITS, Status(NO_BITS, 0, 0))
  {
    var s, e, none := Start(bufsize, listeners, now), Event.Masks(0, Good(3), now), Status(NO_BITS, 0, 0);
    FirstStep(bufsize, listeners, now);
    assert Passing(s, [], s, NO_BITS, none);
    PassSnoc(s, [], s, NO_BITS, none, e);
    assert [] + [e] == [e];
  }

  lemma {:induction false} FailedStartIsIdle(bufsize: nat, listeners: nat, now: nat, m: nat) returns (t: Sys)
    requires now < CLOCK_LIMIT && m <= listeners
    ensures Failed(t, listeners, now, m)
    ensures Passing(Start(bufsize, listeners, now), FailedStart(m, now), t, NO_BITS, Status(NO_BITS, 0, 0))
  {
    var s := Start(bufsize, listeners, now);
    if m == 0 {
      FirstStep(bufsize, listeners, now);
      FirstIdleStep(bufsize, listeners, now);
      t := Exec(s, Event.Masks(0, Good(3), now));
    } else {
      var u := FailedStartIsIdle(bufsize, listeners, now, m - 1);
      FailedStartMasks(m - 1, now);
      FailedStep(u, listeners, now, m);
      IdleStep(s, FailedStart(m - 1, now), u, listeners, now, m);
      t := Exec(u, Event.Masks(m, NoFd, now));
    }
  }

  lemma NothingSet(t: Sys, m: nat, now: nat, none: Status)
    requires m < |t.slots| && t.slots[m].dev.state == Unopened && t.slots[m].dev.fd == NO_FD
    requires Enabled(t, Event.Masks(m, NoFd, now))
    ensures var u := Exec(t, Event.Masks(m, NoFd, now));
      m < |u.slots| && SameApp(t, u) && MaskOne(t.slots[m].dev, u.slots[m].dev.fd, now, none) == none
  {
  }

  lemma FailedStartRuns(bufsize: nat, listeners: nat, now: nat, m: nat)
    requires now < CLOCK_LIMIT && m <= listeners
    ensures var s := Start(bufsize, listeners, now);
      && Feasible(s, FailedStart(m, now))
      && Failed(Run(s, FailedStart(m, now)), listeners, now, m)
  {
    var t := FailedStartIsIdle(bufsize, listeners, now, m);
  }

  /** That round is one lap of the selector loop: no device was active before, so select is
      not called, and the cycle follows. */
  lemma FailedStartIsALoop(bufsize: nat, listeners: nat, now: nat)
    requires now < CLOCK_LIMIT
    ensures var s, lap := Start(bufsize, listeners, now), Lap(FailedStart(listeners, now), [], NO_BITS, 0, []);
      && LapOk(s, NO_BITS, lap) && LoopOk(s, [lap]) && PassStatus(s, lap.masks, NO_BITS).active == 0
      && Failed(LoopEnd(s, [lap]), listeners, now, listeners)
  {
    var s, lap := Start(bufsize, listeners, now), Lap(FailedStart(listeners, now), [], NO_BITS, 0, []);
    var t := FailedStartIsIdle(bufsize, listeners, now, listeners);
    LoopSnoc(s, [], lap);
    assert [] + [lap] == [lap];
  }

  /** So the cycle ends as meant on every run exactly when there is no listener at all:
      with any number of them, there is a first round after which none is open and the
      cycle goes on. */
  lemma EndsAsMeantOnAllRuns(bufsize: nat, listeners: nat, now: nat, rc: int)
    requires bufsize >= 2 && 0 < now < CLOCK_LIMIT && rc != EX_NORMAL
    ensures (forall es :: Feasible(Start(bufsize, listeners, now), es) ==>
               EndsAsMeant(Run(Start(bufsize, listeners, now), es), rc)) <==> listeners == 0
  {
    var s := Start(bufsize, listeners, now);
    if listeners == 0 {
      forall es | Feasible(s, es)
        ensures EndsAsMeant(Run(s, es), rc)
      {
        EndsAsMeantIff(bufsize, listeners, now, es, rc);
      }
    } else {
      var es := FailedStart(listeners, now);
      FailedStartRuns(bufsize, listeners, now, listeners);
      EndsAsMeantIff(bufsize, listeners, now, es, rc);
      assert Feasible(s, es) && !EndsAsMeant(Run(s, es), rc);
    }
  }
}
