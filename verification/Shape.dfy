/** What every event keeps about the shape of the gateway: which device sits where,
    in which state, and which descriptors are open. */
module Shapes {
  import opened Buffers
  import opened Timers
  import opened Devices
  import opened Systems

  function DevsOf(s: Sys): seq<Dev> {
    seq(|s.slots|, k requires 0 <= k < |s.slots| => s.slots[k].dev)
  }

  /** The serial device in slot 0 and only there. */
  ghost predicate DevsOk(devs: seq<Dev>, bufsize: nat) {
    && |devs| > 0
    && devs[0].kind.SerialPort?
    && (forall k :: 0 < k < |devs| ==> !devs[k].kind.SerialPort?)
    && (forall k :: 0 <= k < |devs| ==> DevOk(devs[k], bufsize))
  }

  ghost predicate Holds(devs: seq<Dev>, k: nat, fd: int) {
    k < |devs| && devs[k].fd == fd
  }

  /** The open descriptors are exactly those the devices hold, each held once. */
  ghost predicate FdsHeld(devs: seq<Dev>, os: set<int>) {
    && NO_FD !in os
    && (forall j, k :: 0 <= j < k < |devs| && devs[j].fd != NO_FD ==> devs[j].fd != devs[k].fd)
    && (forall k :: 0 <= k < |devs| && devs[k].fd != NO_FD ==> devs[k].fd in os)
    && (forall fd :: fd in os ==> exists k: nat :: Holds(devs, k, fd))
  }

  /** What holds of the gateway between two events. */
  ghost predicate Layout(s: Sys, bufsize: nat) {
    && bufsize >= 2
    && DevsOk(DevsOf(s), bufsize)
    && FdsHeld(DevsOf(s), s.os)
    && s.copy == Ring(2 * bufsize, [])
    && s.now < CLOCK_LIMIT
  }

  lemma StartShape(bufsize: nat, listeners: nat, now: nat)
    requires bufsize >= 2 && now < CLOCK_LIMIT
    ensures Layout(Start(bufsize, listeners, now), bufsize)
  {
  }

  // ---- One device replaced, or one placed ----

  /** Replacing one device keeps the descriptor accounting, if the change is its own. */
  lemma ReplaceFds(devs: seq<Dev>, os: set<int>, i: nat, r: DevOs)
    requires FdsHeld(devs, os) && i < |devs| && FdStep(devs[i], os, r) && r.dev.fd >= NO_FD
    ensures FdsHeld(devs[i := r.dev], r.os)
  {
    var after := devs[i := r.dev];
    forall fd | fd in r.os
      ensures exists k: nat :: Holds(after, k, fd)
    {
      if fd == r.dev.fd {
        assert Holds(after, i, fd);
      } else {
        var k: nat :| Holds(devs, k, fd);
        assert Holds(after, k, fd);
      }
    }
  }

  /** Placing a device with a fresh descriptor in a free slot, or behind the last. */
  lemma PlaceFds(devs: seq<Dev>, os: set<int>, at: nat, d: Dev)
    requires FdsHeld(devs, os) && at <= |devs| && FreshFd(d.fd, os)
    requires at < |devs| ==> devs[at].fd == NO_FD
    ensures FdsHeld(if at < |devs| then devs[at := d] else devs + [d], os + {d.fd})
  {
    var after := if at < |devs| then devs[at := d] else devs + [d];
    forall fd | fd in os + {d.fd}
      ensures exists k: nat :: Holds(after, k, fd)
    {
      if fd == d.fd {
        assert Holds(after, at, fd);
      } else {
        var k: nat :| Holds(devs, k, fd);
        assert Holds(after, k, fd);
      }
    }
  }

  lemma SetDevShape(s: Sys, i: nat, r: DevOs, t: Sys, bufsize: nat)
    requires Layout(s, bufsize) && i < |s.slots|
    requires DevOk(r.dev, bufsize) && r.dev.kind == s.slots[i].dev.kind && FdStep(s.slots[i].dev, s.os, r)
    requires DevsOf(t) == DevsOf(SetDev(s, i, r)) && t.os == r.os && t.copy == s.copy && t.now < CLOCK_LIMIT
    ensures Layout(t, bufsize)
  {
    assert DevsOf(t) == DevsOf(s)[i := r.dev];
    ReplaceFds(DevsOf(s), s.os, i, r);
  }

  lemma AcceptDevs(s: Sys, i: nat, fd: int)
    requires Enabled(s, Accept(i, fd)) && fd != NO_FD
    ensures var devs, at, d := DevsOf(s), FreeSlot(s.slots, 1), AcceptedDev(fd, s.slots[i].dev.bufsize);
      at <= |devs| && DevsOf(DoAccept(s, i, fd)) == if at < |devs| then devs[at := d] else devs + [d]
  {
  }

  lemma PlaceDevs(devs: seq<Dev>, at: nat, d: Dev, bufsize: nat)
    requires DevsOk(devs, bufsize) && 0 < at <= |devs| && DevOk(d, bufsize) && !d.kind.SerialPort?
    ensures DevsOk(if at < |devs| then devs[at := d] else devs + [d], bufsize)
  {
  }

  lemma AcceptShape(s: Sys, i: nat, fd: int, bufsize: nat)
    requires Layout(s, bufsize) && Enabled(s, Accept(i, fd))
    ensures Layout(DoAccept(s, i, fd), bufsize)
  {
    if fd != NO_FD {
      var devs, at := DevsOf(s), FreeSlot(s.slots, 1);
      var d := AcceptedDev(fd, bufsize);
      assert devs[i].bufsize == bufsize;
      assert at < |devs| ==> devs[at].fd == NO_FD;
      PlaceFds(devs, s.os, at, d);
      PlaceDevs(devs, at, d, bufsize);
      AcceptDevs(s, i, fd);
    }
  }

  // ---- The process cycle touches no descriptor and no state ----

  /** Same device, up to what is in its buffers. */
  ghost predicate SameShell(d: Dev, e: Dev, bufsize: nat) {
    e.fd == d.fd && e.state == d.state && e.kind == d.kind && DevOk(e, bufsize)
  }

  ghost predicate SameShells(s: Sys, t: Sys, bufsize: nat) {
    && |t.slots| == |s.slots| && t.os == s.os
    && forall k :: 0 <= k < |s.slots| ==> SameShell(s.slots[k].dev, t.slots[k].dev, bufsize)
  }

  ghost predicate AllOk(s: Sys, bufsize: nat) {
    forall k :: 0 <= k < |s.slots| ==> DevOk(s.slots[k].dev, bufsize)
  }

  lemma SendCommandShell(s: Sys, k: nat, tick: Tick, bufsize: nat)
    requires 0 < k < |s.slots| && AllOk(s, bufsize)
    ensures SameShells(s, SendCommand(s, k, tick), bufsize)
    ensures SendCommand(s, k, tick).copy == s.copy && SendCommand(s, k, tick).now == tick.end
  {
  }

  lemma ServeSlotShell(s: Sys, k: nat, len: nat, tick: Tick, bufsize: nat)
    requires 0 < k < |s.slots| && AllOk(s, bufsize)
    ensures SameShells(s, ServeSlot(s, k, len, tick), bufsize)
    ensures ServeSlot(s, k, len, tick).copy == s.copy && ServeSlot(s, k, len, tick).now == tick.end
  {
    if !s.slots[k].dev.listener {
      var slot := Broadcast(s.slots[k], Fit(s.copy.contents, len));
      assert SameShell(s.slots[k].dev, Pull(slot.dev), bufsize);
      SendCommandShell(s.(slots := s.slots[k := slot.(dev := Pull(slot.dev))]), k, tick, bufsize);
    }
  }

  lemma {:induction false} ServeFromShell(s: Sys, k: nat, len: nat, ticks: seq<Tick>, bufsize: nat)
    requires k > 0 && |ticks| == |s.slots| && AllOk(s, bufsize)
    ensures SameShells(s, ServeFrom(s, k, len, ticks), bufsize)
    ensures ServeFrom(s, k, len, ticks).copy == s.copy
    ensures ServeFrom(s, k, len, ticks).now == if k < |s.slots| then ticks[|s.slots| - 1].end else s.now
    decreases |s.slots| - k
  {
    if k < |s.slots| {
      ServeSlotShell(s, k, len, ticks[k], bufsize);
      ServeFromShell(ServeSlot(s, k, len, ticks[k]), k + 1, len, ticks, bufsize);
    }
  }

  lemma SameShellsLayout(s: Sys, t: Sys, bufsize: nat)
    requires Layout(s, bufsize) && SameShells(s, t, bufsize)
    requires t.copy == s.copy && t.now < CLOCK_LIMIT
    ensures Layout(t, bufsize)
  {
    var before, after := DevsOf(s), DevsOf(t);
    assert forall k :: 0 <= k < |before| ==> after[k].fd == before[k].fd && after[k].kind == before[k].kind;
    forall fd | fd in t.os
      ensures exists k: nat :: Holds(after, k, fd)
    {
      var k: nat :| Holds(before, k, fd);
      assert Holds(after, k, fd);
    }
  }

  lemma CycleShells(s: Sys, ticks: seq<Tick>, bufsize: nat)
    requires Layout(s, bufsize) && Enabled(s, Cycle(ticks))
    ensures SameShells(s, DoCycle(s, ticks), bufsize)
    ensures DoCycle(s, ticks).copy == s.copy && DoCycle(s, ticks).now < CLOCK_LIMIT
  {
    assert forall k :: 0 <= k < |s.slots| ==> DevsOf(s)[k] == s.slots[k].dev;
    if Running(s) {
      var b := BeginCycle(s);
      assert AllOk(s, bufsize) && SameShells(s, b, bufsize);
      ServeFromShell(b, 1, |SerialBytes(s)|, ticks, bufsize);
    }
  }

  // ---- Every event ----

  /** Setting masks, exceptions and closing touch one device, and of it only the
      descriptor and the state; a connection they leave open they leave alone. */
  lemma OnlyOpensOrCloses(s: Sys, e: Event, bufsize: nat)
    requires Layout(s, bufsize) && Enabled(s, e) && (e.Masks? || e.Except? || e.Shut?)
    ensures Layout(Exec(s, e), bufsize)
    ensures var t, d := Exec(s, e), Exec(s, e).slots[e.i].dev;
      && t.log == s.log && t.last == s.last
      && t.slots == s.slots[e.i := s.slots[e.i].(dev := d)]
      && d == s.slots[e.i].dev.(fd := d.fd, state := d.state)
      && (d.kind.Connection? && d.fd != NO_FD ==> d == s.slots[e.i].dev)
  {
    assert DevsOf(s)[e.i] == s.slots[e.i].dev;
    match e
    case Masks(i, o, time) =>
      MaskKeeps(s.slots[i].dev, s.os, o, bufsize);
      SetDevShape(s, i, MaskDev(s.slots[i].dev, s.os, o), Exec(s, e), bufsize);
    case Except(i) =>
      CloseKeeps(s.slots[i].dev, s.os, IOFLAG_NONE, bufsize);
      SetDevShape(s, i, ExceptDev(s.slots[i].dev, s.os), Exec(s, e), bufsize);
    case Shut(i) =>
      CloseKeeps(s.slots[i].dev, s.os, IOFLAG_INACTIVE, bufsize);
      if s.slots[i].dev.state.Rank() > Closed.Rank() {
        SetDevShape(s, i, CloseDev(s.slots[i].dev, s.os, IOFLAG_INACTIVE), Exec(s, e), bufsize);
      }
  }

  lemma ReadWriteShape(s: Sys, e: Event, bufsize: nat)
    requires Layout(s, bufsize) && Enabled(s, e) && (e.Read? || e.Write?)
    ensures Layout(Exec(s, e), bufsize)
  {
    assert DevsOf(s)[e.i] == s.slots[e.i].dev;
    match e
    case Read(i, res) =>
      ReadKeeps(s.slots[i].dev, s.os, res, bufsize);
      SetDevShape(s, i, ReadDev(s.slots[i].dev, s.os, res), Exec(s, e), bufsize);
    case Write(i, res, check, end) =>
      WriteKeeps(s.slots[i].dev, s.os, res, check, end, bufsize);
      SetDevShape(s, i, WriteDev(s.slots[i].dev, s.os, res, check, end), Exec(s, e), bufsize);
  }

  /** Every event keeps the layout and the descriptor accounting. */
  lemma ExecShape(s: Sys, e: Event, bufsize: nat)
    requires Layout(s, bufsize) && Enabled(s, e)
    ensures Layout(Exec(s, e), bufsize)
  {
    match e
    case Accept(i, fd) => AcceptShape(s, i, fd, bufsize);
    case Cycle(ticks) =>
      CycleShells(s, ticks, bufsize);
      SameShellsLayout(s, DoCycle(s, ticks), bufsize);
    case Read(_, _) => ReadWriteShape(s, e, bufsize);
    case Write(_, _, _, _) => ReadWriteShape(s, e, bufsize);
    case _ => OnlyOpensOrCloses(s, e, bufsize);
  }
}
