/** The slot allocator over whole runs, and closing every device. */
module SlotRuns {
  import opened Bytes
  import opened Devices
  import opened Systems
  import opened Shapes

  // ---- Allocation ----

  /** Accepting a connection takes an inactive slot other than slot 0, or appends one
      when there is none; every other slot stays as it was. */
  lemma AcceptTakesFreeSlot(s: Sys, i: nat, fd: int) returns (at: nat)
    requires |s.slots| > 0 && Enabled(s, Accept(i, fd)) && fd != NO_FD
    ensures var t := Exec(s, Accept(i, fd));
      && 0 < at <= |s.slots|
      && (at < |s.slots| ==> s.slots[at].dev.state.Inactive? && |t.slots| == |s.slots|)
      && (at == |s.slots| ==>
            && |t.slots| == |s.slots| + 1
            && forall k :: 0 < k < |s.slots| ==> !s.slots[k].dev.state.Inactive?)
      && t.slots[at].dev == AcceptedDev(fd, s.slots[i].dev.bufsize)
      && (forall k :: 0 <= k < |s.slots| && k != at ==> t.slots[k] == s.slots[k])
  {
    at := FreeSlot(s.slots, 1);
  }

  // ---- Peak ----

  /** Devices outside slot 0 that are not inactive. */
  function CountActive(slots: seq<Slot>): nat {
    if |slots| <= 1 then 0
    else CountActive(slots[..|slots| - 1]) + if slots[|slots| - 1].dev.state.Inactive? then 0 else 1
  }

  lemma {:induction false} ActiveBound(slots: seq<Slot>)
    requires |slots| > 0
    ensures CountActive(slots) <= |slots| - 1
    ensures (forall k :: 0 < k < |slots| ==> !slots[k].dev.state.Inactive?) ==> CountActive(slots) == |slots| - 1
  {
    if |slots| > 1 {
      ActiveBound(slots[..|slots| - 1]);
    }
  }

  /** The largest number of active devices outside slot 0 in any state of a run. */
  ghost function Peak(s: Sys, es: seq<Event>): nat
    requires Feasible(s, es)
  {
    if es == [] then CountActive(s.slots)
    else Max(Peak(s, es[..|es| - 1]), CountActive(Run(s, es).slots))
  }

  /** An event adds a slot only if that slot brings every slot into use. */
  lemma ExecGrowth(s: Sys, e: Event, bufsize: nat)
    requires Layout(s, bufsize) && Enabled(s, e)
    ensures var t := Exec(s, e);
      && CountActive(t.slots) <= |t.slots| - 1
      && (|t.slots| == |s.slots| || (|t.slots| == |s.slots| + 1 && CountActive(t.slots) == |t.slots| - 1))
  {
    var t := Exec(s, e);
    match e
    case Accept(i, fd) =>
      if fd != NO_FD {
        var at := AcceptTakesFreeSlot(s, i, fd);
      }
      ActiveBound(t.slots);
    case _ =>
      ExecShape(s, e, bufsize);
      ActiveBound(t.slots);
  }

  lemma StartActive(bufsize: nat, listeners: nat, now: nat)
    ensures CountActive(Start(bufsize, listeners, now).slots) == listeners
  {
    ActiveBound(Start(bufsize, listeners, now).slots);
  }

  // ---- Closing every device ----

  function ShutAll(n: nat): seq<Event> {
    seq(n, i requires 0 <= i < n => Shut(i))
  }

  lemma ShutAllSnoc(s: Sys, n: nat)
    requires Feasible(s, ShutAll(n)) && Enabled(Run(s, ShutAll(n)), Shut(n))
    ensures Feasible(s, ShutAll(n + 1)) && Run(s, ShutAll(n + 1)) == Exec(Run(s, ShutAll(n)), Shut(n))
  {
    assert ShutAll(n + 1) == ShutAll(n) + [Shut(n)];
    RunSnoc(s, ShutAll(n), Shut(n));
  }

  /** Closing a slot closes it and leaves the others alone. */
  lemma ShutCloses(s: Sys, i: nat, bufsize: nat)
    requires Layout(s, bufsize) && i < |s.slots|
    ensures Layout(Exec(s, Shut(i)), bufsize)
    ensures |Exec(s, Shut(i)).slots| == |s.slots| && Exec(s, Shut(i)).slots[i].dev.fd == NO_FD
    ensures forall k :: 0 <= k < |s.slots| && k != i ==> Exec(s, Shut(i)).slots[k] == s.slots[k]
  {
    OnlyOpensOrCloses(s, Shut(i), bufsize);
    assert DevsOf(s)[i] == s.slots[i].dev;
  }

  lemma {:induction false} ShutAllCloses(s: Sys, n: nat, bufsize: nat)
    requires Layout(s, bufsize) && n <= |s.slots|
    ensures Feasible(s, ShutAll(n)) && Layout(Run(s, ShutAll(n)), bufsize)
    ensures |Run(s, ShutAll(n)).slots| == |s.slots|
    ensures forall k :: 0 <= k < n ==> Run(s, ShutAll(n)).slots[k].dev.fd == NO_FD
  {
    if n > 0 {
      ShutAllCloses(s, n - 1, bufsize);
      ShutCloses(Run(s, ShutAll(n - 1)), n - 1, bufsize);
      ShutAllSnoc(s, n - 1);
    }
  }

  lemma NothingHeld(devs: seq<Dev>, os: set<int>)
    requires FdsHeld(devs, os) && forall k :: 0 <= k < |devs| ==> devs[k].fd == NO_FD
    ensures os == {}
  {
    forall fd
      ensures fd !in os
    {
      if k: nat :| Holds(devs, k, fd) {
        assert fd == NO_FD;
      }
    }
  }

  /** Closing the devices one by one leaves no descriptor open. */
  lemma ShutAllReleases(s: Sys, bufsize: nat)
    requires Layout(s, bufsize)
    ensures Feasible(s, ShutAll(|s.slots|))
    ensures Run(s, ShutAll(|s.slots|)).os == {}
  {
    ShutAllCloses(s, |s.slots|, bufsize);
    var t := Run(s, ShutAll(|s.slots|));
    NothingHeld(DevsOf(t), t.os);
  }
}
