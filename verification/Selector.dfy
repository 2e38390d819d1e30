/** The device array of selector.c: slots, descriptor sets, dispatch and closing. Each
    method runs the program's steps on the device objects and, beside them, the same
    events on the state of the transition system, and keeps the two equal. */
module Selectors {
  import opened Bytes
  import opened Buffers
  import opened Timers
  import opened StringStores
  import opened Tokens
  import opened Devices
  import opened Systems
  import opened Passes
  import opened SlotRuns
  import opened IoDevs
  import opened Runs

  ghost predicate Disjoint(parts: seq<set<object>>) {
    forall j, k :: 0 <= j < k < |parts| ==> parts[j] !! parts[k]
  }

  /** Mentioned where the validity of owned devices is to be looked at. */
  ghost predicate Look(u: int) {
    true
  }

  /** A valid device and the memory it is made of; its validity is only looked at where
      `Look` is mentioned, which keeps it out of proofs about the array as a whole. */
  ghost predicate Owns(d: IoDev, part: set<object>)
    reads part
  {
    && d in part && d.Repr == part
    && forall u {:trigger Look(u)} :: Look(u) ==> d.Valid()
  }

  class Selector {
    var devs: seq<IoDev>
    const os: Os
    const clock: Clock
    ghost const bufsize: nat
    ghost var sys: Sys
    ghost var parts: seq<set<object>>
    ghost var Repr: set<object>

    /** The devices are valid and share no memory. */
    ghost predicate Separate()
      reads this`devs, this`parts, this`Repr, os, clock, Repr
    {
      && os.Valid() && clock.Valid() && {this, os, clock} !! Repr
      && |parts| == |devs| && Disjoint(parts)
      && (forall k :: 0 <= k < |devs| ==> parts[k] <= Repr)
      && (forall k :: 0 <= k < |devs| ==> Owns(devs[k], parts[k]))
    }

    /** Besides, they are as `sys` says. */
    ghost predicate SlotsMatch()
      reads this, os, clock, Repr
    {
      && Separate()
      && |sys.slots| == |devs|
      && (forall k :: 0 <= k < |devs| ==> Owns(devs[k], parts[k]) && sys.slots[k].dev == devs[k].Model)
    }

    ghost predicate Matches()
      reads this, os, clock, Repr
    {
      SlotsMatch() && sys.os == os.open && sys.calls == os.calls && sys.now == clock.now
    }

    ghost predicate Valid()
      reads this, os, clock, Repr
    {
      Matches() && Reachable(sys, bufsize)
    }

    // ---- Creation ----

    /** An empty array, to be filled before the selector is used. */
    constructor (bufsize: nat, os: Os, clock: Clock)
      requires os.Valid() && clock.Valid() && os.open == {} && os.calls == []
      ensures Matches() && devs == [] && parts == [] && Repr == {}
      ensures this.os == os && this.clock == clock && this.bufsize == bufsize
      ensures sys == Start(bufsize, 0, clock.now).(slots := [])
    {
      devs := [];
      this.os, this.clock, this.bufsize := os, clock, bufsize;
      sys := Start(bufsize, 0, clock.now).(slots := []);
      parts, Repr := [], {};
    }

    /** The first inactive slot but slot 0, or the end of the array. */
    method FindFree() returns (index: nat)
      requires SlotsMatch()
      ensures index == FreeSlot(sys.slots, 1) && index <= |devs|
    {
      index := 1;
      while index < |devs|
        invariant 1 <= index && (index <= |devs| || |devs| == 0)
        invariant FreeSlot(sys.slots, 1) == FreeSlot(sys.slots, index)
      {
        assert Look(0) && Owns(devs[index], parts[index]);
        if devs[index].state == Inactive {
          return;
        }
        index := index + 1;
      }
      index := |devs|;
    }

    // ---- One handler ----

    /** Bring `sys` up to date after one device has changed. */
    ghost method Sync(k: nat, r: DevOs, e: Event)
      requires Separate() && k < |devs| == |sys.slots| && Enabled(sys, e)
      requires ChangesOnly(sys, Exec(sys, e), k, r, clock.now)
      requires DevOs(devs[k].Model, os.open) == r && os.calls == Exec(sys, e).calls
      requires Reachable(sys, bufsize)
      requires forall j :: 0 <= j < |devs| && j != k ==> devs[j].Model == sys.slots[j].dev
      modifies this`sys
      ensures Valid() && sys == Exec(old(sys), e) && SameApp(old(sys), sys)
    {
      ReachableExec(sys, e, bufsize);
      sys := Exec(sys, e);
    }

    method CallRead(k: nat) returns (res: ReadResult)
      requires Separate() && k < |devs| && Backed(devs[k].Model, os.open)
      modifies parts[k], os`open, os`calls
      ensures devs == old(devs) && parts == old(parts) && Repr == old(Repr) && Separate()
      ensures clock.now == old(clock.now)
      ensures res.Data? ==> 0 < |res.bytes| <= old(devs[k].Model).rbuf.Available()
      ensures DevOs(devs[k].Model, os.open) == ReadDev(old(devs[k].Model), old(os.open), res)
      ensures os.calls == old(os.calls) + ReadCalls(old(devs[k].Model), res)
      ensures forall j :: 0 <= j < |devs| && j != k ==> devs[j].Model == old(devs[j].Model)
    {
      assert forall j :: 0 <= j < |devs| && j != k ==> parts[j] !! parts[k] && Owns(devs[j], parts[j]);
      assert Look(0) && Owns(devs[k], parts[k]);
      res := devs[k].ReadHandler(os);
    }

    method Read(k: nat) returns (ghost e: Event)
      requires Valid() && k < |devs| && !devs[k].Model.listener
      modifies this`sys, parts[k], os`open, os`calls
      ensures devs == old(devs) && parts == old(parts) && Repr == old(Repr) && Valid()
      ensures e.Read? && e.i == k && Enabled(old(sys), e) && sys == Exec(old(sys), e) && SameApp(old(sys), sys)
    {
      ReachableBacked(sys, bufsize, k);
      var res := CallRead(k);
      e := Event.Read(k, res);
      ReadChanges(sys, k, res);
      Sync(k, ReadDev(sys.slots[k].dev, sys.os, res), e);
    }

    method CallWrite(k: nat) returns (res: WriteResult, check: nat)
      requires Separate() && k < |devs| && Backed(devs[k].Model, os.open)
      modifies parts[k], os`open, os`calls, clock
      ensures devs == old(devs) && parts == old(parts) && Repr == old(Repr) && Separate()
      ensures old(clock.now) <= check <= clock.now
      ensures res.Wrote? ==> res.len <= |Offered(old(devs[k].Model))|
      ensures DevOs(devs[k].Model, os.open) == WriteDev(old(devs[k].Model), old(os.open), res, check, clock.now)
      ensures os.calls == old(os.calls) + WriteCalls(old(devs[k].Model), res, check)
      ensures forall j :: 0 <= j < |devs| && j != k ==> devs[j].Model == old(devs[j].Model)
    {
      assert forall j :: 0 <= j < |devs| && j != k ==> parts[j] !! parts[k] && Owns(devs[j], parts[j]);
      assert Look(0) && Owns(devs[k], parts[k]);
      res, check := devs[k].WriteHandler(os, clock);
    }

    method Write(k: nat) returns (ghost e: Event)
      requires Valid() && k < |devs|
      modifies this`sys, parts[k], os`open, os`calls, clock
      ensures devs == old(devs) && parts == old(parts) && Repr == old(Repr) && Valid()
      ensures e.Write? && e.i == k && Enabled(old(sys), e) && sys == Exec(old(sys), e) && SameApp(old(sys), sys)
    {
      ReachableBacked(sys, bufsize, k);
      var res, check := CallWrite(k);
      e := Event.Write(k, res, check, clock.now);
      WriteChanges(sys, k, res, check, clock.now);
      Sync(k, WriteDev(sys.slots[k].dev, sys.os, res, check, clock.now), e);
    }

    method CallClose(k: nat, flags: nat)
      requires Separate() && k < |devs| && Backed(devs[k].Model, os.open)
      modifies parts[k], os`open
      ensures devs == old(devs) && parts == old(parts) && Repr == old(Repr) && Separate()
      ensures clock.now == old(clock.now)
      ensures DevOs(devs[k].Model, os.open) == CloseDev(old(devs[k].Model), old(os.open), flags)
      ensures forall j :: 0 <= j < |devs| && j != k ==> devs[j].Model == old(devs[j].Model)
    {
      assert forall j :: 0 <= j < |devs| && j != k ==> parts[j] !! parts[k] && Owns(devs[j], parts[j]);
      assert Look(0) && Owns(devs[k], parts[k]);
      devs[k].Close(flags, os);
    }

    method CallExcept(k: nat)
      requires Separate() && k < |devs| && Backed(devs[k].Model, os.open)
      modifies parts[k], os`open
      ensures devs == old(devs) && parts == old(parts) && Repr == old(Repr) && Separate()
      ensures clock.now == old(clock.now)
      ensures DevOs(devs[k].Model, os.open) == ExceptDev(old(devs[k].Model), old(os.open))
      ensures forall j :: 0 <= j < |devs| && j != k ==> devs[j].Model == old(devs[j].Model)
    {
      assert forall j :: 0 <= j < |devs| && j != k ==> parts[j] !! parts[k] && Owns(devs[j], parts[j]);
      assert Look(0) && Owns(devs[k], parts[k]);
      devs[k].ExceptHandler(os);
    }

    method ExceptAt(k: nat) returns (ghost e: Event)
      requires Valid() && k < |devs|
      modifies this`sys, parts[k], os`open
      ensures devs == old(devs) && parts == old(parts) && Repr == old(Repr) && Valid()
      ensures e == Except(k) && Enabled(old(sys), e) && sys == Exec(old(sys), e) && SameApp(old(sys), sys)
    {
      ReachableBacked(sys, bufsize, k);
      CallExcept(k);
      e := Except(k);
      CloseChanges(sys, k);
      Sync(k, ExceptDev(sys.slots[k].dev, sys.os), e);
    }

    method ShutAt(k: nat) returns (ghost e: Event)
      requires Valid() && k < |devs|
      modifies this`sys, parts[k], os`open
      ensures devs == old(devs) && parts == old(parts) && Repr == old(Repr) && Valid()
      ensures e == Shut(k) && Enabled(old(sys), e) && sys == Exec(old(sys), e) && SameApp(old(sys), sys)
    {
      assert Look(0) && Owns(devs[k], parts[k]);
      ReachableBacked(sys, bufsize, k);
      if devs[k].state.Rank() > Closed.Rank() {
        CallClose(k, IOFLAG_INACTIVE);
      }
      e := Shut(k);
      CloseChanges(sys, k);
      Sync(k, DevOs(devs[k].Model, os.open), e);
    }

    /** Initialise the device in a slot anew. */
    method Recreate(at: nat, listen: bool, fd: int, size: nat)
      requires Separate() && at < |devs|
      modifies parts[at]
      ensures Owns(devs[at], devs[at].Repr) && fresh(devs[at].Repr - parts[at])
      ensures devs[at].Model == CreatedDev(listen, fd, size)
      ensures forall j :: 0 <= j < |devs| && j != at ==>
        Owns(devs[j], parts[j]) && devs[j].Model == old(devs[j].Model)
    {
      assert forall j :: 0 <= j < |devs| && j != at ==> parts[j] !! parts[at] && Owns(devs[j], parts[j]);
      assert Owns(devs[at], parts[at]);
      devs[at].CreateTcp(listen, fd, size);
    }

    /** Take note of memory a device has allocated. */
    ghost method Adopt(at: nat)
      requires os.Valid() && clock.Valid() && at < |devs| == |parts| && Disjoint(parts)
      requires forall k :: 0 <= k < |devs| ==> parts[k] <= Repr
      requires Repr + devs[at].Repr !! {this, os, clock} && devs[at].Repr - parts[at] !! Repr
      requires Owns(devs[at], devs[at].Repr)
      requires forall k :: 0 <= k < |devs| && k != at ==> Owns(devs[k], parts[k])
      modifies this`parts, this`Repr
      ensures Separate() && Repr == old(Repr + devs[at].Repr)
    {
      assert forall k :: 0 <= k < |devs| && k != at ==> parts[k] !! devs[at].Repr;
      parts := parts[at := devs[at].Repr];
      Repr := Repr + devs[at].Repr;
    }

    /** Make the device in a slot a listener or an accepted connection. */
    method Install(at: nat, listen: bool, fd: int, size: nat)
      requires Separate() && at < |devs|
      modifies this`parts, this`Repr, parts[at]
      ensures devs == old(devs) && Separate() && fresh(Repr - old(Repr))
      ensures devs[at].Model == CreatedDev(listen, fd, size)
      ensures forall j :: 0 <= j < |devs| && j != at ==> devs[j].Model == old(devs[j].Model)
    {
      assert Owns(devs[at], parts[at]);
      Recreate(at, listen, fd, size);
      Adopt(at);
    }

    static method NewDev(listen: bool, fd: int, size: nat) returns (dev: IoDev)
      ensures Owns(dev, dev.Repr) && fresh(dev.Repr) && dev.Model == CreatedDev(listen, fd, size)
    {
      dev := new IoDev();
      dev.CreateTcp(listen, fd, size);
    }

    /** Append such a device in memory of its own. */
    method Extend(listen: bool, fd: int, size: nat)
      requires Separate()
      modifies this`devs, this`parts, this`Repr
      ensures |devs| == |old(devs)| + 1 && devs[..|old(devs)|] == old(devs)
      ensures Separate() && fresh(Repr - old(Repr))
      ensures devs[|old(devs)|].Model == CreatedDev(listen, fd, size)
    {
      var dev := NewDev(listen, fd, size);
      devs := devs + [dev];
      parts := parts + [dev.Repr];
      Repr := Repr + dev.Repr;
    }

    /** Take over the free slot, or append one. */
    method Accommodate(at: nat, listen: bool, fd: int, size: nat)
      requires SlotsMatch() && at <= |sys.slots|
      modifies this`devs, this`parts, this`Repr, Repr
      ensures Separate() && at < |devs| && fresh(Repr - old(Repr))
      ensures os.open == old(os.open) && os.calls == old(os.calls) && clock.now == old(clock.now)
      ensures |devs| == if at < |sys.slots| then |sys.slots| else |sys.slots| + 1
      ensures devs[at].Model == CreatedDev(listen, fd, size)
      ensures forall j :: 0 <= j < |sys.slots| && j != at ==> devs[j].Model == sys.slots[j].dev
    {
      if at < |devs| {
        Install(at, listen, fd, size);
      } else {
        ghost var before := devs;
        assert forall j :: 0 <= j < |before| ==> before[j].Model == sys.slots[j].dev;
        Extend(listen, fd, size);
        assert forall j :: 0 <= j < |before| ==> devs[j] == before[j];
      }
    }

    /** Bring `sys` up to date after an accept was refused. */
    ghost method SyncRefused(k: nat)
      requires SlotsMatch() && Enabled(sys, Accept(k, NO_FD)) && Reachable(sys, bufsize)
      requires os.open == sys.os && clock.now == sys.now
      requires os.calls == sys.calls + [AcceptCall(sys.slots[k].dev.fd, NO_FD)]
      modifies this`sys
      ensures Valid() && sys == Exec(old(sys), Accept(k, NO_FD)) && SameApp(old(sys), sys)
    {
      AcceptChanges(sys, k, NO_FD);
      ReachableExec(sys, Accept(k, NO_FD), bufsize);
      sys := Exec(sys, Accept(k, NO_FD));
    }

    /** Bring `sys` up to date after a connection has been accepted. */
    ghost method SyncAccept(k: nat, fd: int, at: nat)
      requires Separate() && Enabled(sys, Accept(k, fd)) && fd != NO_FD
      requires at == FreeSlot(sys.slots, 1) < |devs|
      requires |devs| == if at < |sys.slots| then |sys.slots| else |sys.slots| + 1
      requires devs[at].Model == AcceptedDev(fd, sys.slots[k].dev.bufsize)
      requires forall j :: 0 <= j < |sys.slots| && j != at ==> devs[j].Model == sys.slots[j].dev
      requires os.open == sys.os + {fd} && clock.now == sys.now && Reachable(sys, bufsize)
      requires os.calls == sys.calls + [AcceptCall(sys.slots[k].dev.fd, fd)]
      modifies this`sys
      ensures Valid() && sys == Exec(old(sys), Accept(k, fd)) && SameApp(old(sys), sys)
    {
      AcceptChanges(sys, k, fd);
      ReachableExec(sys, Accept(k, fd), bufsize);
      sys := Exec(sys, Accept(k, fd));
    }

    method CallAccept(on: int) returns (fd: int)
      requires Matches() && on in os.open
      modifies os`open, os`calls
      ensures SlotsMatch() && (fd == NO_FD || FreshFd(fd, sys.os))
      ensures os.open == (if fd == NO_FD then sys.os else sys.os + {fd}) && clock.now == sys.now
      ensures os.calls == sys.calls + [AcceptCall(on, fd)]
    {
      fd := os.Accept(on);
    }

    /** The buffer size a listener records for its connections. */
    method SizeAt(k: nat) returns (size: nat)
      requires Separate() && k < |devs|
      ensures size == devs[k].Model.bufsize
    {
      assert Look(0) && Owns(devs[k], parts[k]);
      size := devs[k].bufsize;
    }

    /** Put an accepted connection into a slot. */
    method AddConnection(k: nat, fd: int, size: nat)
      requires SlotsMatch() && os.open == sys.os + {fd} && clock.now == sys.now && Reachable(sys, bufsize)
      requires fd != NO_FD && Enabled(sys, Accept(k, fd)) && size == sys.slots[k].dev.bufsize
      requires os.calls == sys.calls + [AcceptCall(sys.slots[k].dev.fd, fd)]
      modifies this`sys, this`devs, this`parts, this`Repr, Repr
      ensures Valid() && fresh(Repr - old(Repr))
      ensures sys == Exec(old(sys), Accept(k, fd)) && SameApp(old(sys), sys)
    {
      var at := FindFree();
      Accommodate(at, false, fd, size);
      SyncAccept(k, fd, at);
    }

    /** The read handler of a listener: accept, and put the connection into a slot. */
    method AcceptAt(k: nat) returns (ghost e: Event)
      requires Valid() && k < |devs| && sys.slots[k].dev.listener && sys.slots[k].dev.fd != NO_FD
      modifies this`sys, this`devs, this`parts, this`Repr, Repr, os`open, os`calls
      ensures Valid() && fresh(Repr - old(Repr))
      ensures e.Accept? && e.i == k && Enabled(old(sys), e) && sys == Exec(old(sys), e) && SameApp(old(sys), sys)
      ensures os.calls == old(os.calls) + [AcceptCall(old(sys).slots[k].dev.fd, e.fd)]
      ensures e.fd != NO_FD ==> exists j :: 1 <= j < |sys.slots| && sys.slots[j].dev.fd == e.fd
    {
      var size := SizeAt(k);
      var on := FdAt(k);
      ReachableBacked(sys, bufsize, k);
      var fd := CallAccept(on);
      e := Accept(k, fd);
      AcceptChanges(sys, k, fd);
      if fd == NO_FD {
        SyncRefused(k);
      } else {
        AddConnection(k, fd, size);
      }
    }

    // ---- Filling the descriptor sets ----

    ghost predicate SetsApart(r: FdSet, w: FdSet, x: FdSet)
      reads this`Repr
    {
      r != w && r != x && w != x && {r, w, x} !! Repr
    }

    method CallMasks(k: nat, r: FdSet, w: FdSet, x: FdSet) returns (active: bool, o: Opening)
      requires Separate() && k < |devs| && SetsApart(r, w, x) && Backed(devs[k].Model, os.open)
      modifies parts[k], os`open, os`calls, clock, r, w, x
      ensures devs == old(devs) && parts == old(parts) && Repr == old(Repr) && Separate()
      ensures OpeningOk(o, old(os.open)) && old(clock.now) <= clock.now
      ensures DevOs(devs[k].Model, os.open) == MaskDev(old(devs[k].Model), old(os.open), o)
      ensures os.calls == old(os.calls) + MaskCalls(old(devs[k].Model), o)
      ensures Masked(Bits(r.bits, w.bits, x.bits), active) ==
        MaskBits(old(devs[k].Model), clock.now, old(Bits(r.bits, w.bits, x.bits)))
      ensures forall j :: 0 <= j < |devs| && j != k ==> devs[j].Model == old(devs[j].Model)
    {
      assert forall j :: 0 <= j < |devs| && j != k ==> parts[j] !! parts[k] && Owns(devs[j], parts[j]);
      assert Look(0) && Owns(devs[k], parts[k]);
      active, o := devs[k].SetMasks(r, w, x, os, clock);
    }

    method MasksAt(k: nat, r: FdSet, w: FdSet, x: FdSet) returns (active: bool, ghost e: Event)
      requires Valid() && k < |devs| && SetsApart(r, w, x)
      modifies this`sys, parts[k], os`open, os`calls, clock, r, w, x
      ensures devs == old(devs) && parts == old(parts) && Repr == old(Repr) && Valid()
      ensures e.Masks? && e.i == k && Enabled(old(sys), e) && sys == Exec(old(sys), e) && SameApp(old(sys), sys)
      ensures Masked(Bits(r.bits, w.bits, x.bits), active) ==
        MaskBits(old(sys).slots[k].dev, e.time, old(Bits(r.bits, w.bits, x.bits)))
    {
      var o;
      ReachableBacked(sys, bufsize, k);
      active, o := CallMasks(k, r, w, x);
      e := Masks(k, o, clock.now);
      MasksChanges(sys, k, o, clock.now);
      Sync(k, MaskDev(sys.slots[k].dev, sys.os, o), e);
    }

    method FdAt(k: nat) returns (fd: int)
      requires Matches() && k < |devs|
      ensures fd == sys.slots[k].dev.fd
    {
      assert Look(0) && Owns(devs[k], parts[k]);
      fd := devs[k].fd;
    }

    /** Set the masks of the next device, and count it if it is active. */
    method MaskNext(k: nat, active: nat, highest: int, r: FdSet, w: FdSet, x: FdSet,
                    ghost s: Sys, ghost es: seq<Event>, ghost before: Bits)
      returns (count: nat, top: int, ghost e: Event)
      requires Valid() && SetsApart(r, w, x) && k == |es| < |devs|
      requires Passing(s, es, sys, before, Status(Bits(r.bits, w.bits, x.bits), active, highest))
      modifies this`sys, parts[k], os`open, os`calls, clock, r, w, x
      ensures devs == old(devs) && parts == old(parts) && Repr == old(Repr) && Valid()
      ensures Passing(s, es + [e], sys, before, Status(Bits(r.bits, w.bits, x.bits), count, top))
    {
      ghost var t, st := sys, Status(Bits(r.bits, w.bits, x.bits), active, highest);
      count, top := active, highest;
      var up;
      up, e := MasksAt(k, r, w, x);
      if up {
        count := count + 1;
        var fd := FdAt(k);
        if fd > top {
          top := fd;
        }
      }
      PassSnoc(s, es, t, before, st, e);
    }

    /** Set the masks of every device; count the active ones and find their highest
        descriptor. */
    method IoSet(r: FdSet, w: FdSet, x: FdSet) returns (active: nat, highest: int, ghost es: seq<Event>)
      requires Valid() && SetsApart(r, w, x)
      modifies this`sys, Repr, os`open, os`calls, clock, r, w, x
      ensures devs == old(devs) && parts == old(parts) && Repr == old(Repr) && Valid()
      ensures |es| == |old(sys).slots|
      ensures Passing(old(sys), es, sys, old(Bits(r.bits, w.bits, x.bits)),
                      Status(Bits(r.bits, w.bits, x.bits), active, highest))
    {
      ghost var s, before := sys, Bits(r.bits, w.bits, x.bits);
      active, highest, es := 0, 0, [];
      var index := 0;
      while index < |devs|
        invariant devs == old(devs) && parts == old(parts) && Repr == old(Repr) && Valid()
        invariant index == |es| <= |devs| && |devs| == |s.slots|
        invariant Passing(s, es, sys, before, Status(Bits(r.bits, w.bits, x.bits), active, highest))
      {
        ghost var e;
        active, highest, e := MaskNext(index, active, highest, r, w, x, s, es, before);
        es := es + [e];
        index := index + 1;
      }
    }

    // ---- Calling the handlers ----

    method IsSetAt(k: nat, fds: FdSet) returns (on: bool)
      requires Matches() && k < |devs|
      ensures on == IsSet(sys.slots[k].dev, fds.bits)
    {
      var fd := FdAt(k);
      on := fd != NO_FD && fd in fds.bits;
    }

    method StateAt(k: nat) returns (state: DevState)
      requires Matches() && k < |devs|
      ensures state == sys.slots[k].dev.state
    {
      assert Look(0) && Owns(devs[k], parts[k]);
      state := devs[k].state;
    }

    method ListenerAt(k: nat) returns (listener: bool)
      requires Matches() && k < |devs|
      ensures listener == sys.slots[k].dev.listener
    {
      assert Look(0) && Owns(devs[k], parts[k]);
      listener := devs[k].listener;
    }

    method ReadIfSet(k: nat, ready: int, ghost b: Bits, r: FdSet) returns (left: int, ghost es: seq<Event>)
      requires Valid() && k < |devs| && b.r == r.bits && ready > 0 && r !in Repr
      modifies this`sys, this`devs, this`parts, this`Repr, Repr, os`open, os`calls
      ensures Valid() && fresh(Repr - old(Repr)) && |old(devs)| <= |devs|
      ensures left == ready - |es| && |es| <= 1 && (es == [] ==> sys == old(sys))
      ensures Dispatching(old(sys), k, 0, ready, b, es, sys, k, 1, left)
    {
      left, es := ready, [];
      ghost var s := sys;
      var on := IsSetAt(k, r);
      if on {
        left := left - 1;
        var listener := ListenerAt(k);
        ghost var e;
        if listener {
          e := AcceptAt(k);
        } else {
          e := Read(k);
        }
        DispatchCalls(s, k, 0, ready, b, e);
        es := [e];
      } else {
        DispatchSkips(s, k, 0, ready, b);
      }
    }

    method WriteIfSet(k: nat, ready: int, ghost b: Bits, w: FdSet) returns (left: int, ghost es: seq<Event>)
      requires Valid() && k < |devs| && b.w == w.bits
      modifies this`sys, Repr, os`open, os`calls, clock
      ensures devs == old(devs) && parts == old(parts) && Repr == old(Repr) && Valid()
      ensures left == ready - |es| && |es| <= 1 && (es == [] ==> sys == old(sys))
      ensures Dispatching(old(sys), k, 1, ready, b, es, sys, k, 2, left)
    {
      left, es := ready, [];
      ghost var s := sys;
      var on := IsSetAt(k, w);
      if on {
        left := left - 1;
        ghost var e := Write(k);
        DispatchCalls(s, k, 1, ready, b, e);
        es := [e];
      } else {
        DispatchSkips(s, k, 1, ready, b);
      }
    }

    method ExceptIfSet(k: nat, ready: int, ghost b: Bits, x: FdSet) returns (left: int, ghost es: seq<Event>)
      requires Valid() && k < |devs| && b.x == x.bits
      modifies this`sys, Repr, os`open
      ensures devs == old(devs) && parts == old(parts) && Repr == old(Repr) && Valid()
      ensures left == ready - |es| && |es| <= 1 && (es == [] ==> sys == old(sys))
      ensures Dispatching(old(sys), k, 2, ready, b, es, sys, k + 1, 0, left)
    {
      left, es := ready, [];
      ghost var s := sys;
      var on := IsSetAt(k, x);
      if on {
        left := left - 1;
        ghost var e := ExceptAt(k);
        DispatchCalls(s, k, 2, ready, b, e);
        es := [e];
      } else {
        DispatchSkips(s, k, 2, ready, b);
      }
    }

    /** Call the handlers of ready descriptors, slot by slot; connections accepted on
        the way are visited as well. */
    method Dispatch(ready: int, r: FdSet, w: FdSet, x: FdSet) returns (ghost es: seq<Event>)
      requires Valid() && SetsApart(r, w, x)
      modifies this`sys, this`devs, this`parts, this`Repr, Repr, os`open, os`calls, clock
      ensures Valid() && fresh(Repr - old(Repr)) && SetsApart(r, w, x)
      ensures Feasible(old(sys), es) && sys == Run(old(sys), es) && SameApp(old(sys), sys)
      ensures Dispatches(old(sys), 0, 0, ready, Bits(r.bits, w.bits, x.bits), es)
    {
      ghost var s, b := sys, Bits(r.bits, w.bits, x.bits);
      es := [];
      var left, index := ready, 0;
      DispatchStarts(s, ready, b);
      while left > 0 && index < |devs|
        invariant Valid() && fresh(Repr - old(Repr)) && SetsApart(r, w, x)
        invariant index <= |devs| && Dispatching(s, 0, 0, ready, b, es, sys, index, 0, left)
        decreases if left > 0 then left else 0, |devs| - index
      {
        ghost var t, before := sys, left;
        ghost var more;
        left, more := DispatchAt(index, left, b, r, w, x);
        DispatchGoesOn(s, 0, 0, ready, b, es, t, index, 0, before, more, sys, index + 1, 0, left);
        es := es + more;
        index := index + 1;
      }
      DispatchEnds(s, ready, b, es, sys, index, left);
    }

    /** The handlers of one slot. */
    method DispatchAt(k: nat, ready: int, ghost b: Bits, r: FdSet, w: FdSet, x: FdSet)
      returns (left: int, ghost es: seq<Event>)
      requires Valid() && SetsApart(r, w, x) && k < |devs| && ready > 0
      requires b == Bits(r.bits, w.bits, x.bits)
      modifies this`sys, this`devs, this`parts, this`Repr, Repr, os`open, os`calls, clock
      ensures Valid() && fresh(Repr - old(Repr)) && |old(devs)| <= |devs|
      ensures left == ready - |es| && (es == [] ==> sys == old(sys))
      ensures Dispatching(old(sys), k, 0, ready, b, es, sys, k + 1, 0, left)
    {
      ghost var s := sys;
      var n, rs := ReadIfSet(k, ready, b, r);
      ghost var t := sys;
      var m, ws := WriteIfSet(k, n, b, w);
      ghost var u := sys;
      DispatchGoesOn(s, k, 0, ready, b, rs, t, k, 1, n, ws, u, k, 2, m);
      ghost var xs;
      left, xs := ExceptIfSet(k, m, b, x);
      DispatchGoesOn(s, k, 0, ready, b, rs + ws, u, k, 2, m, xs, sys, k + 1, 0, left);
      es := rs + ws + xs;
    }

    // ---- Closing ----

    /** Close every device that is not closed already. */
    method CloseAll()
      requires Valid()
      modifies this`sys, Repr, os`open
      ensures Valid() && devs == old(devs)
      ensures Feasible(old(sys), ShutAll(|devs|)) && sys == Run(old(sys), ShutAll(|devs|))
      ensures os.open == {}
    {
      ghost var s := sys;
      var i := 0;
      while i < |devs|
        invariant devs == old(devs) && parts == old(parts) && Repr == old(Repr) && Valid()
        invariant i <= |devs| == |s.slots|
        invariant Feasible(s, ShutAll(i)) && sys == Run(s, ShutAll(i))
      {
        ghost var e := ShutAt(i);
        ShutAllSnoc(s, i);
        i := i + 1;
      }
      ClosingReleasesAll(s, bufsize);
    }

    // ---- The selector loop ----

    /** Wait in select and dispatch what is ready. */
    method SelectAndDispatch(nfds: int, r: FdSet, w: FdSet, x: FdSet)
      returns (ready: int, ghost es: seq<Event>)
      requires Valid() && SetsApart(r, w, x)
      modifies this`sys, this`devs, this`parts, this`Repr, Repr, os, clock, r, w, x
      ensures Valid() && fresh(Repr - old(Repr)) && SetsApart(r, w, x)
      ensures Answered(old(sys), nfds, old(Bits(r.bits, w.bits, x.bits)), Bits(r.bits, w.bits, x.bits), ready, es, sys)
      ensures os.selects == old(os.selects) + [SelectCall(nfds, old(Bits(r.bits, w.bits, x.bits)), ready)]
      ensures ready > 0 ==> os.more < old(os.more)
    {
      ready := os.Select(nfds, r, w, x);
      es := [];
      if ready > 0 {
        es := Dispatch(ready, r, w, x);
      }
    }

    /** Once around the loop: fill the sets, select, and dispatch what is ready, unless no
        device is active. */
    method Around(r: FdSet, w: FdSet, x: FdSet) returns (ready: int, ghost p: Lap)
      requires Valid() && SetsApart(r, w, x)
      modifies this`sys, this`devs, this`parts, this`Repr, Repr, os, clock, r, w, x
      ensures Valid() && fresh(Repr - old(Repr)) && SetsApart(r, w, x)
      ensures LapEnd(old(sys), old(Bits(r.bits, w.bits, x.bits)), p) == Some(sys)
      ensures SameApp(old(sys), sys) && p.ready == ready
      ensures os.selects == old(os.selects) + p.selects
      ensures ready > 0 ==> p.kept == Bits(r.bits, w.bits, x.bits)
      ensures ready > 0 ==> os.more < old(os.more)
    {
      ghost var s, before := sys, Bits(r.bits, w.bits, x.bits);
      var active, highest;
      ghost var masks;
      active, highest, masks := IoSet(r, w, x);
      ghost var st := Status(Bits(r.bits, w.bits, x.bits), active, highest);
      if active > 0 {
        ready, p := Answer(highest, r, w, x, s, masks, before, st);
      } else {
        ready, p := 0, Lap(masks, [], NO_BITS, 0, []);
        LapIdle(s, sys, before, st, p);
      }
    }

    /** The second half of a lap, in which some device is active. */
    method Answer(highest: int, r: FdSet, w: FdSet, x: FdSet,
                  ghost s: Sys, ghost masks: seq<Event>, ghost before: Bits, ghost st: Status)
      returns (ready: int, ghost p: Lap)
      requires Valid() && SetsApart(r, w, x) && |masks| == |s.slots| && Passing(s, masks, sys, before, st)
      requires st.bits == Bits(r.bits, w.bits, x.bits) && st.highest == highest && st.active > 0
      modifies this`sys, this`devs, this`parts, this`Repr, Repr, os, clock, r, w, x
      ensures Valid() && fresh(Repr - old(Repr)) && SetsApart(r, w, x)
      ensures LapEnd(s, before, p) == Some(sys) && SameApp(s, sys) && p.ready == ready
      ensures os.selects == old(os.selects) + p.selects
      ensures ready > 0 ==> p.kept == Bits(r.bits, w.bits, x.bits)
      ensures ready > 0 ==> os.more < old(os.more)
    {
      ghost var t, es := sys, [];
      ready, es := SelectAndDispatch(highest + 1, r, w, x);
      p := Lap(masks, [SelectCall(highest + 1, st.bits, ready)], Bits(r.bits, w.bits, x.bits), ready, es);
      LapAnswered(s, t, before, st, p, sys);
    }

    /** Around and around, as long as something is ready; how often is up to the system. */
    method GoAround(r: FdSet, w: FdSet, x: FdSet) returns (ghost ps: seq<Lap>)
      requires Valid() && SetsApart(r, w, x) && Bits(r.bits, w.bits, x.bits) == NO_BITS
      modifies this`sys, this`devs, this`parts, this`Repr, Repr, os, clock, r, w, x
      ensures Valid() && fresh(Repr - old(Repr))
      ensures Looped(old(sys), ps, sys) && os.selects == old(os.selects) + LoopSelects(ps)
    {
      ghost var s, selects := sys, os.selects;
      var ready := 1;
      ps := [];
      while ready > 0
        invariant Going(s, selects, ps, ready, r, w, x) && fresh(Repr - old(Repr))
        decreases if ready > 0 then os.more + 1 else 0
      {
        ready, ps := GoOn(r, w, x, s, selects, ps, ready);
      }
      LoopStops(s, ps, sys, Bits(r.bits, w.bits, x.bits), ready);
    }

    /** The loop under way from `s`, after the laps `ps`. */
    ghost predicate Going(s: Sys, selects: seq<SelectCall>, ps: seq<Lap>, ready: int, r: FdSet, w: FdSet, x: FdSet)
      reads this, os, clock, Repr, r, w, x
    {
      && Valid() && SetsApart(r, w, x) && os.selects == selects + LoopSelects(ps)
      && Looping(s, ps, sys, Bits(r.bits, w.bits, x.bits), ready)
    }

    /** Once more around a loop under way. */
    method GoOn(r: FdSet, w: FdSet, x: FdSet, ghost s: Sys, ghost selects: seq<SelectCall>,
                ghost ps: seq<Lap>, last: int)
      returns (ready: int, ghost laps: seq<Lap>)
      requires Going(s, selects, ps, last, r, w, x) && last > 0
      modifies this`sys, this`devs, this`parts, this`Repr, Repr, os, clock, r, w, x
      ensures Going(s, selects, laps, ready, r, w, x) && fresh(Repr - old(Repr))
      ensures ready > 0 ==> os.more < old(os.more)
    {
      ghost var t, sets := sys, Bits(r.bits, w.bits, x.bits);
      ghost var p;
      ready, p := Around(r, w, x);
      LoopGoesOn(s, ps, t, sets, last, p, sys, Bits(r.bits, w.bits, x.bits));
      laps := ps + [p];
    }

    /** The selector loop, from cleared sets. Its result is 0 even when select failed. */
    method Loop() returns (rc: int, ghost ps: seq<Lap>)
      requires Valid()
      modifies this`sys, this`devs, this`parts, this`Repr, Repr, os, clock
      ensures Valid() && fresh(Repr - old(Repr))
      ensures Looped(old(sys), ps, sys) && os.selects == old(os.selects) + LoopSelects(ps)
      ensures rc == 0
    {
      var r := new FdSet.Zero();
      var w := new FdSet.Zero();
      var x := new FdSet.Zero();
      ps := GoAround(r, w, x);
      rc := 0;
    }

    // ---- What the process cycle does with a slot ----

    ghost predicate BufferApart(b: Buffer)
      reads this`Repr
    {
      b !in Repr && b.data !in Repr
    }

    method CallMove(k: nat, dst: Buffer) returns (moved: nat)
      requires Separate() && k < |devs| && dst.Valid() && BufferApart(dst)
      modifies parts[k], dst, dst.data
      ensures devs == old(devs) && parts == old(parts) && Repr == old(Repr) && Separate() && dst.Valid()
      ensures var bytes := Movable(old(devs[k].Model), old(dst.Model()).Available());
        && moved == |bytes|
        && dst.Model() == old(dst.Model()).Put(bytes)
        && devs[k].Model == old(devs[k].Model).(rbuf := old(devs[k].Model).rbuf.Drop(|bytes|))
      ensures forall j :: 0 <= j < |devs| && j != k ==> devs[j].Model == old(devs[j].Model)
    {
      assert forall j :: 0 <= j < |devs| && j != k ==> parts[j] !! parts[k] && Owns(devs[j], parts[j]);
      assert Look(0) && Owns(devs[k], parts[k]);
      moved := devs[k].MoveReceived(dst);
    }

    method CallCopy(k: nat, src: Buffer, len: nat)
      requires Separate() && k < |devs| && src.Valid() && BufferApart(src)
      modifies parts[k], src`lo, src`hi, src`Contents
      ensures devs == old(devs) && parts == old(parts) && Repr == old(Repr) && Separate()
      ensures src.Valid() && src.Model() == old(src.Model())
      ensures var d := old(devs[k].Model);
        devs[k].Model == d.(tbuf := d.tbuf.Put(Fit(src.Contents, len)))
      ensures forall j :: 0 <= j < |devs| && j != k ==> devs[j].Model == old(devs[j].Model)
    {
      assert forall j :: 0 <= j < |devs| && j != k ==> parts[j] !! parts[k] && Owns(devs[j], parts[j]);
      assert Look(0) && Owns(devs[k], parts[k]);
      devs[k].CopyFrom(src, len);
    }

    method CallCollect(k: nat)
      requires Separate() && k < |devs|
      modifies parts[k]
      ensures Owns(devs[k], devs[k].Repr) && fresh(devs[k].Repr - parts[k])
      ensures devs[k].Model == Pull(old(devs[k].Model))
      ensures forall j :: 0 <= j < |devs| && j != k ==>
        Owns(devs[j], parts[j]) && devs[j].Model == old(devs[j].Model)
    {
      assert forall j :: 0 <= j < |devs| && j != k ==> parts[j] !! parts[k] && Owns(devs[j], parts[j]);
      assert Look(0) && Owns(devs[k], parts[k]);
      devs[k].CollectLine();
    }

    method CollectAt(k: nat)
      requires Separate() && k < |devs|
      modifies this`parts, this`Repr, parts[k]
      ensures devs == old(devs) && Separate() && fresh(Repr - old(Repr))
      ensures devs[k].Model == Pull(old(devs[k].Model))
      ensures forall j :: 0 <= j < |devs| && j != k ==> devs[j].Model == old(devs[j].Model)
    {
      assert Owns(devs[k], parts[k]);
      CallCollect(k);
      Adopt(k);
    }

    method NextLineAt(k: nat) returns (command: Option<seq<byte>>)
      requires Separate() && k < |devs|
      ensures command == match devs[k].Model.linebuf
        case None => None
        case Some(line) =>
          match NextLength(line, NEWLINE)
          case None => None
          case Some(len) => Some(line[..len])
    {
      assert Look(0) && Owns(devs[k], parts[k]);
      command := devs[k].NextLine();
    }

    method CallConsume(k: nat, len: nat)
      requires Separate() && k < |devs| && devs[k].Model.linebuf.Some?
      modifies parts[k]
      ensures devs == old(devs) && parts == old(parts) && Repr == old(Repr) && Separate()
      ensures devs[k].Model ==
        old(devs[k].Model).(linebuf := Some(Consumed(old(devs[k].Model).linebuf.value, len)))
      ensures forall j :: 0 <= j < |devs| && j != k ==> devs[j].Model == old(devs[j].Model)
    {
      assert forall j :: 0 <= j < |devs| && j != k ==> parts[j] !! parts[k] && Owns(devs[j], parts[j]);
      assert Look(0) && Owns(devs[k], parts[k]);
      devs[k].ConsumeLine(len);
    }

    method CallQueue(k: nat, bytes: seq<byte>)
      requires Separate() && k < |devs|
      modifies parts[k]
      ensures devs == old(devs) && parts == old(parts) && Repr == old(Repr) && Separate()
      ensures devs[k].Model == QueueDev(old(devs[k].Model), bytes)
      ensures forall j :: 0 <= j < |devs| && j != k ==> devs[j].Model == old(devs[j].Model)
    {
      assert forall j :: 0 <= j < |devs| && j != k ==> parts[j] !! parts[k] && Owns(devs[j], parts[j]);
      assert Look(0) && Owns(devs[k], parts[k]);
      var rc := devs[k].Write(bytes);
    }

    /** Bring `sys` up to date with what the devices have become. */
    ghost method Become(t: Sys)
      requires Separate() && |t.slots| == |devs| && t.os == os.open && t.calls == os.calls && t.now == clock.now
      requires forall j :: 0 <= j < |devs| ==> devs[j].Model == t.slots[j].dev
      modifies this`sys
      ensures Matches() && sys == t
    {
      sys := t;
    }

    // ---- Filling the array at the start ----

    static method NewSerial(size: nat, clock: Clock) returns (dev: IoDev)
      requires clock.Valid()
      modifies clock
      ensures Owns(dev, dev.Repr) && fresh(dev.Repr) && clock.Valid() && old(clock.now) <= clock.now
      ensures dev.Model == SerialDev(size, clock.now)
    {
      dev := new IoDev();
      dev.CreateSerial(size, clock);
    }

    /** The serial device is created first and so gets slot 0. */
    method AddSerial(size: nat)
      requires Matches() && devs == []
      modifies this`sys, this`devs, this`parts, this`Repr, clock
      ensures Matches() && fresh(Repr - old(Repr))
      ensures sys == old(sys).(slots := [Slot(SerialDev(size, clock.now), NO_LOG)], now := clock.now)
    {
      var at := FindFree();
      var dev := NewSerial(size, clock);
      devs := [dev];
      parts := [dev.Repr];
      Repr := dev.Repr;
      sys := sys.(slots := [Slot(SerialDev(size, clock.now), NO_LOG)], now := clock.now);
    }

    method AddListener(size: nat)
      requires Matches()
      modifies this`sys, this`devs, this`parts, this`Repr, Repr
      ensures Matches() && fresh(Repr - old(Repr))
      ensures os.open == old(os.open) && os.calls == old(os.calls) && clock.now == old(clock.now)
      ensures sys == old(sys).(slots := Place(old(sys).slots, Slot(ListenDev(size), NO_LOG)))
    {
      var at := FindFree();
      Accommodate(at, true, NO_FD, size);
      Become(sys.(slots := Place(sys.slots, Slot(ListenDev(size), NO_LOG))));
    }
  }
}
