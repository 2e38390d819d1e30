/** What each handler asks of the system and makes of the answer, in every state the
    gateway can reach, said of the bytes and descriptors themselves. */
module Handlers {
  import opened Bytes
  import opened Buffers
  import opened Timers
  import opened Devices
  import opened Systems
  import opened Shapes
  import opened Passes
  import opened Runs
  import Calls

  /** The device in a slot. */
  function At(s: Sys, i: nat): Dev
    requires i < |s.slots|
  {
    s.slots[i].dev
  }

  /** How many bytes a device has room to receive: one place in the ring stays free. */
  function Room(d: Dev, bufsize: nat): int {
    bufsize - 1 - |d.rbuf.contents|
  }

  /** A device has let go of its descriptor: a slot of a connection is free, any other
      device is to be opened again. */
  ghost predicate Released(s: Sys, t: Sys, i: nat)
    requires i < |s.slots|
  {
    && |t.slots| == |s.slots|
    && t.slots[i].dev.fd == NO_FD && t.os == s.os - {s.slots[i].dev.fd}
    && t.slots[i].dev.state == (if s.slots[i].dev.kind.Connection? then Inactive else Closed)
  }

  // ---- Reading ----

  lemma ReadRequest(d: Dev, res: ReadResult, bufsize: nat)
    requires DevOk(d, bufsize) && bufsize >= 2 && d.fd != NO_FD && !d.listener
    ensures d.rbuf.Available() == Room(d, bufsize) >= 0
    ensures ReadCalls(d, res) == [ReadCall(d.fd, Room(d, bufsize), res)]
  {
  }

  /** A device with a descriptor that is no listener is asked for exactly as much as it has
      room for, and any answer that fits the request may come. */
  lemma ReadAsksForItsRoom(s: Sys, i: nat, res: ReadResult, bufsize: nat)
    requires Reachable(s, bufsize) && i < |s.slots| && At(s, i).fd != NO_FD && !At(s, i).listener
    ensures Enabled(s, Read(i, res)) <==> (res.Data? ==> 0 < |res.bytes| <= Room(At(s, i), bufsize))
    ensures 0 <= Room(At(s, i), bufsize)
    ensures Enabled(s, Read(i, res)) ==>
      Exec(s, Read(i, res)).calls == s.calls + [ReadCall(At(s, i).fd, Room(At(s, i), bufsize), res)]
  {
    ReachableLayout(s, bufsize);
    assert DevsOf(s)[i] == At(s, i);
    ReadRequest(At(s, i), res, bufsize);
    if Enabled(s, Read(i, res)) {
      ReadChanges(s, i, res);
    }
  }

  /** What arrives is stored behind what waits already; at end of file and after an error
      both buffers are emptied and the descriptor is let go. */
  lemma ReadStoresOrCloses(s: Sys, i: nat, res: ReadResult, bufsize: nat)
    requires Reachable(s, bufsize) && Enabled(s, Read(i, res)) && At(s, i).fd != NO_FD
    ensures var t := Exec(s, Read(i, res));
      if res.Data? then
        && |t.slots| == |s.slots| && t.os == s.os
        && At(t, i) == At(s, i).(rbuf := Ring(bufsize, At(s, i).rbuf.contents + res.bytes))
      else
        Released(s, t, i) && At(t, i).rbuf.contents == [] && At(t, i).tbuf.contents == []
  {
    ReachableLayout(s, bufsize);
    assert DevsOf(s)[i] == At(s, i);
    ReadChanges(s, i, res);
    if res.Data? {
      ReadStoresAll(s, i, res, bufsize);
    }
  }

  /** A device without a descriptor is not asked and stays as it is. */
  lemma NothingIsAskedWithoutFd(s: Sys, e: Event)
    requires Enabled(s, e) && (e.Read? || e.Write?) && At(s, e.i).fd == NO_FD
    ensures Exec(s, e).calls == s.calls && Exec(s, e).os == s.os
    ensures |Exec(s, e).slots| == |s.slots| && At(Exec(s, e), e.i) == At(s, e.i)
  {
  }

  // ---- Writing ----

  /** A connection with anything queued offers the whole queue, and the system may take
      any front of it or fail. */
  lemma WriteOffersTheQueue(s: Sys, i: nat, res: WriteResult, check: nat, end: nat, bufsize: nat)
    requires Reachable(s, bufsize) && i < |s.slots| && At(s, i).kind.Connection?
    requires At(s, i).fd != NO_FD && At(s, i).tbuf.contents != []
    ensures var e := Write(i, res, check, end);
      && (Enabled(s, e) <==>
            && s.now <= check <= end < CLOCK_LIMIT
            && (res.Wrote? ==> res.len <= |At(s, i).tbuf.contents|))
      && (Enabled(s, e) ==>
            Exec(s, e).calls == s.calls + [WriteCall(At(s, i).fd, At(s, i).tbuf.contents, res)])
  {
    assert Offered(At(s, i)) == At(s, i).tbuf.contents;
  }

  /** What was taken leaves the queue; after an error both buffers are emptied and the
      descriptor is let go. */
  lemma WriteDrainsOrCloses(s: Sys, i: nat, res: WriteResult, check: nat, end: nat, bufsize: nat)
    requires Reachable(s, bufsize) && Enabled(s, Write(i, res, check, end)) && At(s, i).kind.Connection?
    requires At(s, i).fd != NO_FD && At(s, i).tbuf.contents != []
    ensures var t := Exec(s, Write(i, res, check, end));
      if res.Wrote? then
        && |t.slots| == |s.slots| && t.os == s.os
        && At(t, i) == At(s, i).(tbuf := Ring(bufsize, At(s, i).tbuf.contents[res.len..]))
      else
        Released(s, t, i) && At(t, i).rbuf.contents == [] && At(t, i).tbuf.contents == []
  {
    ReachableLayout(s, bufsize);
    assert DevsOf(s)[i] == At(s, i);
  }

  /** The serial device offers its first queued character once its pacer has expired, and
      the system takes it, takes nothing or fails. */
  lemma SerialOffersOneCharacter(s: Sys, res: WriteResult, check: nat, end: nat, bufsize: nat)
    requires Reachable(s, bufsize) && |s.slots| > 0
    requires At(s, 0).fd != NO_FD && At(s, 0).tbuf.contents != []
    ensures var e := Write(0, res, check, end);
      && (Enabled(s, e) <==> s.now <= check <= end < CLOCK_LIMIT && (res.Wrote? ==> res.len <= 1))
      && (Enabled(s, e) ==>
            Exec(s, e).calls == s.calls +
              if At(s, 0).pacer.Expired(check) then [WriteCall(At(s, 0).fd, [At(s, 0).tbuf.contents[0]], res)] else [])
  {
    ReachableLayout(s, bufsize);
    assert Offered(At(s, 0)) == [At(s, 0).tbuf.contents[0]];
    assert DevsOf(s)[0] == At(s, 0);
  }

  /** Behind it the pacer runs: it expires again one pace after the write ended. */
  lemma SerialSendsAndWaits(s: Sys, len: nat, check: nat, end: nat, later: nat, bufsize: nat)
    requires Reachable(s, bufsize) && Enabled(s, Write(0, Wrote(len), check, end)) && later < TWO_63
    requires At(s, 0).fd != NO_FD && At(s, 0).tbuf.contents != [] && At(s, 0).pacer.Expired(check)
    ensures var t := Exec(s, Write(0, Wrote(len), check, end));
      && |t.slots| == |s.slots| && t.os == s.os
      && At(t, 0) == At(s, 0).(tbuf := Ring(bufsize, At(s, 0).tbuf.contents[len..]), pacer := At(t, 0).pacer)
      && (At(t, 0).pacer.Expired(later) <==> later >= end + CHARACTER_PACING)
  {
    ReachableLayout(s, bufsize);
    assert DevsOf(s)[0] == At(s, 0);
    WriteChanges(s, 0, Wrote(len), check, end);
    ExpiresAtItsEnd(RIGHT_NOW, CHARACTER_PACING, end, later);
  }

  /** After an error the port is closed, and the queue kept for when it is opened again. */
  lemma SerialKeepsTheQueue(s: Sys, check: nat, end: nat, bufsize: nat)
    requires Reachable(s, bufsize) && Enabled(s, Write(0, WriteError, check, end))
    requires At(s, 0).fd != NO_FD && At(s, 0).tbuf.contents != [] && At(s, 0).pacer.Expired(check)
    ensures var t := Exec(s, Write(0, WriteError, check, end));
      Released(s, t, 0) && At(t, 0) == At(s, 0).(fd := NO_FD, state := Closed)
  {
    ReachableLayout(s, bufsize);
    assert DevsOf(s)[0] == At(s, 0);
    WriteChanges(s, 0, WriteError, check, end);
  }

  /** Before that, or with nothing queued, the handler leaves the device alone. */
  lemma NothingIsWrittenBefore(s: Sys, i: nat, res: WriteResult, check: nat, end: nat, bufsize: nat)
    requires Reachable(s, bufsize) && Enabled(s, Write(i, res, check, end))
    requires At(s, i).tbuf.contents == [] || (i == 0 && !At(s, 0).pacer.Expired(check))
    ensures var t := Exec(s, Write(i, res, check, end));
      t.calls == s.calls && t.os == s.os && |t.slots| == |s.slots| && At(t, i) == At(s, i)
  {
    ReachableLayout(s, bufsize);
    assert DevsOf(s)[0] == At(s, 0);
  }

  // ---- Exceptions, closing and opening ----

  /** An exception closes the device, as closing it at the end does. */
  lemma ExceptionCloses(s: Sys, i: nat, bufsize: nat)
    requires Reachable(s, bufsize) && i < |s.slots| && At(s, i).fd != NO_FD
    ensures Released(s, Exec(s, Except(i)), i) && Exec(s, Except(i)).calls == s.calls
    ensures Released(s, Exec(s, Shut(i)), i) && Exec(s, Shut(i)).calls == s.calls
  {
    ReachableLayout(s, bufsize);
    assert DevsOf(s)[i] == At(s, i);
    CloseChanges(s, i);
    CloseKeeps(At(s, i), s.os, IOFLAG_NONE, bufsize);
    CloseKeeps(At(s, i), s.os, IOFLAG_INACTIVE, bufsize);
  }

  /** The serial device and listeners are opened by setting their masks while they are new
      or closed, and nothing else is: the system is asked for a descriptor, and to set up
      the one it gave; the device comes up if both went well, is given up without a
      descriptor, and is to be opened again if it was not set up. */
  lemma MasksOpenWhatIsDue(s: Sys, i: nat, o: Opening, time: nat, bufsize: nat)
    requires Reachable(s, bufsize) && Enabled(s, Masks(i, o, time))
    ensures var t, d := Exec(s, Masks(i, o, time)), s.slots[i].dev;
      && |t.slots| == |s.slots|
      && if d.state != Unopened && d.state != Closed then t.calls == s.calls && t.os == s.os && At(t, i) == d
         else
           && !d.kind.Connection?
           && match o
              case NoFd =>
                && t.calls == s.calls + [OpenCall(-1, i == 0)]
                && At(t, i) == d.(state := Inactive) && t.os == s.os
              case Broken(fd) =>
                && t.calls == s.calls + [OpenCall(fd, i == 0), SetUpCall(fd, false)]
                && At(t, i) == d.(state := Closed) && t.os == s.os
              case Good(fd) =>
                && t.calls == s.calls + [OpenCall(fd, i == 0), SetUpCall(fd, true)]
                && At(t, i) == d.(fd := fd, state := Connected) && t.os == s.os + {fd}
  {
    ReachableLayout(s, bufsize);
    assert DevsOf(s)[i] == At(s, i);
  }

  // ---- What a ready descriptor leads to ----

  /** A client found ready to be written to, alone, is offered its whole queue. */
  lemma ReadyToWriteIsWritten(t: Sys, k: nat, es: seq<Event>, bufsize: nat)
    requires Reachable(t, bufsize) && k < |t.slots| && At(t, k).kind.Connection?
    requires At(t, k).fd != NO_FD && At(t, k).tbuf.contents != []
    requires Dispatches(t, 0, 0, 1, Bits({}, {At(t, k).fd}, {}), es)
    ensures |es| == 1 && Enabled(t, es[0]) && es[0].Write?
    ensures Exec(t, es[0]).calls == t.calls + [WriteCall(At(t, k).fd, At(t, k).tbuf.contents, es[0].write)]
  {
    ReachableLayout(t, bufsize);
    OneWrite(t, k, es, bufsize);
    WriteOffersTheQueue(t, k, es[0].write, es[0].check, es[0].end, bufsize);
  }

  /** A device found ready to be read, alone, is read, and a listener accepts. */
  lemma ReadyToReadIsRead(t: Sys, k: nat, es: seq<Event>, bufsize: nat)
    requires Reachable(t, bufsize) && k < |t.slots| && At(t, k).fd != NO_FD
    requires Dispatches(t, 0, 0, 1, Bits({At(t, k).fd}, {}, {}), es)
    ensures |es| == 1 && Enabled(t, es[0])
    ensures if At(t, k).listener then
        es[0].Accept? && Exec(t, es[0]).calls == t.calls + [AcceptCall(At(t, k).fd, es[0].fd)]
      else
        && es[0].Read? && 0 <= Room(At(t, k), bufsize)
        && Exec(t, es[0]).calls == t.calls + [ReadCall(At(t, k).fd, Room(At(t, k), bufsize), es[0].read)]
  {
    ReachableLayout(t, bufsize);
    OneRead(t, k, es, bufsize);
    if At(t, k).listener {
      AcceptChanges(t, k, es[0].fd);
    } else {
      ReadAsksForItsRoom(t, k, es[0].read, bufsize);
    }
  }

  // ---- The record of a run ----

  /** In this state this event makes this call: a read for the room there is, a write of
      the queue or its first character, an accept on the listener's descriptor, or the
      opening of a device that is due. */
  ghost predicate Asks(s: Sys, e: Event, c: Call, bufsize: nat) {
    && Enabled(s, e) && !e.Cycle? && e.i < |s.slots|
    && var d := s.slots[e.i].dev;
    match c
    case ReadCall(fd, max, res) =>
      e == Read(e.i, res) && !d.listener && fd == d.fd != NO_FD && max == Room(d, bufsize)
    case WriteCall(fd, bytes, res) =>
      && e.Write? && e.write == res && fd == d.fd != NO_FD && d.tbuf.contents != []
      && bytes == (if e.i == 0 then [d.tbuf.contents[0]] else d.tbuf.contents)
      && (e.i == 0 ==> d.pacer.Expired(e.check))
    case AcceptCall(on, fd) => e == Accept(e.i, fd) && d.listener && on == d.fd != NO_FD
    case OpenCall(fd, port) => e.Masks? && d.state in {Unopened, Closed} && (port <==> e.i == 0)
    case SetUpCall(fd, ok) =>
      e.Masks? && d.state in {Unopened, Closed} && e.opening == (if ok then Good(fd) else Broken(fd))
  }

  /** The calls of a device at an event that sets its masks, reads or writes. */
  function CallsAt(d: Dev, e: Event): seq<Call>
    requires e.Masks? || e.Read? || e.Write?
  {
    match e
    case Masks(_, o, _) => MaskCalls(d, o)
    case Read(_, res) => ReadCalls(d, res)
    case Write(_, res, check, _) => WriteCalls(d, res, check)
  }

  lemma DevAsks(s: Sys, e: Event, bufsize: nat)
    requires Layout(s, bufsize) && Enabled(s, e) && (e.Masks? || e.Read? || e.Write?)
    ensures forall c :: c in CallsAt(s.slots[e.i].dev, e) ==> Asks(s, e, c, bufsize)
  {
    var d := s.slots[e.i].dev;
    assert DevsOf(s)[e.i] == d && DevsOf(s)[0] == s.slots[0].dev;
    if e.Write? && d.tbuf.contents != [] {
      assert Offered(d) == if e.i == 0 then [d.tbuf.contents[0]] else d.tbuf.contents;
    }
  }

  /** An event makes no other calls. */
  lemma EventAsks(s: Sys, e: Event, bufsize: nat)
    requires Reachable(s, bufsize) && Enabled(s, e)
    ensures s.calls <= Exec(s, e).calls
    ensures forall j :: |s.calls| <= j < |Exec(s, e).calls| ==> Asks(s, e, Exec(s, e).calls[j], bufsize)
  {
    ReachableLayout(s, bufsize);
    match e
    case Cycle(ticks) =>
      ReachableCalls(s, bufsize);
      Calls.CycleCalls(s, ticks, bufsize);
    case Accept(i, fd) => AcceptChanges(s, i, fd);
    case Except(i) =>
    case Shut(i) =>
    case _ => DevAsks(s, e, bufsize);
  }

  /** Each call in the record of a run was made by an event of that run, in the state `u`
      before it, for what the device held then. */
  lemma {:induction false} EveryCallWasAsked(s: Sys, es: seq<Event>, t: Sys, j: nat, bufsize: nat)
    returns (n: nat, u: Sys)
    requires Reachable(s, bufsize) && Feasible(s, es) && t == Run(s, es) && |s.calls| <= j < |t.calls|
    ensures n < |es| && Feasible(s, es[..n]) && u == Run(s, es[..n]) && |u.calls| <= j
    ensures Asks(u, es[n], t.calls[j], bufsize)
    decreases |es|
  {
    var front := es[..|es| - 1];
    u := Run(s, front);
    ReachableRun(s, front, bufsize);
    EventAsks(u, es[|es| - 1], bufsize);
    if j < |u.calls| {
      n, u := EveryCallWasAsked(s, front, u, j, bufsize);
      FrontOfFront(es, n);
    } else {
      n := |es| - 1;
    }
  }

  lemma FrontOfFront(es: seq<Event>, n: nat)
    requires n < |es| - 1
    ensures es[..|es| - 1][..n] == es[..n] && es[..|es| - 1][n] == es[n]
  {
  }
}
