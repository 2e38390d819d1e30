/** Runs in which a bit left over for a closed descriptor misleads the selector loop. Every
    descriptor in them is the lowest free one, 0 to 2 being the standard ones. */
module StaleBits {
  import opened Bytes
  import opened Buffers
  import opened Timers
  import opened Devices
  import opened Systems
  import opened Shapes
  import opened Passes

  // ---- The states of the runs ----

  /** The smallest rings, which hold one byte. */
  const SIZE: nat := 2

  function Serial(fd: int, state: DevState, received: seq<byte>): Dev {
    SerialDev(SIZE, 1).(fd := fd, state := state, rbuf := Ring(SIZE, received))
  }

  function ListenerOn(fd: int, state: DevState): Dev {
    ListenDev(SIZE).(fd := fd, state := state)
  }

  function Client(fd: int, state: DevState): Dev {
    AcceptedDev(fd, SIZE).(state := state)
  }

  ghost predicate At(s: Sys, devs: seq<Dev>, os: set<int>) {
    && DevsOf(s) == devs && |s.slots| == |devs| && s.os == os && s.now == 1
    && forall k :: 0 <= k < |devs| ==> s.slots[k].dev == devs[k]
  }

  ghost predicate Idle(s: Sys) {
    At(s, [Serial(3, Connected, []), ListenerOn(4, Connected)], {3, 4})
  }

  ghost predicate Served(s: Sys) {
    At(s, [Serial(3, Connected, []), ListenerOn(4, Connected), Client(5, Connected)], {3, 4, 5})
  }

  ghost predicate Full(s: Sys) {
    At(s, [Serial(3, Connected, [0]), ListenerOn(4, Connected), Client(5, Connected)], {3, 4, 5})
  }

  ghost predicate Lost(s: Sys) {
    At(s, [Serial(NO_FD, Closed, [0]), ListenerOn(4, Connected), Client(5, Connected)], {4, 5})
  }

  // ---- Up to the loop ----

  /** The first round opens the serial device and the listener and serves nobody. */
  lemma FirstRound() returns (s: Sys)
    ensures Reachable(s, SIZE) && Idle(s)
  {
    var s0 := Start(SIZE, 1, 1);
    StartReachable(SIZE, 1, 1);
    var e := Event.Masks(0, Good(3), 1);
    ReachableExec(s0, e, SIZE);
    var s1 := Exec(s0, e);
    assert At(s1, [Serial(3, Connected, []), ListenerOn(NO_FD, Unopened)], {3});
    var f := Event.Masks(1, Good(4), 1);
    ReachableExec(s1, f, SIZE);
    var s2 := Exec(s1, f);
    assert Idle(s2);
    s := FirstCycle(s2);
  }

  lemma FirstCycle(t: Sys) returns (s: Sys)
    requires Reachable(t, SIZE) && Idle(t)
    ensures Reachable(s, SIZE) && Idle(s)
  {
    var ticks := [Tick(1, 1), Tick(1, 1)];
    ReachableExec(t, Cycle(ticks), SIZE);
    s := Exec(t, Cycle(ticks));
    NothingToServe(t, ticks);
  }

  lemma NothingToServe(t: Sys, ticks: seq<Tick>)
    requires Idle(t) && ticks == [Tick(1, 1), Tick(1, 1)]
    ensures Idle(DoCycle(t, ticks))
  {
    NothingToMove(t);
    OnlyAListener(BeginCycle(t), ticks);
  }

  lemma NothingToMove(t: Sys)
    requires Idle(t)
    ensures SerialBytes(t) == [] && Idle(BeginCycle(t))
  {
    assert t.slots[0].dev.rbuf.Drop(0) == t.slots[0].dev.rbuf;
  }

  lemma OnlyAListener(b: Sys, ticks: seq<Tick>)
    requires Idle(b) && ticks == [Tick(1, 1), Tick(1, 1)]
    ensures ServeFrom(b, 1, 0, ticks) == b.(now := 1)
  {
    assert b.slots[1].dev.listener;
    var c := ServeSlot(b, 1, 0, ticks[1]);
    assert c == b.(now := 1);
    assert ServeFrom(c, 2, 0, ticks) == c;
  }

  // ---- The masks of each lap ----

  lemma PassStarts(s: Sys, before: Bits)
    ensures Passing(s, [], s, before, Status(before, 0, 0))
  {
  }

  /** One more slot in a mask pass. */
  lemma PassGoesOn(s: Sys, es: seq<Event>, t: Sys, before: Bits, st: Status, e: Event, u: Sys, next: Status)
    requires Passing(s, es, t, before, st)
    requires e.Masks? && e.i == |es| && Enabled(t, e) && u == Exec(t, e) && SameApp(t, u)
    requires next == MaskOne(t.slots[e.i].dev, u.slots[e.i].dev.fd, e.time, st)
    ensures Passing(s, es + [e], u, before, next)
  {
    PassSnoc(s, es, t, before, st, e);
  }

  /** Setting the masks of a device that need not be opened changes nothing. */
  lemma NothingToOpen(s: Sys, i: nat)
    requires i < |s.slots| && s.now == 1 && s.slots[i].dev.state in {Connected, Inactive}
    ensures Enabled(s, Event.Masks(i, NoFd, 1)) && Exec(s, Event.Masks(i, NoFd, 1)) == s
  {
  }

  function Two(): seq<Event> {
    [Event.Masks(0, NoFd, 1)] + [Event.Masks(1, NoFd, 1)]
  }

  function Three(o: Opening): seq<Event> {
    [Event.Masks(0, o, 1)] + [Event.Masks(1, NoFd, 1)] + [Event.Masks(2, NoFd, 1)]
  }

  lemma IdleMasks(s: Sys)
    requires Idle(s)
    ensures Passing(s, Two(), s, NO_BITS, Status(Bits({3, 4}, {}, {3, 4}), 2, 4))
  {
    var e, f, one := Event.Masks(0, NoFd, 1), Event.Masks(1, NoFd, 1), Status(Bits({3}, {}, {3}), 1, 3);
    PassStarts(s, NO_BITS);
    NothingToOpen(s, 0);
    assert [] + [e] == [e];
    PassGoesOn(s, [], s, NO_BITS, Status(NO_BITS, 0, 0), e, s, one);
    NothingToOpen(s, 1);
    PassGoesOn(s, [e], s, NO_BITS, one, f, s, Status(Bits({3, 4}, {}, {3, 4}), 2, 4));
  }

  lemma ServedMasks(s: Sys)
    requires Served(s)
    ensures Passing(s, Three(NoFd), s, Bits({4}, {}, {}), Status(Bits({3, 4, 5}, {}, {3, 4, 5}), 3, 5))
  {
    var before := Bits({4}, {}, {});
    var e, f, g := Event.Masks(0, NoFd, 1), Event.Masks(1, NoFd, 1), Event.Masks(2, NoFd, 1);
    var one, two := Status(Bits({3, 4}, {}, {3}), 1, 3), Status(Bits({3, 4}, {}, {3, 4}), 2, 4);
    PassStarts(s, before);
    NothingToOpen(s, 0);
    assert [] + [e] == [e];
    PassGoesOn(s, [], s, before, Status(before, 0, 0), e, s, one);
    NothingToOpen(s, 1);
    PassGoesOn(s, [e], s, before, one, f, s, two);
    NothingToOpen(s, 2);
    PassGoesOn(s, [e] + [f], s, before, two, g, s, Status(Bits({3, 4, 5}, {}, {3, 4, 5}), 3, 5));
  }

  /** The serial device is reopened on its old descriptor, whose bits are left over. */
  lemma LostMasks(s: Sys) returns (t: Sys)
    requires Lost(s)
    ensures Full(t)
    ensures Passing(s, Three(Good(3)), t, Bits({3}, {}, {3}), Status(Bits({3, 4, 5}, {}, {3, 4, 5}), 2, 5))
  {
    var before := Bits({3}, {}, {3});
    var e, f, g := Event.Masks(0, Good(3), 1), Event.Masks(1, NoFd, 1), Event.Masks(2, NoFd, 1);
    var one := Status(Bits({3, 4}, {}, {3, 4}), 1, 4);
    PassStarts(s, before);
    t := PortReopens(s);
    assert [] + [e] == [e];
    PassGoesOn(s, [], s, before, Status(before, 0, 0), e, t, Status(before, 0, 0));
    NothingToOpen(t, 1);
    PassGoesOn(s, [e], t, before, Status(before, 0, 0), f, t, one);
    NothingToOpen(t, 2);
    PassGoesOn(s, [e] + [f], t, before, one, g, t, Status(Bits({3, 4, 5}, {}, {3, 4, 5}), 2, 5));
  }

  lemma PortReopens(s: Sys) returns (t: Sys)
    requires Lost(s)
    ensures Enabled(s, Event.Masks(0, Good(3), 1)) && t == Exec(s, Event.Masks(0, Good(3), 1)) && Full(t)
  {
    t := Exec(s, Event.Masks(0, Good(3), 1));
    assert t.os == {3, 4, 5} && t.slots[0].dev == Serial(3, Connected, [0]);
  }

  // ---- A full buffer taken for the end of file ----

  /** A client connects. */
  function FirstLap(): Lap {
    Lap(Two(), [SelectCall(5, Bits({3, 4}, {}, {3, 4}), 1)], Bits({4}, {}, {}), 1, [Accept(1, 5)])
  }

  lemma FirstLapRuns(s: Sys) returns (t: Sys)
    requires Idle(s)
    ensures LapOk(s, NO_BITS, FirstLap()) && t == Run(Run(s, Two()), [Accept(1, 5)]) && Served(t)
  {
    var p, e := FirstLap(), Accept(1, 5);
    IdleMasks(s);
    RunOne(s, e);
    assert [e][1..] == [];
    t := Exec(s, e);
    assert t.slots[2].dev == Client(5, Connected) && t.slots[0] == s.slots[0] && t.slots[1] == s.slots[1];
    assert Dispatches(t, 1, 1, 0, p.kept, []) by {
      assert Dispatches(t, 2, 0, 0, p.kept, []);
      assert Dispatches(t, 1, 2, 0, p.kept, []);
    }
    assert Dispatches(s, 1, 0, 1, p.kept, [e]);
    assert Dispatches(s, 0, 2, 1, p.kept, [e]);
    assert Dispatches(s, 0, 1, 1, p.kept, [e]);
  }

  /** A byte from the serial port fills its ring, and an exception closes it: the bits of
      its descriptor are left over. */
  function SecondLap(): Lap {
    Lap(Three(NoFd), [SelectCall(6, Bits({3, 4, 5}, {}, {3, 4, 5}), 2)], Bits({3}, {}, {3}), 2,
        [Read(0, Data([0])), Except(0)])
  }

  lemma PortFills(s: Sys) returns (u: Sys)
    requires Served(s)
    ensures Enabled(s, Read(0, Data([0]))) && u == Exec(s, Read(0, Data([0]))) && Full(u)
  {
    u := Exec(s, Read(0, Data([0])));
    assert [] + Fit([0], 1) == [0];
    assert u.slots[0].dev == Serial(3, Connected, [0]);
  }

  lemma PortCloses(u: Sys) returns (v: Sys)
    requires Full(u)
    ensures Enabled(u, Except(0)) && v == Exec(u, Except(0)) && Lost(v)
  {
    v := Exec(u, Except(0));
    assert v.os == {4, 5};
    assert v.slots[0].dev == Serial(NO_FD, Closed, [0]);
  }

  lemma SecondLapDispatches(s: Sys, u: Sys, v: Sys)
    requires Served(s) && Enabled(s, Read(0, Data([0]))) && u == Exec(s, Read(0, Data([0]))) && Full(u)
    requires Enabled(u, Except(0)) && v == Exec(u, Except(0)) && Lost(v)
    ensures Dispatches(s, 0, 0, 2, SecondLap().kept, SecondLap().handled)
  {
    var kept, last := SecondLap().kept, [Except(0)];
    assert last[1..] == [];
    assert Dispatches(v, 1, 0, 0, kept, []);
    assert Dispatches(u, 0, 2, 1, kept, last);
    assert Dispatches(u, 0, 1, 1, kept, last);
    assert SecondLap().handled[1..] == last;
  }

  lemma RunTwo(s: Sys, e: Event, f: Event)
    requires Enabled(s, e) && Enabled(Exec(s, e), f)
    ensures Feasible(s, [e, f]) && Run(s, [e, f]) == Exec(Exec(s, e), f)
  {
    RunOne(s, e);
    RunSnoc(s, [e], f);
    assert [e, f] == [e] + [f];
  }

  lemma SecondLapRuns(s: Sys) returns (t: Sys)
    requires Served(s)
    ensures LapOk(s, Bits({4}, {}, {}), SecondLap())
    ensures t == Run(Run(s, Three(NoFd)), SecondLap().handled) && Lost(t)
  {
    ServedMasks(s);
    var u := PortFills(s);
    t := PortCloses(u);
    SecondLapDispatches(s, u, t);
    RunTwo(s, Read(0, Data([0])), Except(0));
  }

  /** The serial device comes back on the same descriptor, select finds it readable, and
      there is no room to read into. */
  function ThirdLap(): Lap {
    Lap(Three(Good(3)), [SelectCall(6, Bits({3, 4, 5}, {}, {3, 4, 5}), 1)], Bits({3}, {}, {}), 1, [Read(0, Eof)])
  }

  lemma ThirdLapDispatches(t: Sys)
    requires Full(t)
    ensures Dispatches(t, 0, 0, 1, ThirdLap().kept, ThirdLap().handled)
  {
    var e, kept := Read(0, Eof), ThirdLap().kept;
    assert [e][1..] == [];
    var u := Exec(t, e);
    assert Dispatches(u, 0, 2, 0, kept, []) by {
      assert Dispatches(u, 1, 0, 0, kept, []);
    }
    assert Dispatches(u, 0, 1, 0, kept, []);
  }

  lemma ThirdLapRuns(s: Sys) returns (t: Sys)
    requires Lost(s)
    ensures LapOk(s, Bits({3}, {}, {3}), ThirdLap())
    ensures t == Run(s, Three(Good(3))) && Full(t)
    ensures StaleAndFull(s, t, Bits({3}, {}, {3}), PassStatus(s, Three(Good(3)), Bits({3}, {}, {3})))
    ensures Enabled(t, Read(0, Eof)) && Run(t, ThirdLap().handled) == Exec(t, Read(0, Eof))
    ensures Exec(t, Read(0, Eof)).slots[0].dev.rbuf.contents == []
  {
    t := LostMasks(s);
    RunOne(t, Read(0, Eof));
    ThirdLapDispatches(t);
  }

  lemma TwoLaps(s: Sys) returns (ps: seq<Lap>, t: Sys)
    requires Idle(s)
    ensures |ps| == 2 && LoopOk(s, ps) && t == LoopEnd(s, ps) && Lost(t)
    ensures ps[1].ready > 0 && Carried(ps) == SecondLap().kept
  {
    var t1 := FirstLapRuns(s);
    LoopSnoc(s, [], FirstLap());
    var one := [] + [FirstLap()];
    t := SecondLapRuns(t1);
    LoopSnoc(s, one, SecondLap());
    ps := one + [SecondLap()];
  }

  /** So a byte that was read and waits for a connected client is lost, in a run from the
      start: one call of the selector loop in which the last lap reads into a full buffer. */
  lemma FullBufferTakenForEndOfFile() returns (s: Sys, ps: seq<Lap>, t: Sys)
    ensures Reachable(s, SIZE) && LoopOk(s, ps) && |ps| == 3
    ensures LoopOk(s, ps[..2]) && Feasible(LoopEnd(s, ps[..2]), ps[2].masks)
    ensures t == Run(LoopEnd(s, ps[..2]), ps[2].masks) && ps[2].handled == [Read(0, Eof)] && Enabled(t, Read(0, Eof))
    ensures t.slots[0].dev.fd != NO_FD && t.slots[0].dev.rbuf.contents == [0]
    ensures !ReadsWithRoom(t, ps[2].handled)
    ensures LoopEnd(s, ps) == Exec(t, Read(0, Eof)) && LoopEnd(s, ps).slots[0].dev.rbuf.contents == []
  {
    s := FirstRound();
    var two, t2 := TwoLaps(s);
    t := ThirdLapRuns(t2);
    LoopSnoc(s, two, ThirdLap());
    ps := two + [ThirdLap()];
    assert ps[..2] == two;
  }

  // ---- A bit inherited ----

  /** The serial device ends and has an exception, a client connects on its descriptor, and
      is read for the bit that was the serial device's. */
  function InheritingLap(): Lap {
    Lap(Two(), [SelectCall(5, Bits({3, 4}, {}, {3, 4}), 3)], Bits({3, 4}, {}, {3}), 3,
        [Read(0, Eof), Accept(1, 3), Read(2, ReadError)])
  }

  lemma PortEnds(s: Sys) returns (u: Sys)
    requires Idle(s)
    ensures Enabled(s, Read(0, Eof)) && u == Exec(s, Read(0, Eof))
    ensures At(u, [Serial(NO_FD, Closed, []), ListenerOn(4, Connected)], {4})
  {
    u := Exec(s, Read(0, Eof));
    assert u.os == {4};
    assert u.slots[0].dev == Serial(NO_FD, Closed, []);
  }

  lemma ClientInherits(u: Sys) returns (v: Sys)
    requires At(u, [Serial(NO_FD, Closed, []), ListenerOn(4, Connected)], {4})
    ensures Enabled(u, Accept(1, 3)) && v == Exec(u, Accept(1, 3)) && FreeSlot(u.slots, 1) == 2
    ensures At(v, [Serial(NO_FD, Closed, []), ListenerOn(4, Connected), Client(3, Connected)], {3, 4})
  {
    v := Exec(u, Accept(1, 3));
    assert v.os == {3, 4};
    assert v.slots[2].dev == Client(3, Connected) && v.slots[0] == u.slots[0] && v.slots[1] == u.slots[1];
  }

  lemma ClientIsClosed(v: Sys) returns (t: Sys)
    requires At(v, [Serial(NO_FD, Closed, []), ListenerOn(4, Connected), Client(3, Connected)], {3, 4})
    ensures Enabled(v, Read(2, ReadError)) && t == Exec(v, Read(2, ReadError))
    ensures |t.slots| == 3 && t.slots[2].dev.fd == NO_FD && t.slots[2].dev.state == Inactive
    ensures t.slots[2].dev.kind.Connection? && SameApp(v, t)
  {
    t := Exec(v, Read(2, ReadError));
  }

  lemma InheritingDispatches(s: Sys, u: Sys, v: Sys, t: Sys)
    requires Idle(s) && Enabled(s, Read(0, Eof)) && u == Exec(s, Read(0, Eof))
    requires At(u, [Serial(NO_FD, Closed, []), ListenerOn(4, Connected)], {4})
    requires Enabled(u, Accept(1, 3)) && v == Exec(u, Accept(1, 3))
    requires At(v, [Serial(NO_FD, Closed, []), ListenerOn(4, Connected), Client(3, Connected)], {3, 4})
    requires Enabled(v, Read(2, ReadError)) && t == Exec(v, Read(2, ReadError))
    requires |t.slots| == 3 && t.slots[2].dev.fd == NO_FD
    ensures Dispatches(s, 0, 0, 3, InheritingLap().kept, InheritingLap().handled)
  {
    var kept, last := InheritingLap().kept, [Read(2, ReadError)];
    assert last[1..] == [];
    assert Dispatches(t, 3, 0, 0, kept, []);
    assert Dispatches(t, 2, 2, 0, kept, []);
    assert Dispatches(t, 2, 1, 0, kept, []);
    assert Dispatches(v, 2, 0, 1, kept, last);
    assert Dispatches(v, 1, 2, 1, kept, last);
    assert Dispatches(v, 1, 1, 1, kept, last);
    assert ([Accept(1, 3)] + last)[1..] == last;
    assert Dispatches(u, 1, 0, 2, kept, [Accept(1, 3)] + last);
    assert Dispatches(u, 0, 2, 2, kept, [Accept(1, 3)] + last);
    assert Dispatches(u, 0, 1, 2, kept, [Accept(1, 3)] + last);
    assert InheritingLap().handled[1..] == [Accept(1, 3)] + last;
  }

  lemma InheritingLapRuns(s: Sys) returns (t: Sys)
    requires Idle(s)
    ensures LapOk(s, NO_BITS, InheritingLap()) && SameApp(s, t)
    ensures t == Run(Run(s, Two()), InheritingLap().handled) && !AllReported(s, s, InheritingLap().handled)
    ensures |t.slots| == 3 && t.slots[2].dev.kind.Connection? && t.slots[2].dev.state == Inactive
  {
    IdleMasks(s);
    var u := PortEnds(s);
    var v := ClientInherits(u);
    t := ClientIsClosed(v);
    InheritingDispatches(s, u, v, t);
    RunThree(s, Read(0, Eof), Accept(1, 3), Read(2, ReadError));
    NotReported(s, u, v);
  }

  lemma RunThree(s: Sys, e: Event, f: Event, g: Event)
    requires Enabled(s, e) && Enabled(Exec(s, e), f) && Enabled(Exec(Exec(s, e), f), g)
    ensures Feasible(s, [e, f, g]) && Run(s, [e, f, g]) == Exec(Exec(Exec(s, e), f), g)
  {
    RunTwo(s, e, f);
    RunSnoc(s, [e, f], g);
    assert [e, f, g] == [e, f] + [g];
  }

  /** So a client that has just connected is read from, though select said nothing of it,
      has sent nothing yet, and is closed: in the first lap of a loop. */
  lemma NewClientClosed() returns (s: Sys, t: Sys)
    ensures Reachable(s, SIZE) && LoopOk(s, [InheritingLap()]) && t == LoopEnd(s, [InheritingLap()])
    ensures !AllReported(s, s, InheritingLap().handled)
    ensures |t.slots| == 3 && t.slots[2].dev.kind.Connection? && t.slots[2].dev.state == Inactive
  {
    s := FirstRound();
    t := InheritingLapRuns(s);
    LoopSnoc(s, [], InheritingLap());
    assert [] + [InheritingLap()] == [InheritingLap()];
  }

  lemma NotReported(s: Sys, u: Sys, v: Sys)
    requires Idle(s) && Enabled(s, Read(0, Eof)) && u == Exec(s, Read(0, Eof))
    requires Enabled(u, Accept(1, 3)) && v == Exec(u, Accept(1, 3))
    ensures !AllReported(s, s, InheritingLap().handled)
  {
    var es := InheritingLap().handled;
    assert es[1..] == [Accept(1, 3), Read(2, ReadError)];
    assert es[1..][1..] == [Read(2, ReadError)];
    assert !AllReported(s, v, es[1..][1..]);
    assert !AllReported(s, u, es[1..]);
  }
}
