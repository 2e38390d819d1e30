/** What holds in every state the gateway can reach. */
module Runs {
  import opened Bytes
  import opened Buffers
  import opened Timers
  import opened Tokens
  import opened StringStores
  import opened Devices
  import opened Systems
  import opened Shapes
  import opened Streams
  import opened SlotRuns
  import opened Passes
  import Calls
  import Commands
  import Wire

  ghost predicate Invariant(s: Sys, bufsize: nat) {
    && Layout(s, bufsize)
    && StreamsOk(s)
    && Commands.ClientsOk(s) && Commands.PaceOk(s)
    && Wire.WireOk(s, [])
    && Calls.CallsOk(s)
  }

  lemma StartStreams(bufsize: nat, listeners: nat, now: nat)
    ensures StreamsOk(Start(bufsize, listeners, now))
  {
  }

  lemma StartCommands(bufsize: nat, listeners: nat, now: nat)
    ensures Commands.ClientsOk(Start(bufsize, listeners, now)) && Commands.PaceOk(Start(bufsize, listeners, now))
  {
  }

  lemma StartWire(bufsize: nat, listeners: nat, now: nat)
    requires now < CLOCK_LIMIT
    ensures Wire.WireOk(Start(bufsize, listeners, now), [])
  {
  }

  lemma StartCalls(bufsize: nat, listeners: nat, now: nat)
    ensures Calls.CallsOk(Start(bufsize, listeners, now))
  {
  }

  lemma StartInvariant(bufsize: nat, listeners: nat, now: nat)
    requires bufsize >= 2 && now < CLOCK_LIMIT
    ensures Invariant(Start(bufsize, listeners, now), bufsize)
  {
    StartShape(bufsize, listeners, now);
    StartStreams(bufsize, listeners, now);
    StartCommands(bufsize, listeners, now);
    StartWire(bufsize, listeners, now);
    StartCalls(bufsize, listeners, now);
  }

  /** Every event keeps the invariant. */
  lemma ExecInvariant(s: Sys, e: Event, bufsize: nat)
    requires Invariant(s, bufsize) && Enabled(s, e)
    ensures Invariant(Exec(s, e), bufsize)
  {
    ExecShape(s, e, bufsize);
    ExecStreams(s, e, bufsize);
    Commands.ExecCommands(s, e, bufsize);
    Wire.ExecWire(s, e, bufsize);
    Calls.ExecCalls(s, e, bufsize);
  }

  lemma {:induction false} RunInvariant(s: Sys, es: seq<Event>, bufsize: nat)
    requires Invariant(s, bufsize) && Feasible(s, es)
    ensures Invariant(Run(s, es), bufsize)
  {
    if es != [] {
      RunInvariant(s, es[..|es| - 1], bufsize);
      ExecInvariant(Run(s, es[..|es| - 1]), es[|es| - 1], bufsize);
    }
  }

  lemma ReachableInvariant(s: Sys, bufsize: nat)
    requires Reachable(s, bufsize)
    ensures Invariant(s, bufsize)
  {
    var listeners: nat, now: nat, es :|
      && bufsize >= 2 && 0 < now < CLOCK_LIMIT
      && Feasible(Start(bufsize, listeners, now), es)
      && s == Run(Start(bufsize, listeners, now), es);
    StartInvariant(bufsize, listeners, now);
    RunInvariant(Start(bufsize, listeners, now), es, bufsize);
  }

  lemma ReachableLayout(s: Sys, bufsize: nat)
    requires Reachable(s, bufsize)
    ensures Layout(s, bufsize)
  {
    ReachableInvariant(s, bufsize);
  }

  lemma ReachableStreams(s: Sys, bufsize: nat)
    requires Reachable(s, bufsize)
    ensures StreamsOk(s)
  {
    ReachableInvariant(s, bufsize);
  }

  lemma ReachableClients(s: Sys, bufsize: nat)
    requires Reachable(s, bufsize)
    ensures Commands.ClientsOk(s)
  {
    ReachableInvariant(s, bufsize);
  }

  lemma ReachablePace(s: Sys, bufsize: nat)
    requires Reachable(s, bufsize)
    ensures Commands.PaceOk(s)
  {
    ReachableInvariant(s, bufsize);
  }

  lemma ReachableWire(s: Sys, bufsize: nat)
    requires Reachable(s, bufsize)
    ensures Wire.WireOk(s, [])
  {
    ReachableInvariant(s, bufsize);
  }

  lemma ReachableCalls(s: Sys, bufsize: nat)
    requires Reachable(s, bufsize)
    ensures Calls.CallsOk(s)
  {
    ReachableInvariant(s, bufsize);
  }

  /** No call is made on a descriptor that is not open. */
  lemma ReachableBacked(s: Sys, bufsize: nat, k: nat)
    requires Reachable(s, bufsize) && k < |s.slots|
    ensures Backed(s.slots[k].dev, s.os)
  {
    ReachableLayout(s, bufsize);
    assert DevsOf(s)[k] == s.slots[k].dev;
  }

  // ---- What the system was asked ----

  /** The bytes of the histories are those that passed through system calls: written to
      and read from the descriptor of a live connection since it was accepted, and written
      to and read from the serial port through whatever descriptors it had. */
  lemma HistoriesAreCalls(s: Sys, bufsize: nat)
    requires Reachable(s, bufsize)
    ensures Calls.LineOut(s.calls) == Wire.WireBytes(s.log.wire) && Calls.LineIn(s.calls) == s.log.read
    ensures forall k :: 0 < k < |s.slots| && s.slots[k].dev.kind.Connection? && s.slots[k].dev.fd != NO_FD ==>
      && Calls.SentOn(s.calls, s.slots[k].dev.fd) == s.slots[k].log.written
      && Calls.GotOn(s.calls, s.slots[k].dev.fd) == s.slots[k].log.received
  {
    ReachableCalls(s, bufsize);
    forall k | 0 < k < |s.slots| && s.slots[k].dev.kind.Connection? && s.slots[k].dev.fd != NO_FD
      ensures Calls.SentOn(s.calls, s.slots[k].dev.fd) == s.slots[k].log.written
      ensures Calls.GotOn(s.calls, s.slots[k].dev.fd) == s.slots[k].log.received
    {
      assert Calls.ConnCallsOk(s.slots[k], s.calls);
    }
  }

  // ---- From the serial device to the clients ----

  /** On a live connection, the bytes written and those queued are the concatenation of
      what fitted of each chunk since it was accepted, and the chunks are the serial
      stream since then: if every chunk fitted, exactly that stream. */
  lemma ClientsGetTheSerialStream(s: Sys, bufsize: nat, k: nat)
    requires Reachable(s, bufsize) && 0 < k < |s.slots|
    requires s.slots[k].dev.kind.Connection? && s.slots[k].dev.fd != NO_FD
    ensures var d, l := s.slots[k].dev, s.slots[k].log;
      && l.moved <= |s.log.moved|
      && l.written + d.tbuf.contents == Deliveries(l.chunks)
      && Offers(l.chunks) == s.log.moved[l.moved..]
      && ((forall i :: 0 <= i < |l.chunks| ==> l.chunks[i].Whole()) ==>
            l.written + d.tbuf.contents == s.log.moved[l.moved..])
  {
    ReachableStreams(s, bufsize);
    assert StreamOk(s.slots[k], s.log.moved);
    if forall i :: 0 <= i < |s.slots[k].log.chunks| ==> s.slots[k].log.chunks[i].Whole() {
      WholeDeliveries(s.slots[k].log.chunks);
    }
  }

  /** What a connection got before it closed is still a front of that. */
  lemma ClosedClientsGotAFront(s: Sys, bufsize: nat, k: nat)
    requires Reachable(s, bufsize) && 0 < k < |s.slots| && s.slots[k].dev.kind.Connection?
    ensures var l := s.slots[k].log;
      && l.moved <= |s.log.moved|
      && l.written <= Deliveries(l.chunks)
      && Offers(l.chunks) == s.log.moved[l.moved..]
  {
    ReachableStreams(s, bufsize);
    assert StreamOk(s.slots[k], s.log.moved);
  }

  // ---- From the clients to the serial device ----

  /** On a live connection, what was received is what was taken as commands, then what
      waits in the line buffer, then what waits in the receive buffer; and the commands
      taken, sent in this order, are the first of those that framing everything received
      at once yields, the others being still framed in what waits. */
  lemma ClientBytesBecomeCommands(s: Sys, bufsize: nat, k: nat)
    requires Reachable(s, bufsize) && 0 < k < |s.slots|
    requires s.slots[k].dev.kind.Connection? && s.slots[k].dev.fd != NO_FD
    ensures var d, l := s.slots[k].dev, s.slots[k].log;
      && d.linebuf.Some?
      && l.received == Join(l.taken) + d.linebuf.value + d.rbuf.contents
      && TokensOf(l.received, NEWLINE) ==
           l.taken + TokensOf(d.linebuf.value + d.rbuf.contents, NEWLINE)
      && AllTokens(l.taken, NEWLINE)
      && l.commands <= |s.log.commands|
      && l.taken == Commands.SentFrom(s.log.commands[l.commands..], k)
  {
    ReachableLayout(s, bufsize);
    ReachableClients(s, bufsize);
    assert DevsOf(s)[k] == s.slots[k].dev;
    Commands.TakenIsFramed(s.slots[k], k, s.log.commands);
  }

  /** After a client has gone, what it completed may still be sent, and nothing else. */
  lemma ClosedClientsSendWhatTheySent(s: Sys, bufsize: nat, k: nat)
    requires Reachable(s, bufsize) && 0 < k < |s.slots| && s.slots[k].dev.kind.Connection?
    ensures s.slots[k].log.taken <= TokensOf(s.slots[k].log.received, NEWLINE)
  {
    ReachableClients(s, bufsize);
    Commands.TakenIsFramed(s.slots[k], k, s.log.commands);
  }

  // ---- Rates ----

  /** Whenever between its pace check and the restart of the pace each command went out,
      no window holds more commands, from all clients, than paces and one. */
  lemma CommandsAreRateLimited(s: Sys, bufsize: nat, times: seq<nat>, from: nat, window: nat)
    requires Reachable(s, bufsize)
    requires Between(CommandTicks(s.log.commands), times)
    ensures CountWithin(times, from, window) <= window / COMMAND_PACE + 1
  {
    ReachablePace(s, bufsize);
    PacedRate(CommandTicks(s.log.commands), times, COMMAND_PACE, from, window);
  }

  /** The same for the bytes on the serial line, through closing, reopening and errors. */
  lemma CharactersAreRateLimited(s: Sys, bufsize: nat, times: seq<nat>, from: nat, window: nat)
    requires Reachable(s, bufsize)
    requires Between(WireTicks(s.log.wire), times)
    ensures CountWithin(times, from, window) <= window / CHARACTER_PACING + 1
  {
    ReachableWire(s, bufsize);
    PacedRate(WireTicks(s.log.wire), times, CHARACTER_PACING, from, window);
  }

  /** The pace holds back a command exactly until one pace after the last one, and the
      first command not at all. */
  lemma PaceIsExact(s: Sys, bufsize: nat, check: nat)
    requires Reachable(s, bufsize) && check < CLOCK_LIMIT
    ensures s.last.Expired(check) <==>
      s.log.commands == [] || check >= s.log.commands[|s.log.commands| - 1].tick.end + COMMAND_PACE
  {
    ReachablePace(s, bufsize);
  }

  /** What waits of a client. */
  function Waiting(s: Sys, k: nat): seq<byte>
    requires k < |s.slots|
  {
    Commands.LineOf(s.slots[k].dev) + s.slots[k].dev.rbuf.contents
  }

  /** A cycle begun when the pace is over sends a command if any client has one whole, in
      whichever buffers: the first of the client in the lowest slot that has one. */
  lemma NoCommandWaitsWithoutCause(s: Sys, ticks: seq<Tick>, bufsize: nat, k: nat)
    requires Reachable(s, bufsize) && Enabled(s, Cycle(ticks)) && Running(s) && s.last.Expired(s.now)
    requires 0 < k < |s.slots| && s.slots[k].dev.kind.Connection?
    requires TokensOf(Waiting(s, k), NEWLINE) != []
    requires forall i :: 0 < i < k && s.slots[i].dev.kind.Connection? ==> TokensOf(Waiting(s, i), NEWLINE) == []
    ensures var t, n := Exec(s, Cycle(ticks)), |s.log.commands|;
      && n < |t.log.commands|
      && t.log.commands[n].slot == k && t.log.commands[n].sent.bytes == TokensOf(Waiting(s, k), NEWLINE)[0]
  {
    ReachableLayout(s, bufsize);
    ReachablePace(s, bufsize);
    forall i | 0 < i <= k
      ensures Commands.HasCommand(s.slots[i]) <==>
        s.slots[i].dev.kind.Connection? && TokensOf(Waiting(s, i), NEWLINE) != []
    {
      WholeCommandWaits(s, i, bufsize);
    }
    Commands.CycleSendsWhenDue(s, ticks, k);
  }

  lemma WholeCommandWaits(s: Sys, k: nat, bufsize: nat)
    requires Layout(s, bufsize) && 0 < k < |s.slots|
    ensures Commands.HasCommand(s.slots[k]) <==>
      s.slots[k].dev.kind.Connection? && TokensOf(Waiting(s, k), NEWLINE) != []
    ensures Commands.HasCommand(s.slots[k]) ==>
      Waiting(s, k) == s.slots[k].dev.linebuf.value + s.slots[k].dev.rbuf.contents
  {
    assert DevsOf(s)[k] == s.slots[k].dev;
  }

  /** A cycle leaves nothing in the receive buffer of any client, and nothing is lost: what
      waited is in its line buffer, or was sent by it in this cycle. */
  lemma CyclesCollectEverything(s: Sys, ticks: seq<Tick>, bufsize: nat, k: nat)
    requires Reachable(s, bufsize) && Enabled(s, Cycle(ticks)) && Running(s)
    requires 0 < k < |s.slots| && s.slots[k].dev.kind.Connection?
    ensures var t := Exec(s, Cycle(ticks));
      && k < |t.slots| && t.slots[k].dev.rbuf.contents == []
      && Join(t.slots[k].log.taken) + Waiting(t, k) == Join(s.slots[k].log.taken) + Waiting(s, k)
  {
    ReachableLayout(s, bufsize);
    assert DevsOf(s)[k] == s.slots[k].dev;
    Commands.CycleCollects(s, ticks, k);
    Commands.AccountIs(s.slots[k]);
    Commands.AccountIs(Exec(s, Cycle(ticks)).slots[k]);
  }

  // ---- The order on the serial line ----

  /** In every epoch between two flushes of the serial buffers the bytes on the wire are a
      front of the command blocks, uninterleaved and in order, and the bytes moved to the
      clients a front of the bytes read; in the current epoch nothing is missing. */
  lemma SerialOrderIsKept(s: Sys, bufsize: nat)
    requires Reachable(s, bufsize)
    ensures Wire.EpochsOk(s.log)
    ensures |s.slots| > 0
    ensures var d, m := s.slots[0].dev, s.log.marks[|s.log.marks| - 1];
      && Wire.MarkOk(m, s.log)
      && Wire.WireBytes(s.log.wire[m.wire..]) + d.tbuf.contents == Wire.Blocks(s.log.commands[m.commands..])
      && s.log.moved[m.moved..] + d.rbuf.contents == s.log.read[m.read..]
  {
    ReachableWire(s, bufsize);
    var m := s.log.marks[|s.log.marks| - 1];
    assert s.log.moved[m.moved..] + [] == s.log.moved[m.moved..];
  }

  /** End to end towards the serial line: if every command since the last flush fitted,
      the line carries exactly these commands, whole and in the order they were sent, and
      framing what it carries yields them again. */
  lemma WholeCommandsReachTheLine(s: Sys, bufsize: nat)
    requires Reachable(s, bufsize) && |s.slots| > 0 && s.log.marks != []
    requires var m := s.log.marks[|s.log.marks| - 1];
      forall i :: m.commands <= i < |s.log.commands| ==> s.log.commands[i].sent.Whole()
    ensures var m := s.log.marks[|s.log.marks| - 1];
      && Wire.MarkOk(m, s.log)
      && Wire.WireBytes(s.log.wire[m.wire..]) + s.slots[0].dev.tbuf.contents ==
           Join(Texts(s.log.commands[m.commands..]))
      && TokensOf(Wire.WireBytes(s.log.wire[m.wire..]) + s.slots[0].dev.tbuf.contents, NEWLINE) ==
           Texts(s.log.commands[m.commands..])
  {
    SerialOrderIsKept(s, bufsize);
    var m := s.log.marks[|s.log.marks| - 1];
    Wire.WholeBlocks(s.log.commands[m.commands..]);
    ReachableClients(s, bufsize);
    AllFramed(s.log.commands, m.commands);
  }

  lemma AllFramed(commands: seq<Command>, from: nat)
    requires AllTokens(Texts(commands), NEWLINE) && from <= |commands|
    ensures TokensOf(Join(Texts(commands[from..])), NEWLINE) == Texts(commands[from..])
  {
    var texts := Texts(commands[from..]);
    assert forall i :: 0 <= i < |texts| ==> texts[i] == Texts(commands)[from + i];
    TokensOfJoin(texts, [], NEWLINE);
    assert Join(texts) + [] == Join(texts) && texts + [] == texts;
  }

  /** End to end towards a client accepted since the last flush: if every chunk fitted,
      what it got, what is queued for it and what still waits at the serial device are
      exactly what was read from the serial device from some point on. */
  lemma ClientSeesWhatTheDeviceSent(s: Sys, bufsize: nat, k: nat) returns (from: nat)
    requires Reachable(s, bufsize) && 0 < k < |s.slots|
    requires s.slots[k].dev.kind.Connection? && s.slots[k].dev.fd != NO_FD
    requires forall i :: 0 <= i < |s.slots[k].log.chunks| ==> s.slots[k].log.chunks[i].Whole()
    requires s.log.marks != [] && s.log.marks[|s.log.marks| - 1].moved <= s.slots[k].log.moved
    ensures var m, l := s.log.marks[|s.log.marks| - 1], s.slots[k].log;
      && from == m.read + (l.moved - m.moved) <= |s.log.read|
      && l.written + s.slots[k].dev.tbuf.contents + s.slots[0].dev.rbuf.contents == s.log.read[from..]
  {
    ClientsGetTheSerialStream(s, bufsize, k);
    SerialOrderIsKept(s, bufsize);
    var m, l := s.log.marks[|s.log.marks| - 1], s.slots[k].log;
    from := m.read + (l.moved - m.moved);
    SkipBoth(s.log.moved, m.moved, l.moved, s.slots[0].dev.rbuf.contents, s.log.read, m.read);
  }

  /** And towards any client, through any number of flushes: if every chunk fitted, what it
      got and what is queued for it are fronts of what was read in each epoch, one after
      the other, from the point where it was accepted; in the current epoch nothing is
      missing. `j` is any epoch that had begun by then. */
  lemma ClientOutlivesFlushes(s: Sys, bufsize: nat, k: nat, j: nat)
    requires Reachable(s, bufsize) && 0 < k < |s.slots|
    requires s.slots[k].dev.kind.Connection? && s.slots[k].dev.fd != NO_FD
    requires forall i :: 0 <= i < |s.slots[k].log.chunks| ==> s.slots[k].log.chunks[i].Whole()
    requires j < |s.log.marks| && s.log.marks[j].moved <= s.slots[k].log.moved
    ensures Wire.EpochsOk(s.log) && |s.slots| > 0
    ensures var l, from, fronts := s.slots[k].log, s.log.marks[j].moved, Wire.Fronts(s.log, j);
      && l.moved - from <= |Join(fronts)|
      && l.written + s.slots[k].dev.tbuf.contents == Join(fronts)[l.moved - from..]
      && |fronts| == |s.log.marks| - j
      && forall p :: 0 <= p < |fronts| ==>
           Wire.FrontOf(s.log, j + p, fronts[p], s.slots[0].dev.rbuf.contents)
  {
    ClientsGetTheSerialStream(s, bufsize, k);
    ReachableWire(s, bufsize);
    Wire.FrontsJoin(s.log, j);
    Wire.FrontsAreFronts(s.slots[0].dev.rbuf.contents, s.slots[0].dev.tbuf.contents, s.log, j);
    SkipMore(s.log.moved, s.log.marks[j].moved, s.slots[k].log.moved);
  }

  lemma SkipMore(moved: seq<byte>, a: nat, b: nat)
    requires a <= b <= |moved|
    ensures moved[a..][b - a..] == moved[b..]
  {
  }

  lemma SkipBoth(moved: seq<byte>, a: nat, b: nat, waiting: seq<byte>, read: seq<byte>, r: nat)
    requires a <= b <= |moved| && r <= |read| && moved[a..] + waiting == read[r..]
    ensures r + (b - a) <= |read| && moved[b..] + waiting == read[r + (b - a)..]
  {
    assert |read| - r == |moved| - a + |waiting|;
    assert moved[b..] + waiting == (moved[a..] + waiting)[b - a..];
  }

  // ---- Descriptors and slots ----

  /** A device has a descriptor unless it is unopened, inactive or closed; no two share
      one; and the open descriptors are those the devices have. */
  lemma DescriptorsAreConserved(s: Sys, bufsize: nat)
    requires Reachable(s, bufsize)
    ensures forall k :: 0 <= k < |s.slots| ==>
      (s.slots[k].dev.fd == NO_FD <==> s.slots[k].dev.state in {Unopened, Inactive, Closed})
    ensures forall j, k :: 0 <= j < k < |s.slots| && s.slots[j].dev.fd != NO_FD ==>
      s.slots[j].dev.fd != s.slots[k].dev.fd
    ensures forall fd :: fd in s.os <==>
      fd != NO_FD && exists k :: 0 <= k < |s.slots| && s.slots[k].dev.fd == fd
  {
    ReachableLayout(s, bufsize);
    var devs := DevsOf(s);
    assert forall k :: 0 <= k < |s.slots| ==> devs[k] == s.slots[k].dev;
    forall fd | fd in s.os
      ensures fd != NO_FD && exists k :: 0 <= k < |s.slots| && s.slots[k].dev.fd == fd
    {
      var k: nat :| Holds(devs, k, fd);
      assert s.slots[k].dev.fd == fd;
    }
  }

  /** Closing all devices of any reachable state leaves no descriptor open. */
  lemma ClosingReleasesAll(s: Sys, bufsize: nat)
    requires Reachable(s, bufsize)
    ensures Feasible(s, ShutAll(|s.slots|)) && Run(s, ShutAll(|s.slots|)).os == {}
  {
    ReachableLayout(s, bufsize);
    ShutAllReleases(s, bufsize);
  }

  /** Slot 0 is the serial device in every state, and no other slot is. */
  lemma SlotZeroIsSerial(s: Sys, bufsize: nat)
    requires Reachable(s, bufsize)
    ensures |s.slots| > 0
    ensures forall k :: 0 <= k < |s.slots| ==> (s.slots[k].dev.kind.SerialPort? <==> k == 0)
  {
    ReachableLayout(s, bufsize);
    assert forall k :: 0 <= k < |s.slots| ==> DevsOf(s)[k] == s.slots[k].dev;
  }

  lemma InactiveSerialStays(s: Sys, e: Event, bufsize: nat)
    requires Layout(s, bufsize) && Enabled(s, e) && s.slots[0].dev.state.Inactive?
    ensures |Exec(s, e).slots| > 0 && Exec(s, e).slots[0].dev.state.Inactive?
    ensures Exec(s, e).log == s.log
  {
    assert DevsOf(s)[0] == s.slots[0].dev;
    match e
    case Accept(i, fd) =>
      if fd != NO_FD {
        var at := AcceptTakesFreeSlot(s, i, fd);
      }
    case Write(i, _, check, end) =>
      assert i == 0 ==> s.log.wire + OnWire([], check, end) == s.log.wire;
    case _ =>
  }

  /** A serial device that cannot be opened is given up for good: whatever follows, it
      stays inactive, nothing is read, sent or moved any more, and every further cycle
      asks the program to end. */
  lemma {:induction false} InactiveSerialIsFinal(s: Sys, es: seq<Event>, bufsize: nat, rc: int)
    requires Reachable(s, bufsize) && Feasible(s, es)
    requires |s.slots| > 0 && s.slots[0].dev.state.Inactive?
    ensures var t := Run(s, es);
      |t.slots| > 0 && t.slots[0].dev.state.Inactive? && t.log == s.log && CycleResult(t, rc) == EX_NORMAL
  {
    if es != [] {
      var front := es[..|es| - 1];
      InactiveSerialIsFinal(s, front, bufsize, rc);
      ReachableRun(s, front, bufsize);
      ReachableLayout(Run(s, front), bufsize);
      InactiveSerialStays(Run(s, front), es[|es| - 1], bufsize);
    }
  }

  /** There are as many slots besides slot 0 as devices there were ever in use at once. */
  lemma {:induction false} SlotsArePeak(bufsize: nat, listeners: nat, now: nat, es: seq<Event>)
    requires bufsize >= 2 && now < CLOCK_LIMIT && Feasible(Start(bufsize, listeners, now), es)
    ensures var s := Start(bufsize, listeners, now);
      |Run(s, es).slots| - 1 == Peak(s, es)
  {
    var s := Start(bufsize, listeners, now);
    if es == [] {
      StartActive(bufsize, listeners, now);
    } else {
      var front := es[..|es| - 1];
      SlotsArePeak(bufsize, listeners, now, front);
      StartInvariant(bufsize, listeners, now);
      RunInvariant(s, front, bufsize);
      ExecGrowth(Run(s, front), es[|es| - 1], bufsize);
    }
  }

  // ---- One cycle, one pass ----

  lemma CycleIsIndependentOfOrder(s: Sys, ticks: seq<Tick>, bufsize: nat, k: nat)
    requires Reachable(s, bufsize) && Enabled(s, Cycle(ticks)) && Running(s)
    requires 0 < k < |s.slots| && !s.slots[k].dev.listener
    ensures var t, serial := Exec(s, Cycle(ticks)), s.slots[0].dev;
      var chunk := if serial.state.IsOpen() then serial.rbuf.contents else [];
      && s.copy.contents == t.copy.contents == []
      && t.log.moved == s.log.moved + chunk
      && t.slots[k].dev.tbuf.contents ==
           s.slots[k].dev.tbuf.contents + Fit(chunk, s.slots[k].dev.tbuf.Available())
  {
    ReachableLayout(s, bufsize);
    CycleBroadcasts(s, ticks, bufsize, k);
  }

  /** On a pass from cleared sets, the sets are exact. */
  lemma PassSetsExactBits(s: Sys, masks: seq<Event>, bufsize: nat, fd: int)
    requires Reachable(s, bufsize) && MaskPass(masks, |s.slots|) && Feasible(s, masks)
    ensures var st := PassStatus(s, masks, NO_BITS);
      && (fd in st.bits.r <==> exists k :: 0 <= k < |s.slots| && s.slots[k].dev.fd == fd && WantsRead(s.slots[k].dev))
      && (fd in st.bits.w <==> exists k :: 0 <= k < |s.slots| && s.slots[k].dev.fd == fd && WantsWrite(s.slots[k].dev))
      && (fd in st.bits.x <==> exists k :: 0 <= k < |s.slots| && s.slots[k].dev.fd == fd && WantsExcept(s.slots[k].dev))
      && (fd in st.bits.r || fd in st.bits.w || fd in st.bits.x ==> fd <= st.highest)
  {
    ReachableLayout(s, bufsize);
    ClearedPass(s, masks, bufsize);
    WantedMembers(s.slots, |s.slots|, WantsRead, fd);
    WantedMembers(s.slots, |s.slots|, WantsWrite, fd);
    WantedMembers(s.slots, |s.slots|, WantsExcept, fd);
  }

  /** In the first lap of each call of the selector loop, every read finds room and stores
      every byte it got. */
  lemma FirstLapsReadWithRoom(s: Sys, ps: seq<Lap>, bufsize: nat)
    requires Reachable(s, bufsize) && LoopOk(s, ps) && ps != []
    ensures LapOk(s, NO_BITS, ps[0]) && ReadsWithRoom(Run(s, ps[0].masks), ps[0].handled)
  {
    ReachableLayout(s, bufsize);
    FirstLapReadsWithRoom(s, ps, bufsize);
  }

  /** In any lap, they do unless the serial device was reopened full on a descriptor left
      over in the read set; and if it was, select may answer so that one does not. */
  lemma LapsReadWithRoomIff(s: Sys, masks: seq<Event>, before: Bits, bufsize: nat)
    requires Reachable(s, bufsize) && MaskPass(masks, |s.slots|) && Feasible(s, masks)
    ensures
      (forall p: Lap :: p.masks == masks && LapOk(s, before, p) ==> ReadsWithRoom(Run(s, masks), p.handled))
      <==> !StaleAndFull(s, Run(s, masks), before, PassStatus(s, masks, before))
  {
    ReachableLayout(s, bufsize);
    LapReadsWithRoomIff(s, masks, before, bufsize);
  }

  lemma AfterLaps(s: Sys, ps: seq<Lap>, bufsize: nat)
    requires Reachable(s, bufsize) && LoopOk(s, ps)
    ensures Reachable(LoopEnd(s, ps), bufsize)
  {
    LoopRuns(s, ps);
    ReachableRun(s, LoopEvents(ps), bufsize);
  }

  lemma LapAsksWhenOpen(u: Sys, before: Bits, p: Lap, bufsize: nat)
    requires Reachable(u, bufsize) && LapOk(u, before, p)
    ensures |p.selects| == if exists k :: 0 <= k < |u.slots| && u.slots[k].dev.state.IsOpen() then 1 else 0
    ensures p.selects != [] ==> p.selects[0].ready == p.ready && HighestOpen(u.slots, p.selects[0].nfds - 1)
  {
    ReachableLayout(u, bufsize);
    PassCounts(u, p.masks, before, bufsize);
  }

  /** Each lap of the selector loop but the last asked select once and had something
      reported. The last one, from `u`, asked exactly when a device was open as it began,
      about descriptors up to the highest of those. So the loop ends when nothing is
      reported or nothing is open, and not before. */
  lemma LoopEndsForACause(s: Sys, ps: seq<Lap>, u: Sys, bufsize: nat)
    requires Reachable(s, bufsize) && LoopOk(s, ps) && ps != []
    requires LoopOk(s, ps[..|ps| - 1]) && u == LoopEnd(s, ps[..|ps| - 1])
    ensures var front, last := ps[..|ps| - 1], ps[|ps| - 1];
      && LoopSelects(ps) == LoopSelects(front) + last.selects && Answers(LoopSelects(front), front)
      && |last.selects| == (if exists k :: 0 <= k < |u.slots| && u.slots[k].dev.state.IsOpen() then 1 else 0)
      && (last.selects != [] ==>
            last.selects[0].ready == last.ready && HighestOpen(u.slots, last.selects[0].nfds - 1))
  {
    var front, last := ps[..|ps| - 1], ps[|ps| - 1];
    LastLap(s, ps);
    AnsweredLaps(s, front);
    AfterLaps(s, front, bufsize);
    LapAsksWhenOpen(u, Carried(front), last, bufsize);
  }

  /** A lap finds something ready, for some answer of select, exactly when a device is
      active and no left-over descriptor up to the highest is still closed. */
  lemma LapsAnswerIff(s: Sys, masks: seq<Event>, before: Bits, bufsize: nat)
    requires Reachable(s, bufsize) && MaskPass(masks, |s.slots|) && Feasible(s, masks)
    ensures var st := PassStatus(s, masks, before);
      (exists p: Lap :: p.masks == masks && LapOk(s, before, p) && p.ready > 0)
      <==> st.active > 0 && Reused(before, st.highest, Run(s, masks).os)
  {
    ReachableLayout(s, bufsize);
    LapAnswersIff(s, masks, before, bufsize);
  }

  /** A dispatch calls only handlers for descriptors that select reported of that device,
      exactly when it calls none for a connection it accepted itself. */
  lemma HandlersAreForReportedIff(t: Sys, ready: int, b: Bits, es: seq<Event>, bufsize: nat)
    requires Reachable(t, bufsize) && Dispatches(t, 0, 0, ready, b, es)
    ensures AllReported(t, t, es) <==> NoneInherits({}, t, es)
  {
    ReachableLayout(t, bufsize);
    HandlersAreReportedIff(t, ready, b, es, bufsize);
  }
}
