/** The application of hdmi2usbd.c: the serial device, the listeners and connections, the
    buffer between them, and the process cycle. Its state is, at any time between calls,
    a reachable state of the transition system. */
module Gateways {
  import opened Bytes
  import opened Buffers
  import opened Timers
  import opened StringStores
  import opened Tokens
  import opened Devices
  import opened Systems
  import opened Passes
  import opened IoDevs
  import opened Selectors
  import opened Runs
  import opened Listeners
  import Calls
  import Wire

  class Gateway {
    const selector: Selector
    const copy: Buffer
    const last: MicroTimer
    ghost const bufsize: nat
    ghost const listeners: nat

    ghost predicate Parts()
      reads this, selector, copy
    {
      && copy !in selector.Repr && copy.data !in selector.Repr && last !in selector.Repr
      && selector !in selector.Repr && this !in selector.Repr
      && selector.bufsize == bufsize
    }

    /** The objects are as the state of the transition system says. */
    ghost predicate Matches()
      reads this, selector, selector.os, selector.clock, selector.Repr, copy, copy.data, last
    {
      && Parts() && selector.Matches() && copy.Valid()
      && selector.sys.copy == copy.Model() && selector.sys.last == last.Model()
    }

    ghost predicate Valid()
      reads this, selector, selector.os, selector.clock, selector.Repr, copy, copy.data, last
    {
      Matches() && Reachable(selector.sys, bufsize) && (ListenerHeld(selector.sys) <==> listeners > 0)
    }

    /** The serial device, the listeners and the buffer between them. */
    constructor (bufsize: nat, listeners: nat, os: Os, clock: Clock)
      requires bufsize >= 2 && os.Valid() && os.open == {} && os.calls == [] && clock.Valid()
      modifies clock
      ensures Valid()
      ensures selector.sys == Start(bufsize, listeners, clock.now) && selector.clock == clock
      ensures this.bufsize == bufsize && this.listeners == listeners
    {
      var s := NewSelector(bufsize, listeners, os, clock);
      var c := new Buffer(2 * bufsize);
      var t := new MicroTimer();
      this.bufsize, this.listeners := bufsize, listeners;
      selector, copy, last := s, c, t;
      new;
      StartReachable(bufsize, listeners, clock.now);
      StartListeners(bufsize, listeners, clock.now);
    }

    static method NewSelector(bufsize: nat, listeners: nat, os: Os, clock: Clock) returns (s: Selector)
      requires os.Valid() && os.open == {} && os.calls == [] && clock.Valid()
      modifies clock
      ensures fresh(s) && s.Matches() && fresh(s.Repr) && s !in s.Repr && s.os == os && s.clock == clock
      ensures s.bufsize == bufsize && s.sys == Start(bufsize, listeners, clock.now)
    {
      s := new Selector(bufsize, os, clock);
      s.AddSerial(bufsize);
      ghost var now := clock.now;
      assert s.sys.slots == Start(bufsize, 0, now).slots;
      var i := 0;
      while i < listeners
        invariant i <= listeners && s.Matches() && fresh(s.Repr) && s.os == os && s.clock == clock
        invariant s.bufsize == bufsize && clock.now == now && s.sys == Start(bufsize, i, now)
      {
        s.AddListener(bufsize);
        StartPlaces(bufsize, i, now);
        i := i + 1;
      }
    }

    // ---- Moving serial data ----

    /** Take what the serial device received. */
    method ProcessSerialData() returns (bytes: nat)
      requires Matches() && |selector.sys.slots| > 0
      modifies selector`sys, selector.Repr, copy, copy.data
      ensures Matches() && selector.Repr == old(selector.Repr)
      ensures bytes == |SerialBytes(old(selector.sys))|
      ensures selector.sys == BeginCycle(old(selector.sys))
    {
      bytes := selector.CallMove(0, copy);
      selector.Become(BeginCycle(selector.sys));
    }

    /** Copy serial data to a connection, as much as it has room for. */
    method SendData(k: nat, len: nat)
      requires Matches() && 0 < k < |selector.sys.slots|
      modifies selector`sys, selector.Repr, copy
      ensures Matches() && selector.Repr == old(selector.Repr)
      ensures selector.sys == DoBroadcast(old(selector.sys), k, len)
    {
      ghost var s := selector.sys;
      ghost var slot := Broadcast(s.slots[k], Fit(s.copy.contents, len));
      selector.CallCopy(k, copy, len);
      if slot == s.slots[k] {
        assert s.slots[k := slot] == s.slots;
      }
      selector.Become(DoBroadcast(s, k, len));
    }

    /** Collect what a client sent. */
    method ProcessClientData(k: nat)
      requires Matches() && 0 < k < |selector.sys.slots|
      modifies selector`sys, selector`parts, selector`Repr, selector.Repr
      ensures Matches() && fresh(selector.Repr - old(selector.Repr))
      ensures selector.sys == DoPull(old(selector.sys), k)
    {
      ghost var s := selector.sys;
      selector.CollectAt(k);
      selector.Become(DoPull(s, k));
    }

    /** Send a command of one client: queue it at the serial device, take it off the line
        buffer, and only then start the next pace. */
    method SendLine(k: nat, command: seq<byte>)
      requires Parts() && copy.Valid() && selector.Separate()
      requires 0 < k < |selector.devs| && selector.devs[k].Model.linebuf.Some?
      modifies selector.Repr, last, selector.clock
      ensures Parts() && copy.Valid() && copy.Model() == old(copy.Model())
      ensures selector.Separate() && selector.devs == old(selector.devs) && selector.Repr == old(selector.Repr)
      ensures unchanged(selector.os) && old(selector.clock.now) <= selector.clock.now
      ensures last.Model() == Started(RIGHT_NOW, COMMAND_PACE, selector.clock.now)
      ensures selector.clock.readings == old(selector.clock.readings) + [selector.clock.now]
      ensures selector.devs[0].Model == QueueDev(old(selector.devs[0].Model), command)
      ensures var d := old(selector.devs[k].Model);
        selector.devs[k].Model == d.(linebuf := Some(Consumed(d.linebuf.value, |command|)))
      ensures forall j :: 0 < j < |selector.devs| && j != k ==>
        selector.devs[j].Model == old(selector.devs[j].Model)
    {
      selector.CallQueue(0, command);
      selector.CallConsume(k, |command|);
      last.Reset(COMMAND_PACE, selector.clock);
    }

    /** Send the next command of one client, if there is one and the pace allows it. */
    method ProcessClientCommands(k: nat) returns (ghost tick: Tick)
      requires Matches() && 0 < k < |selector.sys.slots|
      modifies selector`sys, selector.Repr, last, selector.clock
      ensures Matches() && selector.Repr == old(selector.Repr)
      ensures old(selector.sys).now <= tick.check <= tick.end < CLOCK_LIMIT
      ensures selector.sys == SendCommand(old(selector.sys), k, tick)
      ensures selector.clock.readings == old(selector.clock.readings) +
        (if old(selector.sys).last.ending != NEVER then [tick.check] else []) +
        (if NextCommand(old(selector.sys), k, tick.check).Some? then [tick.end] else [])
    {
      ghost var s := selector.sys;
      var expired := last.Expired(selector.clock);
      ghost var check := selector.clock.now;
      if expired {
        var command := selector.NextLineAt(k);
        assert command == NextCommand(s, k, check);
        if command.Some? {
          SendLine(k, command.value);
        }
      }
      tick := Tick(check, selector.clock.now);
      SendChanges(s, k, tick);
      selector.Become(SendCommand(s, k, tick));
    }

    // ---- The cycle ----

    /** Serve one slot; a listener is only counted. */
    method ServeAt(k: nat, len: nat) returns (listener: bool, ghost tick: Tick)
      requires Matches() && 0 < k < |selector.sys.slots|
      modifies selector`sys, selector`parts, selector`Repr, selector.Repr, copy, last, selector.clock
      ensures Matches() && fresh(selector.Repr - old(selector.Repr))
      ensures listener == old(selector.sys).slots[k].dev.listener
      ensures old(selector.sys).now <= tick.check <= tick.end < CLOCK_LIMIT
      ensures selector.sys == ServeSlot(old(selector.sys), k, len, tick)
      ensures |selector.sys.slots| == |old(selector.sys).slots|
    {
      ghost var s := selector.sys;
      listener := selector.ListenerAt(k);
      if listener {
        tick := Tick(selector.clock.now, selector.clock.now);
      } else {
        SendData(k, len);
        ProcessClientData(k);
        tick := ProcessClientCommands(k);
        ServeInSteps(s, k, len, tick);
      }
    }

    /** A cycle under way from `b`: the slots below `k` have been served. */
    ghost predicate Serving(b: Sys, k: nat, len: nat, ticks: seq<Tick>, listeners: nat)
      reads this, selector, selector.os, selector.clock, selector.Repr, copy, copy.data, last
    {
      Matches() && |selector.devs| == |b.slots| && Counted(b, selector.sys, k, len, ticks, listeners)
    }

    /** Serve the next slot in order, and count it if it holds a listener. */
    method ServeNext(k: nat, len: nat, listeners: nat, ghost b: Sys, ghost ticks: seq<Tick>)
      returns (count: nat, ghost tick: Tick)
      requires Serving(b, k, len, ticks, listeners) && k < |selector.devs|
      modifies selector`sys, selector`parts, selector`Repr, selector.Repr, copy, last, selector.clock
      ensures Serving(b, k + 1, len, ticks + [tick], count) && fresh(selector.Repr - old(selector.Repr))
    {
      ghost var t := selector.sys;
      count := listeners;
      var listener;
      listener, tick := ServeAt(k, len);
      if listener {
        count := count + 1;
      }
      CountedStep(b, t, k, len, ticks, listeners, tick);
    }

    /** Serve the slots behind the serial device in order; count the listeners. */
    method ServeAll(len: nat) returns (listeners: nat, ghost ticks: seq<Tick>)
      requires Matches() && |selector.sys.slots| > 0
      modifies selector`sys, selector`parts, selector`Repr, selector.Repr, copy, last, selector.clock
      ensures Matches()
      ensures |ticks| == |old(selector.sys).slots| && TicksOk(old(selector.sys).now, ticks)
      ensures selector.sys == ServeFrom(old(selector.sys), 1, len, ticks)
      ensures listeners == 0 <==> NoListenerBelow(old(selector.sys), |old(selector.sys).slots|)
    {
      ghost var b := selector.sys;
      listeners, ticks := ServeEach(len);
      CountedEnd(b, selector.sys, |b.slots|, len, ticks, listeners);
    }

    /** One after the other. */
    method ServeEach(len: nat) returns (listeners: nat, ghost ticks: seq<Tick>)
      requires Matches() && |selector.sys.slots| > 0
      modifies selector`sys, selector`parts, selector`Repr, selector.Repr, copy, last, selector.clock
      ensures Serving(old(selector.sys), |old(selector.sys).slots|, len, ticks, listeners)
    {
      ghost var b := selector.sys;
      listeners, ticks := 0, [Tick(b.now, b.now)];
      var index := 1;
      CountedStart(b, len);
      while index < |selector.devs|
        invariant Serving(b, index, len, ticks, listeners) && fresh(selector.Repr - old(selector.Repr))
      {
        ghost var tick;
        listeners, tick := ServeNext(index, len, listeners, b, ticks);
        ticks := ticks + [tick];
        index := index + 1;
      }
    }

    /** Empty the buffer between the serial device and the connections. */
    method FinishCycle(ghost bytes: seq<byte>)
      requires Matches()
      modifies selector`sys, copy
      ensures Matches() && selector.sys == EndCycle(old(selector.sys), bytes)
    {
      copy.Flush();
      selector.Become(EndCycle(selector.sys, bytes));
    }

    /** A cycle of a gateway whose serial device is usable. */
    method RunCycle() returns (listeners: nat, ghost ticks: seq<Tick>)
      requires Matches() && Running(selector.sys)
      modifies selector`sys, selector`parts, selector`Repr, selector.Repr, copy, copy.data, last, selector.clock
      ensures Matches()
      ensures |ticks| == |old(selector.sys).slots| && TicksOk(old(selector.sys).now, ticks)
      ensures selector.sys == DoCycle(old(selector.sys), ticks)
      ensures listeners == 0 <==>
        forall k :: 1 <= k < |old(selector.sys).slots| ==> !old(selector.sys).slots[k].dev.listener
    {
      ghost var s := selector.sys;
      var bytes := ProcessSerialData();
      listeners, ticks := ServeAll(bytes);
      CycleInPieces(s, ticks);
      FinishCycle(SerialBytes(s));
    }

    /** One process cycle. It ends the program when the serial device is unusable or no
        listener was created, and else hands on what it was given. */
    method Process(rc: int) returns (result: int, ghost ticks: seq<Tick>)
      requires Valid()
      modifies selector`sys, selector`parts, selector`Repr, selector.Repr, copy, copy.data, last, selector.clock
      ensures Valid()
      ensures Enabled(old(selector.sys), Cycle(ticks))
      ensures selector.sys == Exec(old(selector.sys), Cycle(ticks))
      ensures |selector.devs| > 0
      ensures result == (if listeners == 0 || selector.devs[0].Model.state == Inactive then EX_NORMAL else rc)
    {
      ghost var s := selector.sys;
      var running := SerialIsUsable();
      if !running {
        result, ticks := EX_NORMAL, IdleTicks(s);
      } else {
        var count;
        count, ticks := RunCycle();
        result := if count == 0 then EX_NORMAL else rc;
      }
      ReachableExec(s, Cycle(ticks), bufsize);
      CycleHandsOn(s, ticks, rc, bufsize);
    }

    method SerialIsUsable() returns (usable: bool)
      requires Matches()
      ensures usable == Running(selector.sys)
    {
      usable := false;
      if |selector.devs| > 0 {
        var state := selector.StateAt(0);
        usable := state != Inactive;
      }
    }

    /** One round of the main loop: the selector loop and a process cycle. The program goes
        on, with 0, as long as the serial device is usable, if there are listeners. */
    method Turn() returns (result: int, ghost ps: seq<Lap>, ghost ticks: seq<Tick>)
      requires Valid()
      modifies selector`sys, selector`devs, selector`parts, selector`Repr, selector.Repr
      modifies selector.os, selector.clock, copy, copy.data, last
      ensures Valid()
      ensures LoopOk(old(selector.sys), ps) && ps != [] && ps[|ps| - 1].ready <= 0
      ensures Feasible(old(selector.sys), LoopEvents(ps) + [Cycle(ticks)])
      ensures selector.sys == Run(old(selector.sys), LoopEvents(ps) + [Cycle(ticks)])
      ensures |selector.devs| > 0
      ensures result == (if listeners == 0 || selector.devs[0].Model.state == Inactive then EX_NORMAL else 0)
      ensures selector.os.selects == old(selector.os.selects) + LoopSelects(ps)
    {
      ghost var s := selector.sys;
      var rc;
      rc, ps := selector.Loop();
      ghost var t := selector.sys;
      LapsKeepListeners(s, ps, t, bufsize);
      result, ticks := Process(rc);
      RoundRuns(s, ps, t, Cycle(ticks));
    }

    // ---- What the memory holds, and what the system was asked ----

    /** The bytes in the ring of a device. */
    static ghost function Stored(b: Buffer): seq<byte>
      requires b.Valid()
      reads b, b.data
    {
      View(b.data[..], b.lo, b.hi)
    }

    /** What was written to the descriptor of a live connection, then what its transmit ring
        holds, is what fitted of the serial stream since it was accepted; and what was read
        from it is the commands taken, what its line store holds, and what its receive ring
        holds. */
    lemma MemoryHoldsTheStreams(k: nat)
      requires Valid() && 0 < k < |selector.devs|
      requires selector.devs[k].Model.kind.Connection? && selector.devs[k].Model.fd != NO_FD
      ensures selector.devs[k].Valid() && selector.devs[k].linebuf != null && k < |selector.sys.slots|
      ensures var d, l, calls := selector.devs[k], selector.sys.slots[k].log, selector.os.calls;
        var moved := selector.sys.log.moved;
        && l.moved <= |moved| && Offers(l.chunks) == moved[l.moved..]
        && Calls.SentOn(calls, d.fd) + Stored(d.tbuf) == Deliveries(l.chunks)
        && Calls.GotOn(calls, d.fd) == Join(l.taken) + d.linebuf.buff[..d.linebuf.used] + Stored(d.rbuf)
    {
      assert Look(0) && Owns(selector.devs[k], selector.parts[k]);
      ClientsGetTheSerialStream(selector.sys, bufsize, k);
      ClientBytesBecomeCommands(selector.sys, bufsize, k);
      HistoriesAreCalls(selector.sys, bufsize);
    }

    /** Since the serial device was last flushed, what was written to the serial port and
        what its transmit ring holds are the blocks of the commands, and what was read from
        it is what was moved to the clients and what its receive ring holds. */
    lemma MemoryHoldsTheLine()
      requires Valid()
      ensures |selector.devs| > 0 && selector.devs[0].Valid() && selector.sys.log.marks != []
      ensures var d, calls, log := selector.devs[0], selector.os.calls, selector.sys.log;
        var m := log.marks[|log.marks| - 1];
        && m.wire <= |Calls.LineOut(calls)| && m.read <= |Calls.LineIn(calls)|
        && m.commands <= |log.commands| && m.moved <= |log.moved|
        && Calls.LineOut(calls)[m.wire..] + Stored(d.tbuf) == Wire.Blocks(log.commands[m.commands..])
        && log.moved[m.moved..] + Stored(d.rbuf) == Calls.LineIn(calls)[m.read..]
    {
      SerialOrderIsKept(selector.sys, bufsize);
      HistoriesAreCalls(selector.sys, bufsize);
      assert Look(0) && Owns(selector.devs[0], selector.parts[0]);
      ghost var log := selector.sys.log;
      ghost var m := log.marks[|log.marks| - 1];
      assert Wire.WireBytes(log.wire[m.wire..]) == Wire.WireBytes(log.wire)[m.wire..];
    }

    /** End to end, on bytes that passed through system calls alone: what was written to a
        client accepted since the last flush, what is queued for it, and what waits at the
        serial device are what was read from the serial port from some point on, if every
        chunk fitted. */
    lemma DeviceToClient(k: nat) returns (from: nat)
      requires Valid() && 0 < k < |selector.devs| == |selector.sys.slots|
      requires selector.devs[k].Model.kind.Connection? && selector.devs[k].Model.fd != NO_FD
      requires forall i :: 0 <= i < |selector.sys.slots[k].log.chunks| ==> selector.sys.slots[k].log.chunks[i].Whole()
      requires selector.sys.log.marks != []
      requires selector.sys.log.marks[|selector.sys.log.marks| - 1].moved <= selector.sys.slots[k].log.moved
      ensures selector.devs[k].Valid() && selector.devs[0].Valid() && from <= |Calls.LineIn(selector.os.calls)|
      ensures var d, serial, calls := selector.devs[k], selector.devs[0], selector.os.calls;
        Calls.SentOn(calls, d.fd) + Stored(d.tbuf) + Stored(serial.rbuf) == Calls.LineIn(calls)[from..]
    {
      assert Look(0) && Owns(selector.devs[k], selector.parts[k]) && Owns(selector.devs[0], selector.parts[0]);
      from := ClientSeesWhatTheDeviceSent(selector.sys, bufsize, k);
      HistoriesAreCalls(selector.sys, bufsize);
    }

    /** And towards the device: framing what was written to the serial port since the last
        flush, and what is queued for it, yields the commands sent, if all of them fitted. */
    lemma CommandsToDevice()
      requires Valid() && |selector.sys.slots| > 0 && selector.sys.log.marks != []
      requires var log := selector.sys.log;
        forall i :: log.marks[|log.marks| - 1].commands <= i < |log.commands| ==> log.commands[i].sent.Whole()
      ensures |selector.devs| > 0 && selector.devs[0].Valid()
      ensures var calls, log := selector.os.calls, selector.sys.log;
        var m := log.marks[|log.marks| - 1];
        && m.wire <= |Calls.LineOut(calls)| && m.commands <= |log.commands|
        && TokensOf(Calls.LineOut(calls)[m.wire..] + Stored(selector.devs[0].tbuf), NEWLINE) ==
             Texts(log.commands[m.commands..])
    {
      WholeCommandsReachTheLine(selector.sys, bufsize);
      MemoryHoldsTheLine();
      ghost var log := selector.sys.log;
      ghost var m := log.marks[|log.marks| - 1];
      HistoriesAreCalls(selector.sys, bufsize);
      assert Look(0) && Owns(selector.devs[0], selector.parts[0]);
      assert Wire.WireBytes(log.wire[m.wire..]) == Wire.WireBytes(log.wire)[m.wire..];
    }
  }
}
