/** The serial device: the order of what is read from it and written to it, and the
    pace of the characters. */
module Wire {
  import opened Bytes
  import opened Buffers
  import opened Timers
  import opened Devices
  import opened Systems
  import opened Shapes

  // ---- Histories of the serial device ----

  function WireBytes(wire: seq<WireByte>): seq<byte> {
    seq(|wire|, i requires 0 <= i < |wire| => wire[i].b)
  }

  /** What of each command was queued, one block after the other. */
  function Blocks(commands: seq<Command>): seq<byte> {
    if commands == [] then []
    else Blocks(commands[..|commands| - 1]) + commands[|commands| - 1].sent.Fitted()
  }

  lemma BlocksSnoc(commands: seq<Command>, from: nat, c: Command)
    requires from <= |commands|
    ensures Blocks((commands + [c])[from..]) == Blocks(commands[from..]) + c.sent.Fitted()
  {
    assert (commands + [c])[from..] == commands[from..] + [c];
    assert (commands[from..] + [c])[..|commands[from..]|] == commands[from..];
  }

  /** Commands that all fitted are on the line whole, one after the other. */
  lemma {:induction false} WholeBlocks(commands: seq<Command>)
    requires forall i :: 0 <= i < |commands| ==> commands[i].sent.Whole()
    ensures Blocks(commands) == Join(Texts(commands))
  {
    if commands != [] {
      var front, last := commands[..|commands| - 1], commands[|commands| - 1];
      WholeBlocks(front);
      assert last.sent.Fitted() == last.sent.bytes;
      assert Texts(commands) == Texts(front) + [last.sent.bytes];
      JoinSnoc(Texts(front), last.sent.bytes);
    }
  }

  ghost predicate MarkOk(m: Mark, log: Log) {
    m.read <= |log.read| && m.moved <= |log.moved| && m.commands <= |log.commands| && m.wire <= |log.wire|
  }

  /** Between two flushes of its buffers the serial device writes a front of what was
      queued, and the clients get a front of what was read, both in order. */
  ghost predicate EpochOk(a: Mark, b: Mark, log: Log) {
    && MarkOk(a, log) && MarkOk(b, log)
    && a.read <= b.read && a.moved <= b.moved && a.commands <= b.commands && a.wire <= b.wire
    && WireBytes(log.wire[a.wire..b.wire]) <= Blocks(log.commands[a.commands..b.commands])
    && log.moved[a.moved..b.moved] <= log.read[a.read..b.read]
  }

  /** Since a flush nothing is missing: what was written and what is still queued are
      the blocks of the commands, and what was moved and what still waits are the bytes
      read. `pending` bytes have left the receive buffer in a cycle still under way. */
  ghost predicate CurrentOk(rbuf: seq<byte>, tbuf: seq<byte>, pending: seq<byte>, log: Log, m: Mark) {
    && MarkOk(m, log)
    && WireBytes(log.wire[m.wire..]) + tbuf == Blocks(log.commands[m.commands..])
    && log.moved[m.moved..] + pending + rbuf == log.read[m.read..]
  }

  ghost predicate EpochsOk(log: Log) {
    && log.marks != []
    && log.marks[0] == Mark(0, 0, 0, 0)
    && forall j :: 0 < j < |log.marks| ==> EpochOk(log.marks[j - 1], log.marks[j], log)
  }

  ghost predicate OrderOk(rbuf: seq<byte>, tbuf: seq<byte>, pending: seq<byte>, log: Log) {
    EpochsOk(log) && CurrentOk(rbuf, tbuf, pending, log, log.marks[|log.marks| - 1])
  }

  /** Characters so far were paced, and the pacer ends at least one pace after the last. */
  ghost predicate PacedBy(pacer: Timer, wire: seq<WireByte>) {
    && Paced(WireTicks(wire), CHARACTER_PACING)
    && pacer.ending < TWO_63
    && (wire != [] ==> wire[|wire| - 1].tick.end + CHARACTER_PACING <= pacer.ending)
  }

  ghost predicate WireOk(s: Sys, pending: seq<byte>) {
    && |s.slots| > 0
    && OrderOk(s.slots[0].dev.rbuf.contents, s.slots[0].dev.tbuf.contents, pending, s.log)
    && PacedBy(s.slots[0].dev.pacer, s.log.wire)
  }

  // ---- Epoch by epoch ----

  lemma MarksAreOk(log: Log, j: nat)
    requires j < |log.marks| && EpochsOk(log)
    ensures MarkOk(log.marks[j], log)
    ensures j + 1 < |log.marks| ==> EpochOk(log.marks[j], log.marks[j + 1], log)
  {
    if j > 0 {
      assert EpochOk(log.marks[j - 1], log.marks[j], log);
    }
    if j + 1 < |log.marks| {
      assert EpochOk(log.marks[(j + 1) - 1], log.marks[j + 1], log);
    }
  }

  /** What was moved to the clients in each epoch from the `j`-th on. */
  function Fronts(log: Log, j: nat): (fronts: seq<seq<byte>>)
    requires j < |log.marks| && EpochsOk(log)
    ensures |fronts| == |log.marks| - j
    decreases |log.marks| - j
  {
    MarksAreOk(log, j);
    if j == |log.marks| - 1 then [log.moved[log.marks[j].moved..]]
    else [log.moved[log.marks[j].moved..log.marks[j + 1].moved]] + Fronts(log, j + 1)
  }

  lemma {:induction false} FrontsJoin(log: Log, j: nat)
    requires j < |log.marks| && EpochsOk(log)
    ensures MarkOk(log.marks[j], log) && Join(Fronts(log, j)) == log.moved[log.marks[j].moved..]
    decreases |log.marks| - j
  {
    MarksAreOk(log, j);
    var a := log.marks[j].moved;
    if j == |log.marks| - 1 {
      JoinSnoc([], log.moved[a..]);
      assert [] + [log.moved[a..]] == Fronts(log, j);
    } else {
      var b := log.marks[j + 1].moved;
      FrontsJoin(log, j + 1);
      JoinCons(log.moved[a..b], Fronts(log, j + 1));
      assert log.moved[a..] == log.moved[a..b] + log.moved[b..];
    }
  }

  /** A front of what was read in an epoch; all of it but what still waits, in the last. */
  ghost predicate FrontOf(log: Log, i: nat, front: seq<byte>, waiting: seq<byte>) {
    && i < |log.marks| && MarkOk(log.marks[i], log)
    && if i == |log.marks| - 1 then front + waiting == log.read[log.marks[i].read..]
       else
         && log.marks[i].read <= log.marks[i + 1].read <= |log.read|
         && front <= log.read[log.marks[i].read..log.marks[i + 1].read]
  }

  /** What was moved in one epoch. */
  function MovedIn(log: Log, i: nat): seq<byte>
    requires i < |log.marks| && EpochsOk(log)
  {
    MarksAreOk(log, i);
    if i == |log.marks| - 1 then log.moved[log.marks[i].moved..]
    else log.moved[log.marks[i].moved..log.marks[i + 1].moved]
  }

  lemma {:induction false} FrontAt(log: Log, j: nat, p: nat)
    requires EpochsOk(log) && j + p < |log.marks|
    ensures Fronts(log, j)[p] == MovedIn(log, j + p)
    decreases p
  {
    if p > 0 {
      FrontAt(log, j + 1, p - 1);
    }
  }

  lemma MovedIsFront(rbuf: seq<byte>, tbuf: seq<byte>, log: Log, i: nat)
    requires OrderOk(rbuf, tbuf, [], log) && i < |log.marks|
    ensures FrontOf(log, i, MovedIn(log, i), rbuf)
  {
    MarksAreOk(log, i);
    if i == |log.marks| - 1 {
      assert MovedIn(log, i) + [] == MovedIn(log, i);
    }
  }

  lemma FrontsAreFronts(rbuf: seq<byte>, tbuf: seq<byte>, log: Log, j: nat)
    requires OrderOk(rbuf, tbuf, [], log) && j < |log.marks|
    ensures forall p :: 0 <= p < |Fronts(log, j)| ==> FrontOf(log, j + p, Fronts(log, j)[p], rbuf)
  {
    forall p | 0 <= p < |Fronts(log, j)|
      ensures FrontOf(log, j + p, Fronts(log, j)[p], rbuf)
    {
      FrontAt(log, j, p);
      MovedIsFront(rbuf, tbuf, log, j + p);
    }
  }

  // ---- Histories only grow ----

  ghost predicate Extends(log: Log, later: Log) {
    && log.read <= later.read && log.moved <= later.moved
    && log.commands <= later.commands && log.wire <= later.wire
  }

  lemma EpochStays(a: Mark, b: Mark, log: Log, later: Log)
    requires EpochOk(a, b, log) && Extends(log, later)
    ensures EpochOk(a, b, later)
  {
    assert later.wire[a.wire..b.wire] == log.wire[a.wire..b.wire];
    assert later.commands[a.commands..b.commands] == log.commands[a.commands..b.commands];
    assert later.moved[a.moved..b.moved] == log.moved[a.moved..b.moved];
    assert later.read[a.read..b.read] == log.read[a.read..b.read];
  }

  lemma EpochsStay(log: Log, later: Log)
    requires EpochsOk(log) && Extends(log, later) && later.marks == log.marks
    ensures EpochsOk(later)
  {
    forall j | 0 < j < |log.marks|
      ensures EpochOk(log.marks[j - 1], log.marks[j], later)
    {
      EpochStays(log.marks[j - 1], log.marks[j], log, later);
    }
  }

  lemma FlushMark(rbuf: seq<byte>, tbuf: seq<byte>, log: Log, m: Mark, n: Mark)
    requires CurrentOk(rbuf, tbuf, [], log, m)
    requires n == Mark(|log.read|, |log.moved|, |log.commands|, |log.wire|)
    ensures EpochOk(m, n, log) && CurrentOk([], [], [], log, n)
  {
    assert log.wire[m.wire..n.wire] == log.wire[m.wire..];
    assert log.commands[m.commands..n.commands] == log.commands[m.commands..];
    assert log.moved[m.moved..n.moved] == log.moved[m.moved..];
    assert log.read[m.read..n.read] == log.read[m.read..];
  }

  /** A flush closes an epoch in good order and starts one with nothing in it. */
  lemma FlushOrder(rbuf: seq<byte>, tbuf: seq<byte>, log: Log)
    requires OrderOk(rbuf, tbuf, [], log)
    ensures OrderOk([], [], [], Marked(log))
  {
    var later, m := Marked(log), log.marks[|log.marks| - 1];
    var n := later.marks[|log.marks|];
    FlushMark(rbuf, tbuf, log, m, n);
    forall j | 0 < j < |later.marks|
      ensures EpochOk(later.marks[j - 1], later.marks[j], later)
    {
      if j < |log.marks| {
        EpochStays(log.marks[j - 1], log.marks[j], log, later);
      } else {
        EpochStays(m, n, log, later);
      }
    }
  }

  // ---- Reading and writing ----

  lemma ReadOrder(rbuf: seq<byte>, tbuf: seq<byte>, log: Log, bytes: seq<byte>)
    requires OrderOk(rbuf, tbuf, [], log)
    ensures OrderOk(rbuf + bytes, tbuf, [], log.(read := log.read + bytes))
  {
    var m := log.marks[|log.marks| - 1];
    assert (log.read + bytes)[m.read..] == log.read[m.read..] + bytes;
    EpochsStay(log, log.(read := log.read + bytes));
  }

  /** What a read does on the serial side. */
  lemma SerialRead(s: Sys, res: ReadResult)
    requires |s.slots| > 0
    ensures var d, t := s.slots[0].dev, DoRead(s, 0, res);
      && |t.slots| == |s.slots| && t.slots[0].dev.pacer == d.pacer && t.log.wire == s.log.wire
      && if Reads(d, res) then
           && t.slots[0].dev.rbuf == d.rbuf.Put(res.bytes) && t.slots[0].dev.tbuf == d.tbuf
           && t.log == s.log.(read := s.log.read + res.bytes)
         else if d.fd != NO_FD then
           && t.slots[0].dev.rbuf.contents == [] && t.slots[0].dev.tbuf.contents == []
           && t.log == Marked(s.log)
         else
           t.slots[0].dev == d && t.log == s.log
  {
  }

  lemma ReadWire(s: Sys, res: ReadResult)
    requires Enabled(s, Read(0, res)) && WireOk(s, [])
    ensures WireOk(DoRead(s, 0, res), [])
  {
    var d := s.slots[0].dev;
    SerialRead(s, res);
    if Reads(d, res) {
      assert Fit(res.bytes, d.rbuf.Available()) == res.bytes;
      ReadOrder(d.rbuf.contents, d.tbuf.contents, s.log, res.bytes);
    } else if d.fd != NO_FD {
      FlushOrder(d.rbuf.contents, d.tbuf.contents, s.log);
    }
  }

  lemma WireBytesAppend(wire: seq<WireByte>, from: nat, bytes: seq<byte>, check: nat, end: nat)
    requires from <= |wire|
    ensures WireBytes((wire + OnWire(bytes, check, end))[from..]) == WireBytes(wire[from..]) + bytes
  {
  }

  lemma WireBytesPlus(wire: seq<WireByte>, bytes: seq<byte>, check: nat, end: nat)
    ensures WireBytes(wire + OnWire(bytes, check, end)) == WireBytes(wire) + bytes
  {
  }

  lemma WriteOrder(rbuf: seq<byte>, tbuf: seq<byte>, log: Log, bytes: seq<byte>, rest: seq<byte>, check: nat, end: nat)
    requires OrderOk(rbuf, tbuf, [], log) && tbuf == bytes + rest
    ensures OrderOk(rbuf, rest, [], log.(wire := log.wire + OnWire(bytes, check, end)))
  {
    WireBytesAppend(log.wire, log.marks[|log.marks| - 1].wire, bytes, check, end);
    EpochsStay(log, log.(wire := log.wire + OnWire(bytes, check, end)));
  }

  /** A write that waited for the pacer, and restarts it, keeps the pace. */
  lemma WritePace(pacer: Timer, wire: seq<WireByte>, bytes: seq<byte>, check: nat, end: nat)
    requires PacedBy(pacer, wire) && pacer.Expired(check) && check <= end < CLOCK_LIMIT && |bytes| <= 1
    ensures PacedBy(Started(RIGHT_NOW, CHARACTER_PACING, end), wire + OnWire(bytes, check, end))
  {
    if bytes == [] {
      assert wire + OnWire(bytes, check, end) == wire;
    } else {
      PacedSnoc(WireTicks(wire), Tick(check, end), CHARACTER_PACING);
      assert WireTicks(wire + OnWire(bytes, check, end)) == WireTicks(wire) + [Tick(check, end)];
    }
  }

  /** What a write does on the serial side: one character at most, when it is time. */
  lemma SerialWrite(s: Sys, res: WriteResult, check: nat, end: nat)
    requires |s.slots| > 0 && s.slots[0].dev.kind.SerialPort?
    requires res.Wrote? ==> res.len <= |Offered(s.slots[0].dev)|
    ensures var d, t, bytes := s.slots[0].dev, DoWrite(s, 0, res, check, end), WrittenBy(s.slots[0].dev, res, check);
      && |t.slots| == |s.slots| && t.slots[0].dev.rbuf == d.rbuf
      && d.tbuf.contents == bytes + t.slots[0].dev.tbuf.contents
      && |bytes| <= 1
      && t.log == s.log.(wire := s.log.wire + OnWire(bytes, check, end))
      && (|| (t.slots[0].dev.pacer == d.pacer && bytes == [])
          || (d.pacer.Expired(check) && t.slots[0].dev.pacer == Started(RIGHT_NOW, CHARACTER_PACING, end)))
  {
    var d, bytes := s.slots[0].dev, WrittenBy(s.slots[0].dev, res, check);
    if Writes(d, check) && res.Wrote? {
      assert d.tbuf.contents == bytes + d.tbuf.Drop(res.len).contents;
    }
  }

  lemma WriteWire(s: Sys, res: WriteResult, check: nat, end: nat)
    requires Enabled(s, Write(0, res, check, end)) && WireOk(s, []) && s.slots[0].dev.kind.SerialPort?
    ensures WireOk(DoWrite(s, 0, res, check, end), [])
  {
    var d, t, bytes := s.slots[0].dev, DoWrite(s, 0, res, check, end), WrittenBy(s.slots[0].dev, res, check);
    SerialWrite(s, res, check, end);
    WriteOrder(d.rbuf.contents, d.tbuf.contents, s.log, bytes, t.slots[0].dev.tbuf.contents, check, end);
    if t.slots[0].dev.pacer == d.pacer && bytes == [] {
      assert t.log.wire == s.log.wire;
    } else {
      WritePace(d.pacer, s.log.wire, bytes, check, end);
    }
  }

  // ---- The cycle ----

  lemma QueueOrder(d: Dev, log: Log, pending: seq<byte>, c: Command)
    requires OrderOk(d.rbuf.contents, d.tbuf.contents, pending, log)
    requires c.sent.room == if d.state.IsOpen() then d.tbuf.Available() else 0
    ensures OrderOk(d.rbuf.contents, QueueDev(d, c.sent.bytes).tbuf.contents, pending,
                    log.(commands := log.commands + [c]))
  {
    BlocksSnoc(log.commands, log.marks[|log.marks| - 1].commands, c);
    EpochsStay(log, log.(commands := log.commands + [c]));
  }

  /** Serving a slot changes the serial side only by queueing a command. */
  lemma ServeSlotSerial(s: Sys, k: nat, len: nat, tick: Tick)
    requires 0 < k < |s.slots|
    ensures var t, d := ServeSlot(s, k, len, tick), s.slots[0].dev;
      && |t.slots| == |s.slots|
      && if t.log == s.log then t.slots[0].dev == d
         else
           var c := t.log.commands[|s.log.commands|];
           && |t.log.commands| > |s.log.commands|
           && t.log == s.log.(commands := s.log.commands + [c])
           && t.slots[0].dev == QueueDev(d, c.sent.bytes)
           && c.sent.room == if d.state.IsOpen() then d.tbuf.Available() else 0
  {
    var t := ServeSlot(s, k, len, tick);
    if t.log != s.log {
      assert |t.log.commands| == |s.log.commands| + 1;
    }
  }

  lemma ServeSlotWire(s: Sys, k: nat, len: nat, tick: Tick, pending: seq<byte>)
    requires 0 < k < |s.slots| && WireOk(s, pending)
    ensures WireOk(ServeSlot(s, k, len, tick), pending)
  {
    var t := ServeSlot(s, k, len, tick);
    ServeSlotSerial(s, k, len, tick);
    if t.log != s.log {
      QueueOrder(s.slots[0].dev, s.log, pending, t.log.commands[|s.log.commands|]);
    }
  }

  lemma {:induction false} ServeFromWire(s: Sys, k: nat, len: nat, ticks: seq<Tick>, pending: seq<byte>)
    requires k > 0 && |ticks| == |s.slots| && WireOk(s, pending)
    ensures WireOk(ServeFrom(s, k, len, ticks), pending)
    decreases |s.slots| - k
  {
    if k < |s.slots| {
      ServeSlotWire(s, k, len, ticks[k], pending);
      ServeFromWire(ServeSlot(s, k, len, ticks[k]), k + 1, len, ticks, pending);
    }
  }

  lemma Regroup(moved: seq<byte>, bytes: seq<byte>, rest: seq<byte>)
    ensures moved + [] + (bytes + rest) == moved + bytes + rest
  {
  }

  lemma MoveOrder(rbuf: seq<byte>, tbuf: seq<byte>, log: Log, bytes: seq<byte>, rest: seq<byte>)
    requires OrderOk(rbuf, tbuf, [], log) && rbuf == bytes + rest
    ensures OrderOk(rest, tbuf, bytes, log)
  {
    var m := log.marks[|log.marks| - 1];
    Regroup(log.moved[m.moved..], bytes, rest);
  }

  lemma BeginWire(s: Sys)
    requires WireOk(s, [])
    ensures WireOk(BeginCycle(s), SerialBytes(s))
  {
    var d, bytes := s.slots[0].dev, SerialBytes(s);
    assert d.rbuf.contents == bytes + d.rbuf.Drop(|bytes|).contents;
    MoveOrder(d.rbuf.contents, d.tbuf.contents, s.log, bytes, d.rbuf.Drop(|bytes|).contents);
  }

  lemma EndWire(s: Sys, bytes: seq<byte>)
    requires WireOk(s, bytes)
    ensures WireOk(EndCycle(s, bytes), [])
  {
    var t, m := EndCycle(s, bytes), s.log.marks[|s.log.marks| - 1];
    EpochsStay(s.log, t.log);
    assert t.log.moved[m.moved..] + [] == s.log.moved[m.moved..] + bytes;
  }

  lemma CycleWire(s: Sys, ticks: seq<Tick>)
    requires Enabled(s, Cycle(ticks)) && WireOk(s, [])
    ensures WireOk(DoCycle(s, ticks), [])
  {
    if Running(s) {
      var bytes := SerialBytes(s);
      BeginWire(s);
      ServeFromWire(BeginCycle(s), 1, |bytes|, ticks, bytes);
      EndWire(ServeFrom(BeginCycle(s), 1, |bytes|, ticks), bytes);
    }
  }

  // ---- Every event ----

  /** Opening, closing, accepting and other devices leave the serial histories alone:
      in particular the pacer and the queue survive a close and a reopen. */
  lemma OtherWire(s: Sys, e: Event, bufsize: nat)
    requires Layout(s, bufsize) && Enabled(s, e) && !e.Cycle?
    requires e.Read? || e.Write? ==> e.i > 0
    ensures var t, d := Exec(s, e), s.slots[0].dev;
      && |t.slots| > 0 && t.log == s.log
      && t.slots[0].dev == d.(fd := t.slots[0].dev.fd, state := t.slots[0].dev.state)
  {
    match e
    case Read(i, res) =>
    case Write(i, res, check, end) =>
    case Accept(i, fd) =>
    case _ => OnlyOpensOrCloses(s, e, bufsize);
  }

  lemma ExecWire(s: Sys, e: Event, bufsize: nat)
    requires Layout(s, bufsize) && Enabled(s, e) && WireOk(s, [])
    ensures WireOk(Exec(s, e), [])
  {
    if e.Cycle? {
      CycleWire(s, e.ticks);
    } else if e.Read? && e.i == 0 {
      ReadWire(s, e.read);
    } else if e.Write? && e.i == 0 {
      assert DevsOf(s)[0] == s.slots[0].dev;
      WriteWire(s, e.write, e.check, e.end);
    } else {
      OtherWire(s, e, bufsize);
    }
  }
}
