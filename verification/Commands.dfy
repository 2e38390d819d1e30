/** From the clients to the serial device: how received bytes become commands, and how
    often commands are sent. */
module Commands {
  import opened Bytes
  import opened Buffers
  import opened Timers
  import opened Tokens
  import opened StringStores
  import opened Devices
  import opened Systems
  import opened Shapes

  // ---- What one connection received and what was taken from it ----

  /** The commands sent from a slot, in order. */
  function SentFrom(commands: seq<Command>, slot: nat): seq<seq<byte>> {
    if commands == [] then []
    else
      var last := commands[|commands| - 1];
      SentFrom(commands[..|commands| - 1], slot) + if last.slot == slot then [last.sent.bytes] else []
  }

  lemma SentSnoc(commands: seq<Command>, from: nat, c: Command, slot: nat)
    requires from <= |commands|
    ensures SentFrom((commands + [c])[from..], slot) ==
      SentFrom(commands[from..], slot) + if c.slot == slot then [c.sent.bytes] else []
  {
    assert (commands + [c])[from..] == commands[from..] + [c];
    assert (commands[from..] + [c])[..|commands[from..]|] == commands[from..];
  }

  function LineOf(d: Dev): seq<byte> {
    if d.linebuf.None? then [] else d.linebuf.value
  }

  /** What is accounted for: taken as commands, waiting in the line buffer, or
      waiting in the receive buffer. */
  function Accounted(slot: Slot): seq<byte> {
    Join(slot.log.taken) + LineOf(slot.dev) + slot.dev.rbuf.contents
  }

  lemma AccountIs(slot: Slot)
    ensures Accounted(slot) == Join(slot.log.taken) + (LineOf(slot.dev) + slot.dev.rbuf.contents)
  {
  }

  /** While a connection is live nothing it received is lost, and even after it closed
      what was kept is the front of what it received. All that was taken are whole
      commands, and they are the ones sent from its slot. */
  ghost predicate ClientOk(slot: Slot, k: nat, commands: seq<Command>) {
    slot.dev.kind.Connection? ==>
      && slot.log.commands <= |commands|
      && Accounted(slot) <= slot.log.received
      && (slot.dev.fd != NO_FD ==> Accounted(slot) == slot.log.received)
      && AllTokens(slot.log.taken, NEWLINE)
      && slot.log.taken == SentFrom(commands[slot.log.commands..], k)
  }

  /** Besides, everything ever sent was a whole command. */
  ghost predicate ClientsOk(s: Sys) {
    && AllTokens(Texts(s.log.commands), NEWLINE)
    && forall k :: 0 < k < |s.slots| ==> ClientOk(s.slots[k], k, s.log.commands)
  }

  // ---- Pace ----

  /** Commands so far were paced, and the timer ends one pace after the last. */
  ghost predicate PaceOk(s: Sys) {
    && Paced(CommandTicks(s.log.commands), COMMAND_PACE)
    && (s.log.commands == [] ==> s.last.ending == NEVER)
    && (s.log.commands != [] ==>
          && s.last.ending == s.log.commands[|s.log.commands| - 1].tick.end + COMMAND_PACE
          && s.last.ending < TWO_63)
  }

  // ---- Serving a slot ----

  lemma PullAccount(slot: Slot, k: nat, commands: seq<Command>)
    requires ClientOk(slot, k, commands)
    ensures ClientOk(slot.(dev := Pull(slot.dev)), k, commands)
  {
    assert Accounted(slot.(dev := Pull(slot.dev))) == Accounted(slot);
  }

  lemma BroadcastAccount(slot: Slot, chunk: seq<byte>, k: nat, commands: seq<Command>)
    requires ClientOk(slot, k, commands)
    ensures ClientOk(Broadcast(slot, chunk), k, commands)
  {
    assert Accounted(Broadcast(slot, chunk)) == Accounted(slot);
  }

  /** Taking a command off the line buffer accounts for the same bytes. */
  lemma TakeAccount(slot: Slot, len: nat)
    requires slot.dev.linebuf.Some? && NextLength(slot.dev.linebuf.value, NEWLINE) == Some(len)
    ensures var line := slot.dev.linebuf.value;
      var t := Slot(slot.dev.(linebuf := Some(Consumed(line, len))),
                    slot.log.(taken := slot.log.taken + [line[..len]]));
      Accounted(t) == Accounted(slot) && IsToken(line[..len], NEWLINE)
  {
    var line := slot.dev.linebuf.value;
    JoinSnoc(slot.log.taken, line[..len]);
    assert line == line[..len] + Consumed(line, len);
  }

  /** A command from slot `k` leaves the account of every other slot alone. */
  lemma OtherClientOk(slot: Slot, j: nat, commands: seq<Command>, c: Command)
    requires ClientOk(slot, j, commands) && c.slot != j
    ensures ClientOk(slot, j, commands + [c])
  {
    if slot.dev.kind.Connection? {
      SentSnoc(commands, slot.log.commands, c, j);
    }
  }

  /** The sender's account moves the command from the line buffer to those taken. */
  lemma SenderOk(slot: Slot, k: nat, commands: seq<Command>, c: Command, len: nat)
    requires ClientOk(slot, k, commands) && c.slot == k
    requires slot.dev.linebuf.Some? && NextLength(slot.dev.linebuf.value, NEWLINE) == Some(len)
    requires c.sent.bytes == slot.dev.linebuf.value[..len]
    ensures ClientOk(Slot(slot.dev.(linebuf := Some(Consumed(slot.dev.linebuf.value, len))),
                          slot.log.(taken := slot.log.taken + [c.sent.bytes])), k, commands + [c])
  {
    TakeAccount(slot, len);
    if slot.dev.kind.Connection? {
      SentSnoc(commands, slot.log.commands, c, k);
    }
  }

  lemma TextsSnoc(commands: seq<Command>, c: Command)
    requires AllTokens(Texts(commands), NEWLINE) && IsToken(c.sent.bytes, NEWLINE)
    ensures AllTokens(Texts(commands + [c]), NEWLINE)
  {
    assert Texts(commands + [c]) == Texts(commands) + [c.sent.bytes];
  }

  lemma SendCommandClients(s: Sys, k: nat, tick: Tick)
    requires 0 < k < |s.slots| && ClientsOk(s)
    ensures ClientsOk(SendCommand(s, k, tick))
  {
    var next := NextCommand(s, k, tick.check);
    if next.Some? {
      var t := SendCommand(s, k, tick);
      var c := t.log.commands[|s.log.commands|];
      SenderOk(s.slots[k], k, s.log.commands, c, |next.value|);
      TakeAccount(s.slots[k], |next.value|);
      TextsSnoc(s.log.commands, c);
      forall j | 0 < j < |s.slots| && j != k
        ensures ClientOk(t.slots[j], j, t.log.commands)
      {
        OtherClientOk(s.slots[j], j, s.log.commands, c);
      }
    }
  }

  lemma ServeSlotClients(s: Sys, k: nat, len: nat, tick: Tick)
    requires 0 < k < |s.slots| && ClientsOk(s)
    ensures ClientsOk(ServeSlot(s, k, len, tick))
  {
    if !s.slots[k].dev.listener {
      var slot := Broadcast(s.slots[k], Fit(s.copy.contents, len));
      BroadcastAccount(s.slots[k], Fit(s.copy.contents, len), k, s.log.commands);
      PullAccount(slot, k, s.log.commands);
      SendCommandClients(s.(slots := s.slots[k := slot.(dev := Pull(slot.dev))]), k, tick);
    }
  }

  lemma ServeSlotPace(s: Sys, k: nat, len: nat, tick: Tick)
    requires 0 < k < |s.slots| && PaceOk(s) && tick.check <= tick.end < CLOCK_LIMIT
    ensures PaceOk(ServeSlot(s, k, len, tick))
  {
    if !s.slots[k].dev.listener {
      var slot := Broadcast(s.slots[k], Fit(s.copy.contents, len));
      SendCommandPace(s.(slots := s.slots[k := slot.(dev := Pull(slot.dev))]), k, tick);
    }
  }

  lemma SendCommandPace(s: Sys, k: nat, tick: Tick)
    requires 0 < k < |s.slots| && PaceOk(s) && tick.check <= tick.end < CLOCK_LIMIT
    ensures PaceOk(SendCommand(s, k, tick))
  {
    var t := SendCommand(s, k, tick);
    if NextCommand(s, k, tick.check).Some? {
      PacedSnoc(CommandTicks(s.log.commands), tick, COMMAND_PACE);
      assert CommandTicks(t.log.commands) == CommandTicks(s.log.commands) + [tick];
    }
  }

  lemma {:induction false} ServeFromCommands(s: Sys, k: nat, len: nat, ticks: seq<Tick>)
    requires k > 0 && |ticks| == |s.slots| && ClientsOk(s) && PaceOk(s)
    requires forall j :: 0 <= j < |ticks| ==> ticks[j].check <= ticks[j].end < CLOCK_LIMIT
    ensures ClientsOk(ServeFrom(s, k, len, ticks)) && PaceOk(ServeFrom(s, k, len, ticks))
    decreases |s.slots| - k
  {
    if k < |s.slots| {
      ServeSlotClients(s, k, len, ticks[k]);
      ServeSlotPace(s, k, len, ticks[k]);
      ServeFromCommands(ServeSlot(s, k, len, ticks[k]), k + 1, len, ticks);
    }
  }

  // ---- Every event ----

  lemma ReadClient(slot: Slot, os: set<int>, res: ReadResult, k: nat, commands: seq<Command>, bufsize: nat)
    requires ClientOk(slot, k, commands) && DevOk(slot.dev, bufsize)
    requires res.Data? ==> |res.bytes| <= slot.dev.rbuf.Available()
    ensures var d := ReadDev(slot.dev, os, res).dev;
      var received := slot.log.received + if Reads(slot.dev, res) then res.bytes else [];
      ClientOk(Slot(d, slot.log.(received := received)), k, commands)
  {
    var d := ReadDev(slot.dev, os, res).dev;
    var t := Slot(d, slot.log);
    if Reads(slot.dev, res) {
      assert Accounted(t) == Accounted(slot) + res.bytes;
    } else if slot.dev.fd != NO_FD {
      assert Accounted(slot) == Accounted(t) + slot.dev.rbuf.contents;
    }
  }

  lemma ReadClients(s: Sys, i: nat, res: ReadResult, bufsize: nat)
    requires Layout(s, bufsize) && Enabled(s, Read(i, res)) && ClientsOk(s)
    ensures ClientsOk(DoRead(s, i, res))
  {
    assert DevsOf(s)[i] == s.slots[i].dev;
    if i > 0 {
      ReadClient(s.slots[i], s.os, res, i, s.log.commands, bufsize);
      var t := DoRead(s, i, res);
      var l := s.slots[i].log;
      assert t.slots[i].log == l.(received := l.received + if Reads(s.slots[i].dev, res) then res.bytes else []);
    }
  }

  lemma WriteClient(slot: Slot, os: set<int>, res: WriteResult, check: nat, end: nat, k: nat,
                    commands: seq<Command>, bufsize: nat)
    requires ClientOk(slot, k, commands) && DevOk(slot.dev, bufsize)
    ensures ClientOk(Slot(WriteDev(slot.dev, os, res, check, end).dev,
                          slot.log.(written := slot.log.written + WrittenBy(slot.dev, res, check))), k, commands)
  {
    var t := Slot(WriteDev(slot.dev, os, res, check, end).dev,
                  slot.log.(written := slot.log.written + WrittenBy(slot.dev, res, check)));
    assert Accounted(t) <= Accounted(slot);
  }

  lemma WriteClients(s: Sys, i: nat, res: WriteResult, check: nat, end: nat, bufsize: nat)
    requires Layout(s, bufsize) && Enabled(s, Write(i, res, check, end)) && ClientsOk(s)
    ensures ClientsOk(DoWrite(s, i, res, check, end))
  {
    assert DevsOf(s)[i] == s.slots[i].dev;
    if i > 0 {
      WriteClient(s.slots[i], s.os, res, check, end, i, s.log.commands, bufsize);
    }
  }

  lemma ExecCommands(s: Sys, e: Event, bufsize: nat)
    requires Layout(s, bufsize) && Enabled(s, e) && ClientsOk(s) && PaceOk(s)
    ensures ClientsOk(Exec(s, e)) && PaceOk(Exec(s, e))
  {
    match e
    case Cycle(ticks) => CycleCommands(s, ticks);
    case _ =>
      ExecClients(s, e, bufsize);
      assert Exec(s, e).log.commands == s.log.commands && Exec(s, e).last == s.last;
  }

  lemma ExecClients(s: Sys, e: Event, bufsize: nat)
    requires Layout(s, bufsize) && Enabled(s, e) && ClientsOk(s) && !e.Cycle?
    ensures ClientsOk(Exec(s, e))
  {
    match e
    case Read(i, res) => ReadClients(s, i, res, bufsize);
    case Write(i, res, check, end) => WriteClients(s, i, res, check, end, bufsize);
    case Accept(i, fd) =>
      AcceptClients(s, i, fd);
    case _ => OtherClients(s, e, bufsize);
  }

  /** Opening and closing move no bytes on the receiving side. */
  lemma OtherClients(s: Sys, e: Event, bufsize: nat)
    requires Layout(s, bufsize) && Enabled(s, e) && ClientsOk(s) && (e.Masks? || e.Except? || e.Shut?)
    ensures ClientsOk(Exec(s, e)) && Exec(s, e).log == s.log && Exec(s, e).last == s.last
  {
    OnlyOpensOrCloses(s, e, bufsize);
  }

  lemma CycleCommands(s: Sys, ticks: seq<Tick>)
    requires Enabled(s, Cycle(ticks)) && ClientsOk(s) && PaceOk(s)
    ensures ClientsOk(DoCycle(s, ticks)) && PaceOk(DoCycle(s, ticks))
  {
    if Running(s) {
      ServeFromCommands(BeginCycle(s), 1, |SerialBytes(s)|, ticks);
    }
  }

  lemma AcceptClients(s: Sys, i: nat, fd: int)
    requires Enabled(s, Accept(i, fd)) && ClientsOk(s)
    ensures ClientsOk(DoAccept(s, i, fd))
  {
    if fd != NO_FD {
      var log := NO_LOG.(moved := |s.log.moved|, commands := |s.log.commands|);
      var slot := Slot(AcceptedDev(fd, s.slots[i].dev.bufsize), log);
      assert Accounted(slot) == [];
      assert s.log.commands[|s.log.commands|..] == [];
    }
  }

  // ---- Framing ----

  /** However its bytes arrived and were read, the commands taken from a connection are
      the first commands of everything it received, framed at once. */
  lemma TakenIsFramed(slot: Slot, k: nat, commands: seq<Command>)
    requires ClientOk(slot, k, commands) && slot.dev.kind.Connection?
    ensures slot.log.taken <= TokensOf(slot.log.received, NEWLINE)
    ensures slot.dev.fd != NO_FD ==>
      TokensOf(slot.log.received, NEWLINE) ==
      slot.log.taken + TokensOf(LineOf(slot.dev) + slot.dev.rbuf.contents, NEWLINE)
  {
    assert Join(slot.log.taken) <= Accounted(slot);
    FrontIsFramed(slot.log.received, slot.log.taken);
    if slot.dev.fd != NO_FD {
      AllIsFramed(slot.log.received, slot.log.taken, LineOf(slot.dev), slot.dev.rbuf.contents);
    }
  }

  lemma AllIsFramed(received: seq<byte>, taken: seq<seq<byte>>, line: seq<byte>, waiting: seq<byte>)
    requires AllTokens(taken, NEWLINE) && received == Join(taken) + line + waiting
    ensures TokensOf(received, NEWLINE) == taken + TokensOf(line + waiting, NEWLINE)
  {
    assert received == Join(taken) + (line + waiting);
    TokensOfJoin(taken, line + waiting, NEWLINE);
  }

  lemma FrontIsFramed(received: seq<byte>, taken: seq<seq<byte>>)
    requires AllTokens(taken, NEWLINE) && Join(taken) <= received
    ensures taken <= TokensOf(received, NEWLINE)
  {
    var rest := received[|Join(taken)|..];
    assert received == Join(taken) + rest;
    TokensOfJoin(taken, rest, NEWLINE);
  }

  // ---- Progress ----

  /** A client has a whole command waiting. */
  predicate HasCommand(slot: Slot) {
    && slot.dev.linebuf.Some? && !slot.dev.listener
    && NextLength(slot.dev.linebuf.value + slot.dev.rbuf.contents, NEWLINE).Some?
  }

  /** The command a client sends first: the first framed in what waits of it. */
  ghost predicate IsFirstOf(c: Command, slots: seq<Slot>, j: nat) {
    && j < |slots| && slots[j].dev.linebuf.Some? && c.slot == j
    && var tokens := TokensOf(slots[j].dev.linebuf.value + slots[j].dev.rbuf.contents, NEWLINE);
       tokens != [] && c.sent.bytes == tokens[0]
  }

  // What one cycle collects: every client's receive buffer is emptied into its line buffer.

  lemma ServeSlotCollects(s: Sys, k: nat, len: nat, tick: Tick)
    requires 0 < k < |s.slots|
    ensures var t := ServeSlot(s, k, len, tick);
      && |t.slots| == |s.slots|
      && (forall j :: 0 < j < |s.slots| && j != k ==> t.slots[j] == s.slots[j])
      && (!s.slots[k].dev.listener && s.slots[k].dev.linebuf.Some? ==>
            && t.slots[k].dev.rbuf.contents == []
            && Accounted(t.slots[k]) == Accounted(s.slots[k]))
  {
    if !s.slots[k].dev.listener {
      var slot := Broadcast(s.slots[k], Fit(s.copy.contents, len));
      var pulled := slot.(dev := Pull(slot.dev));
      var u := s.(slots := s.slots[k := pulled]);
      assert Accounted(pulled) == Accounted(s.slots[k]);
      if NextCommand(u, k, tick.check).Some? {
        TakeAccount(pulled, |NextCommand(u, k, tick.check).value|);
      }
    }
  }

  lemma {:induction false} ServeFromCollects(s: Sys, k: nat, len: nat, ticks: seq<Tick>, j: nat)
    requires 0 < k && |ticks| == |s.slots| && 0 < j < |s.slots|
    ensures var t := ServeFrom(s, k, len, ticks);
      if j < k then t.slots[j] == s.slots[j]
      else
        !s.slots[j].dev.listener && s.slots[j].dev.linebuf.Some? ==>
          t.slots[j].dev.rbuf.contents == [] && Accounted(t.slots[j]) == Accounted(s.slots[j])
    decreases |s.slots| - k
  {
    if k < |s.slots| {
      ServeSlotCollects(s, k, len, ticks[k]);
      ServeFromCollects(ServeSlot(s, k, len, ticks[k]), k + 1, len, ticks, j);
    }
  }

  /** A cycle leaves nothing in a client's receive buffer, and loses nothing of it. */
  lemma CycleCollects(s: Sys, ticks: seq<Tick>, j: nat)
    requires Enabled(s, Cycle(ticks)) && Running(s)
    requires 0 < j < |s.slots| && !s.slots[j].dev.listener && s.slots[j].dev.linebuf.Some?
    ensures var t := Exec(s, Cycle(ticks));
      t.slots[j].dev.rbuf.contents == [] && Accounted(t.slots[j]) == Accounted(s.slots[j])
  {
    var b := BeginCycle(s);
    assert b.slots[j] == s.slots[j];
    ServeFromCollects(b, 1, |SerialBytes(s)|, ticks, j);
  }

  lemma ServeSlotSends(s: Sys, k: nat, len: nat, tick: Tick)
    requires 0 < k < |s.slots|
    ensures var t := ServeSlot(s, k, len, tick);
      && s.log.commands <= t.log.commands && |t.slots| == |s.slots|
      && (t.log.commands == s.log.commands ==> t.last == s.last)
      && (forall j :: 0 < j < |s.slots| && j != k ==> t.slots[j] == s.slots[j])
      && (!HasCommand(s.slots[k]) ==> t.log.commands == s.log.commands)
      && (s.last.Expired(tick.check) && HasCommand(s.slots[k]) ==>
            |t.log.commands| > |s.log.commands| && IsFirstOf(t.log.commands[|s.log.commands|], s.slots, k))
  {
  }

  lemma {:induction false} ServeFromSends(s: Sys, k: nat, len: nat, ticks: seq<Tick>, j: nat)
    requires 0 < k && |ticks| == |s.slots| && 0 < j < |s.slots|
    requires forall i :: 0 <= i < |ticks| ==> s.last.Expired(ticks[i].check)
    requires k <= j && HasCommand(s.slots[j]) && forall i :: k <= i < j ==> !HasCommand(s.slots[i])
    ensures var t, n := ServeFrom(s, k, len, ticks), |s.log.commands|;
      |t.log.commands| > n && IsFirstOf(t.log.commands[n], s.slots, j)
    decreases |s.slots| - k
  {
    var t := ServeSlot(s, k, len, ticks[k]);
    ServeSlotSends(s, k, len, ticks[k]);
    if k == j {
      ServeFromExtends(t, k + 1, len, ticks);
    } else {
      ServeFromSends(t, k + 1, len, ticks, j);
    }
  }

  lemma {:induction false} ServeFromExtends(s: Sys, k: nat, len: nat, ticks: seq<Tick>)
    requires 0 < k && |ticks| == |s.slots|
    ensures s.log.commands <= ServeFrom(s, k, len, ticks).log.commands
    decreases |s.slots| - k
  {
    if k < |s.slots| {
      ServeSlotSends(s, k, len, ticks[k]);
      ServeFromExtends(ServeSlot(s, k, len, ticks[k]), k + 1, len, ticks);
    }
  }

  /** A cycle begun when the pace is over sends a command if any client has one: the first
      of the client in the lowest slot that has one. */
  lemma CycleSendsWhenDue(s: Sys, ticks: seq<Tick>, j: nat)
    requires Enabled(s, Cycle(ticks)) && Running(s) && PaceOk(s) && s.last.Expired(s.now)
    requires 0 < j < |s.slots| && HasCommand(s.slots[j])
    requires forall i :: 0 < i < j ==> !HasCommand(s.slots[i])
    ensures var t, n := Exec(s, Cycle(ticks)), |s.log.commands|;
      |t.log.commands| > n && IsFirstOf(t.log.commands[n], s.slots, j)
  {
    var b := BeginCycle(s);
    assert forall i :: 0 < i < |s.slots| ==> b.slots[i] == s.slots[i];
    ServeFromSends(b, 1, |SerialBytes(s)|, ticks, j);
  }
}
